/** The password session of the Unix backend: the object a caller enters
    with `with`, which selects the terminal streams, puts the terminal into
    raw mode, reads one password through the escape filter and the line
    editor, and restores the terminal through a stack of exit actions.

    The class holds both the members UnixGetpass defines (`input_setup`,
    `disable_echo`, `getchar`) and those it inherits from AbstractGetpass
    (`__enter__`, `__exit__`, `print_prompt`, `read_input`, `_read_loop`).
    The terminal and the streams are modelled by abstract values: the keys
    that will arrive, a log of what is written to the output stream, and the
    terminal's settings.
 */
module UnixGetpass {
  import opened EscapeFilter
  import opened LineEditor

  datatype Option<T> = None | Some(value: T)

  /** The streams a session can end up using.  Every opening of /dev/tty
      creates a new file and a new text stream over it; `n` numbers the
      openings. */
  datatype Handle = CallerStream(id: nat) | DevTtyFile(n: nat) | DevTtyText(n: nat) | Stdin | Stderr

  /** The terminal's settings: the attributes raw mode does not touch, and
      whether raw mode (no echo, no line buffering) is on. */
  datatype TermState = TermState(attrs: nat, raw: bool)

  /** An exit action on the session's ExitStack: closing a stream entered as
      a context, or the callback that writes a settings snapshot back. */
  datatype Cleanup = CloseHandle(h: Handle) | RestoreSettings(snapshot: TermState)

  /** What the operating system answers `input_setup`: whether the caller's
      input stream is a terminal, whether /dev/tty opens, whether stdin is a
      terminal, whether the settings can be read (`tcgetattr`) and whether
      raw mode can be set (`tty.setraw`). */
  datatype Env = Env(inputIsTty: bool, devTtyOpens: bool, stdinIsTty: bool, attrsReadable: bool, rawModeSet: bool)

  datatype NoTtyReason = InputNotTty | StdinNotTty

  /** The exceptions that leave the session: ValueError outside `with`,
      NoTTYError, termios.error, KeyboardInterrupt, the TypeError of
      `ord("")` at end of input, the ValueError of a malformed escape, the
      AttributeError of a stream that setup never assigned, and the
      ValueError of a write or read on a closed stream. */
  datatype Error =
    | NotInsideWith
    | NoTty(reason: NoTtyReason)
    | TermiosError
    | Interrupt
    | EndOfInput
    | InvalidEscapeSequence
    | MissingAttribute
    | ClosedStream

  datatype Result<T> = Ok(value: T) | Err(error: Error)

  /** What leaves `read_input` for each way the read loop ends. */
  function LoopResult(end: LoopEnd): (r: Result<string>)
  {
    match end
    case Submitted(p) => Ok(p)
    case Interrupted => Err(Interrupt)
    case InputExhausted => Err(EndOfInput)
    case InvalidEscape => Err(InvalidEscapeSequence)
  }

  /** The decision tree of `input_setup`: which check fails first. */
  function SetupOutcome(input: Option<Handle>, env: Env): (r: Result<()>)
  {
    if input.Some? && !env.inputIsTty then Err(NoTty(InputNotTty))
    else if input.None? && !env.devTtyOpens && !env.stdinIsTty then Err(NoTty(StdinNotTty))
    else if !env.attrsReadable || !env.rawModeSet then Err(TermiosError)
    else Ok(())
  }

  /** The contexts `input_setup` enters: the /dev/tty file and its text
      wrapper, when /dev/tty was opened (for the `n`th time). */
  function Opened(input: Option<Handle>, env: Env, n: nat): (r: seq<Cleanup>)
  {
    if input.None? && env.devTtyOpens then [CloseHandle(DevTtyFile(n)), CloseHandle(DevTtyText(n))] else []
  }

  /** The input handle `input_setup` selects: the caller's stream when it is
      a terminal, else the /dev/tty text stream, else stdin (assigned before
      stdin is checked). */
  function InputChoice(input: Option<Handle>, env: Env, previous: Option<Handle>, n: nat): (r: Option<Handle>)
  {
    if input.Some? then (if env.inputIsTty then input else previous)
    else if env.devTtyOpens then Some(DevTtyText(n)) else Some(Stdin)
  }

  /** The output stream after `input_setup`: the caller's, else /dev/tty when
      it was opened, else stderr once setup has succeeded. */
  function OutputChoice(output: Option<Handle>, input: Option<Handle>, env: Env, n: nat): (r: Option<Handle>)
  {
    if output.Some? then output
    else if input.None? && env.devTtyOpens then Some(DevTtyText(n))
    else if SetupOutcome(input, env).Ok? then Some(Stderr) else None
  }

  function Reversed<T>(s: seq<T>): (r: seq<T>)
  {
    if s == [] then [] else Reversed(s[1..]) + [s[0]]
  }

  /** The streams that performing the exit actions `s` closes. */
  function ClosedBy(s: seq<Cleanup>): (r: set<Handle>)
  {
    if s == [] then {}
    else (if s[0].CloseHandle? then {s[0].h} else {}) + ClosedBy(s[1..])
  }

  /** What `read(1)` yields with the cursor at `j`. */
  function RawAt(s: seq<char>, j: nat): (r: Read)
  {
    if j < |s| then Char(s[j]) else Eof
  }

  class UnixGetpass {
    const input: Option<Handle>
    var output: Option<Handle>
    const stripEscapes: bool
    var insideWith: bool
    var stack: seq<Cleanup>
    var inputHandle: Option<Handle>

    /** The keys that arrive on the input and the read cursor. */
    const keys: array<char>
    var cursor: nat
    /** Everything written to the output stream. */
    var written: seq<OutEvent>
    /** The terminal's current settings. */
    var terminal: TermState
    /** The streams closed so far, and how often /dev/tty has been opened. */
    var closed: set<Handle>
    var ttyOpenings: nat

    /** The read cursor when the prompt was last written. */
    ghost var promptCursor: nat
    /** The exit actions performed so far, in order. */
    ghost var ran: seq<Cleanup>
    /** The terminal's settings when the current session was entered. */
    ghost var original: TermState

    /** Every restore callback on the stack writes back the settings found
        at entry, and the terminal differs from those only while such a
        callback is pending. */
    ghost predicate Valid()
      reads this
    {
      cursor <= keys.Length &&
      (forall k :: 0 <= k < |stack| && stack[k].RestoreSettings? ==> stack[k].snapshot == original) &&
      (terminal != original ==> RestoreSettings(original) in stack)
    }

    constructor (input: Option<Handle>, output: Option<Handle>, stripEscapes: bool, keys: array<char>, terminal: TermState)
      ensures Valid()
      ensures this.input == input && this.output == output && this.stripEscapes == stripEscapes
      ensures this.keys == keys && this.terminal == terminal
      ensures !insideWith && stack == [] && inputHandle == None
      ensures cursor == 0 && written == [] && ran == [] && original == terminal
      ensures closed == {} && ttyOpenings == 0 && promptCursor == 0
    {
      this.input := input;
      this.output := output;
      this.stripEscapes := stripEscapes;
      this.keys := keys;
      this.terminal := terminal;
      insideWith := false;
      stack := [];
      inputHandle := None;
      cursor := 0;
      written := [];
      ran := [];
      original := terminal;
      closed := {};
      ttyOpenings := 0;
      promptCursor := 0;
    }

    // -------------------------------------------------------------------
    // The exit stack

    /** `ExitStack.close`: performs the registered actions last-registered
        first and empties the stack, so that a second close performs nothing;
        afterwards the stack's streams are closed and the terminal has the
        settings found at entry. */
    method CloseStack()
      requires Valid()
      modifies this`stack, this`terminal, this`ran, this`closed
      ensures Valid()
      ensures stack == [] && ran == old(ran) + Reversed(old(stack))
      ensures closed == old(closed) + ClosedBy(old(stack))
      ensures terminal == original
    {
      ghost var all := stack;
      while stack != []
        invariant stack == all[..|stack|]
        invariant ran == old(ran) + Reversed(all[|stack|..])
        invariant closed == old(closed) + ClosedBy(all[|stack|..])
        invariant Valid()
        decreases |stack|
      {
        var n := |stack|;
        var top := stack[n - 1];
        assert all[n - 1..] == [top] + all[n..];
        assert ([top] + all[n..])[1..] == all[n..];
        assert stack[..n - 1] == all[..n - 1];
        if top.RestoreSettings? {
          terminal := top.snapshot;
        } else {
          assert RestoreSettings(original) != top;
          assert terminal != original ==> RestoreSettings(original) in stack[..n - 1];
          closed := closed + {top.h};
        }
        stack := stack[..n - 1];
        ran := ran + [top];
      }
    }

    // -------------------------------------------------------------------
    // Terminal setup

    /** `disable_echo`: snapshot the settings, set raw mode, and only then
        register the callback that writes the snapshot back.  A failure
        leaves the terminal and the stack as they were. */
    method DisableEcho(env: Env) returns (r: Result<()>)
      requires Valid() && terminal == original
      modifies this`stack, this`terminal
      ensures Valid()
      ensures r == (if env.attrsReadable && env.rawModeSet then Ok(()) else Err(TermiosError))
      ensures r.Ok? ==> terminal == old(terminal).(raw := true) &&
                        stack == old(stack) + [RestoreSettings(old(terminal))]
      ensures r.Err? ==> terminal == old(terminal) && stack == old(stack)
    {
      if !env.attrsReadable {
        return Err(TermiosError);
      }
      var snapshot := terminal;
      if !env.rawModeSet {
        return Err(TermiosError);
      }
      terminal := terminal.(raw := true);
      stack := stack + [RestoreSettings(snapshot)];
      r := Ok(());
    }

    /** `input_setup`: choose the input stream (the caller's, else /dev/tty,
        else stdin), fail with NoTTYError before any change to the terminal
        when it is not a terminal, disable echo, and default the output to
        /dev/tty or else stderr without replacing a caller's output. */
    method InputSetup(env: Env) returns (r: Result<()>)
      requires Valid() && stack == []
      modifies this`inputHandle, this`output, this`stack, this`terminal, this`ran, this`closed, this`ttyOpenings
      ensures Valid()
      ensures r == SetupOutcome(input, env)
      ensures inputHandle == InputChoice(input, env, old(inputHandle), old(ttyOpenings))
      ensures output == OutputChoice(old(output), input, env, old(ttyOpenings))
      ensures stack == Opened(input, env, old(ttyOpenings)) + (if r.Ok? then [RestoreSettings(original)] else [])
      ensures terminal == (if r.Ok? then original.(raw := true) else original)
      ensures ran == old(ran) && closed == old(closed)
      ensures ttyOpenings == old(ttyOpenings) + (if input.None? && env.devTtyOpens then 1 else 0)
    {
      if input.Some? {
        if !env.inputIsTty {
          return Err(NoTty(InputNotTty));
        }
        inputHandle := input;
      } else {
        if env.devTtyOpens {
          stack := stack + [CloseHandle(DevTtyFile(ttyOpenings))];
          inputHandle := Some(DevTtyText(ttyOpenings));
          stack := stack + [CloseHandle(DevTtyText(ttyOpenings))];
          ttyOpenings := ttyOpenings + 1;
          if output.None? {
            output := inputHandle;
          }
        } else {
          CloseStack();
          inputHandle := Some(Stdin);
          if !env.stdinIsTty {
            return Err(NoTty(StdinNotTty));
          }
        }
      }
      r := DisableEcho(env);
      if r.Err? {
        return;
      }
      if output.None? {
        output := Some(Stderr);
      }
    }

    // -------------------------------------------------------------------
    // The context manager

    /** `__enter__`: mark the session entered, start a fresh stack and run
        `input_setup`; if that fails, close the stack (so whatever it had
        entered is closed) and pass the error on. */
    method Enter(env: Env) returns (r: Result<()>)
      requires Valid()
      modifies this`insideWith, this`stack, this`terminal, this`ran, this`original, this`inputHandle, this`output
      modifies this`closed, this`ttyOpenings
      ensures Valid() && insideWith
      ensures original == old(terminal)
      ensures r == SetupOutcome(input, env)
      ensures inputHandle == InputChoice(input, env, old(inputHandle), old(ttyOpenings))
      ensures output == OutputChoice(old(output), input, env, old(ttyOpenings))
      ensures ttyOpenings == old(ttyOpenings) + (if input.None? && env.devTtyOpens then 1 else 0)
      ensures r.Ok? ==> stack == Opened(input, env, old(ttyOpenings)) + [RestoreSettings(original)] &&
                        terminal == original.(raw := true) && ran == old(ran) && closed == old(closed)
      ensures r.Err? ==> stack == [] && terminal == original &&
                         ran == old(ran) + Reversed(Opened(input, env, old(ttyOpenings))) &&
                         closed == old(closed) + ClosedBy(Opened(input, env, old(ttyOpenings)))
    {
      insideWith := true;
      stack := [];
      original := terminal;
      r := InputSetup(env);
      if r.Err? {
        assert stack == Opened(input, env, old(ttyOpenings));
        CloseStack();
      }
    }

    /** `__exit__`: leave the session and close the stack. */
    method Exit()
      requires Valid()
      modifies this`insideWith, this`stack, this`terminal, this`ran, this`closed
      ensures Valid() && !insideWith
      ensures stack == [] && ran == old(ran) + Reversed(old(stack))
      ensures closed == old(closed) + ClosedBy(old(stack))
      ensures terminal == original
    {
      insideWith := false;
      CloseStack();
    }

    // -------------------------------------------------------------------
    // Reading

    /** `read(1)` on the input handle: the next key, or "" at end of input,
        where the cursor stays. */
    method Getch() returns (ch: Read)
      requires cursor <= keys.Length
      modifies this`cursor
      ensures ch == RawAt(keys[..], old(cursor))
      ensures cursor == if old(cursor) < keys.Length then old(cursor) + 1 else old(cursor)
    {
      if cursor < keys.Length {
        ch := Char(keys[cursor]);
        cursor := cursor + 1;
      } else {
        ch := Eof;
      }
    }

    /** The inner loop of `getchar` that reads past parameter bytes: from
        the character `ch` at position `j` to the first one that is not a
        parameter byte. */
    method SkipParameters(ghost j: nat, ch: Read) returns (ghost k: nat, last: Read)
      requires Valid() && j <= keys.Length && ch == RawAt(keys[..], j)
      requires cursor == if j < keys.Length then j + 1 else j
      modifies this`cursor
      ensures Valid() && k == ParameterEnd(keys[..], j) && last == RawAt(keys[..], k)
      ensures cursor == if k < keys.Length then k + 1 else k
    {
      k, last := j, ch;
      while last.Char? && IsParameter(last.c)
        invariant j <= k <= keys.Length && last == RawAt(keys[..], k)
        invariant cursor == if k < keys.Length then k + 1 else k
        invariant ParameterEnd(keys[..], j) == ParameterEnd(keys[..], k)
        invariant Valid()
        decreases keys.Length - k
      {
        k := cursor;
        last := Getch();
      }
    }

    /** The inner loop of `getchar` that reads past intermediate bytes. */
    method SkipIntermediates(ghost j: nat, ch: Read) returns (ghost k: nat, last: Read)
      requires Valid() && j <= keys.Length && ch == RawAt(keys[..], j)
      requires cursor == if j < keys.Length then j + 1 else j
      modifies this`cursor
      ensures Valid() && k == IntermediateEnd(keys[..], j) && last == RawAt(keys[..], k)
      ensures cursor == if k < keys.Length then k + 1 else k
    {
      k, last := j, ch;
      while last.Char? && IsIntermediate(last.c)
        invariant j <= k <= keys.Length && last == RawAt(keys[..], k)
        invariant cursor == if k < keys.Length then k + 1 else k
        invariant IntermediateEnd(keys[..], j) == IntermediateEnd(keys[..], k)
        invariant Valid()
        decreases keys.Length - k
      {
        k := cursor;
        last := Getch();
      }
    }

    /** The part of `getchar` after `ESC [`: read past the parameter and
        intermediate bytes and then the final byte, if there is one.  With a
        final byte the call goes on with the cursor after it; without one it
        raises with the cursor after the character that took its place. */
    method SkipControlSequence(ghost esc: nat) returns (final: bool, last: Read)
      requires Valid() && esc + 1 < keys.Length && keys[esc] == ESC && keys[esc + 1] == '['
      requires cursor == esc + 2
      modifies this`cursor
      ensures Valid() && esc < cursor <= keys.Length
      ensures final ==> Next(keys[..], esc, true) == Next(keys[..], cursor, true)
      ensures !final ==> Next(keys[..], esc, true) == Step(InvalidCsi, cursor)
    {
      ghost var at := cursor;
      var ch := Getch();
      at, last := SkipParameters(at, ch);
      at, last := SkipIntermediates(at, last);
      ControlSequenceStep(keys[..], esc, at);
      final := last.Char? && IsFinal(last.c);
      if final {
        assert at < keys.Length && keys[at] == last.c;
      }
    }

    /** `getchar`: the next logical character, as `Next` defines it. */
    method GetChar() returns (r: Outcome)
      requires Valid()
      modifies this`cursor
      ensures Valid()
      ensures Next(keys[..], old(cursor), stripEscapes) == Step(r, cursor)
    {
      ghost var s := keys[..];
      ghost var start := cursor;
      ghost var at := cursor;
      var ch := Getch();
      while true
        invariant at <= |s| && ch == RawAt(s, at)
        invariant cursor == if at < |s| then at + 1 else at
        invariant Next(s, start, stripEscapes) == Next(s, at, stripEscapes)
        invariant Valid()
        decreases |s| - at
      {
        if !stripEscapes {
          return Returned(ch);
        }
        if ch != Char(ESC) {
          return Returned(ch);
        }
        ghost var esc := at;
        assert esc < |s| && s[esc] == ESC && stripEscapes;
        at := cursor;
        ch := Getch();
        if ch == Char('[') {
          var final;
          final, ch := SkipControlSequence(esc);
          if !final {
            return InvalidCsi;
          }
          at := cursor;
          ch := Getch();
          continue;
        } else if ch.Char? && IsFe(ch.c) {
          FeSequenceSkipped(s, esc);
          at := cursor;
          ch := Getch();
          continue;
        } else {
          LoneEscapeDropped(s, esc);
        }
      }
    }

    /** `print_prompt`: write the prompt and flush; writing to a closed
        stream raises and writes nothing. */
    method PrintPrompt(prompt: string) returns (r: Result<()>)
      requires output.Some?
      modifies this`written, this`promptCursor
      ensures output.value in closed ==>
        r == Err(ClosedStream) && written == old(written) && promptCursor == old(promptCursor)
      ensures output.value !in closed ==>
        r == Ok(()) && written == old(written) + [Write(prompt), Flush] && promptCursor == cursor
    {
      if output.value in closed {
        return Err(ClosedStream);
      }
      written := written + [Write(prompt), Flush];
      promptCursor := cursor;
      r := Ok(());
    }

    /** The editing branches of `_read_loop` for a key that neither
        interrupts nor submits: backspace, an ignored control character, or a
        key appended to the buffer, echoing as `Apply` says. */
    method EditBuffer(password: seq<char>, c: char, mask: string) returns (edited: seq<char>)
      requires Apply(password, c, mask).Edit?
      modifies this`written
      ensures edited == Apply(password, c, mask).buffer
      ensures written == old(written) + Apply(password, c, mask).events
    {
      var key := c as int;
      edited := password;
      if key == 8 || key == 127 {
        if |edited| > 0 {
          edited := edited[..|edited| - 1];
          if mask != "" {
            written := written + [Write(ERASE), Flush];
          }
        }
      } else if 0 <= key <= 31 {
      } else {
        edited := edited + [c];
        if mask != "" {
          written := written + [Write(mask), Flush];
        }
      }
    }

    /** One pass of the body of `_read_loop`: read a logical key and either
        end the loop or edit the buffer, so that what is left of the loop
        from the new cursor, with the edited buffer, is what was left of it
        before, minus the echo this pass wrote. */
    method Turn(password: seq<char>, mask: string) returns (done: bool, end: LoopEnd, edited: seq<char>, ghost echoed: seq<OutEvent>)
      requires Valid()
      modifies this`cursor, this`written
      ensures Valid() && written == old(written) + echoed
      ensures var here := Loop(keys[..], old(cursor), stripEscapes, password, mask);
        if done then end == here.end && cursor == here.cursor && echoed == here.events
        else
          var rest := Loop(keys[..], cursor, stripEscapes, edited, mask);
          old(cursor) < cursor && here == Run(rest.end, echoed + rest.events, rest.cursor)
    {
      ghost var s := keys[..];
      ghost var before := cursor;
      var got := GetChar();
      LoopStops(s, before, stripEscapes, password, mask);
      done, edited, echoed := true, password, [];
      if got == InvalidCsi {
        return done, InvalidEscape, edited, echoed;
      }
      if got.ch.Eof? {
        return done, InputExhausted, edited, echoed;
      }
      var c := got.ch.c;
      LoopTurn(s, before, stripEscapes, password, mask, c);
      var key := c as int;
      if key == 3 || key == 28 {
        return done, Interrupted, edited, echoed;
      } else if key == 4 || key == 10 || key == 13 {
        written := written + [Write(CRLF), Flush];
        return done, Submitted(password), edited, [Write(CRLF), Flush];
      }
      done, end := false, InputExhausted;
      edited := EditBuffer(password, c, mask);
      echoed := Apply(password, c, mask).events;
    }

    /** `_read_loop`: read logical keys until one ends the loop, editing the
        buffer and echoing as `Loop` defines it. */
    method ReadLoop(mask: string) returns (end: LoopEnd)
      requires Valid()
      modifies this`cursor, this`written
      ensures Valid()
      ensures var run := Loop(keys[..], old(cursor), stripEscapes, [], mask);
        end == run.end && written == old(written) + run.events && cursor == run.cursor
    {
      ghost var s := keys[..];
      ghost var whole := Loop(s, cursor, stripEscapes, [], mask);
      ghost var shown: seq<OutEvent> := [];
      var password: seq<char> := [];
      while true
        invariant Valid()
        invariant written == old(written) + shown
        invariant var rest := Loop(s, cursor, stripEscapes, password, mask);
          whole == Run(rest.end, shown + rest.events, rest.cursor)
        decreases keys.Length - cursor
      {
        ghost var here := Loop(s, cursor, stripEscapes, password, mask);
        var done;
        ghost var echoed;
        done, end, password, echoed := Turn(password, mask);
        assert keys[..] == s;
        if done {
          AppendAssoc(old(written), shown, echoed);
          return;
        }
        ghost var rest := Loop(s, cursor, stripEscapes, password, mask);
        assert here == Run(rest.end, echoed + rest.events, rest.cursor);
        AppendAssoc(shown, echoed, rest.events);
        shown := shown + echoed;
      }
    }

    /** `read_input`: refuse outside `with` without writing anything; write
        and flush the prompt once, before any key is read, failing before the
        `with self.stack` when the output is closed; run the read loop, whose
        first `read(1)` fails when the input is closed, and close the stack
        on every way out of it, so that the terminal is back to the settings
        found at entry. */
    method ReadInput(prompt: string, mask: string) returns (r: Result<string>)
      requires Valid()
      modifies this`cursor, this`written, this`stack, this`terminal, this`ran, this`closed, this`promptCursor
      ensures Valid()
      ensures !insideWith ==>
        r == Err(NotInsideWith) && written == old(written) && cursor == old(cursor) &&
        stack == old(stack) && terminal == old(terminal) && ran == old(ran) && closed == old(closed) &&
        promptCursor == old(promptCursor)
      ensures insideWith && output.None? ==>
        r == Err(MissingAttribute) && written == old(written) && cursor == old(cursor) &&
        stack == old(stack) && terminal == old(terminal) && ran == old(ran) && closed == old(closed) &&
        promptCursor == old(promptCursor)
      ensures insideWith && output.Some? && output.value in old(closed) ==>
        r == Err(ClosedStream) && written == old(written) && cursor == old(cursor) &&
        stack == old(stack) && terminal == old(terminal) && ran == old(ran) && closed == old(closed) &&
        promptCursor == old(promptCursor)
      ensures insideWith && output.Some? && output.value !in old(closed) ==>
        stack == [] && terminal == original && ran == old(ran) + Reversed(old(stack)) &&
        closed == old(closed) + ClosedBy(old(stack))
      // the prompt is written before any key is read
      ensures insideWith && output.Some? && output.value !in old(closed) ==> promptCursor == old(cursor)
      ensures insideWith && output.Some? && output.value !in old(closed) && inputHandle.None? ==>
        r == Err(MissingAttribute) && written == old(written) + [Write(prompt), Flush] && cursor == old(cursor)
      ensures insideWith && output.Some? && output.value !in old(closed) &&
              inputHandle.Some? && inputHandle.value in old(closed) ==>
        r == Err(ClosedStream) && written == old(written) + [Write(prompt), Flush] && cursor == old(cursor)
      ensures insideWith && output.Some? && output.value !in old(closed) &&
              inputHandle.Some? && inputHandle.value !in old(closed) ==>
        var run := Loop(keys[..], old(cursor), stripEscapes, [], mask);
        r == LoopResult(run.end) && cursor == run.cursor &&
        written == old(written) + [Write(prompt), Flush] + run.events
    {
      if !insideWith {
        return Err(NotInsideWith);
      }
      if output.None? {
        return Err(MissingAttribute);
      }
      var printed := PrintPrompt(prompt);
      if printed.Err? {
        return Err(ClosedStream);
      }
      if inputHandle.None? {
        CloseStack();
        return Err(MissingAttribute);
      }
      if inputHandle.value in closed {
        CloseStack();
        return Err(ClosedStream);
      }
      var end := ReadLoop(mask);
      CloseStack();
      r := LoopResult(end);
    }

    /** The body of `with Getpass(...) as gp: return gp.read_input(...)`
        once `__enter__` has succeeded, followed by `__exit__`: the read
        closes the stack, so the exit finds nothing left to run. */
    method ReadAndExit(prompt: string, mask: string) returns (r: Result<string>)
      requires Valid() && insideWith && output.Some? && inputHandle.Some?
      requires output.value !in closed && inputHandle.value !in closed
      modifies this`cursor, this`written, this`stack, this`terminal, this`ran, this`closed, this`insideWith
      modifies this`promptCursor
      ensures !insideWith && stack == [] && terminal == original
      ensures ran == old(ran) + Reversed(old(stack)) && closed == old(closed) + ClosedBy(old(stack))
      ensures promptCursor == old(cursor)
      ensures var run := Loop(keys[..], old(cursor), stripEscapes, [], mask);
        r == LoopResult(run.end) && cursor == run.cursor &&
        written == old(written) + [Write(prompt), Flush] + run.events
    {
      r := ReadInput(prompt, mask);
      ghost var done := ran;
      Exit();
      assert ran == done + Reversed([]);
      assert done + [] == done;
    }
  }

  /** On close, the callback that restores the terminal runs first, and only
      then are the /dev/tty text stream and the file under it closed; those
      two are the only streams the close closes. */
  lemma RestoreRunsFirst(input: Option<Handle>, env: Env, n: nat, snapshot: TermState)
    ensures Reversed(Opened(input, env, n) + [RestoreSettings(snapshot)]) ==
      if input.None? && env.devTtyOpens
      then [RestoreSettings(snapshot), CloseHandle(DevTtyText(n)), CloseHandle(DevTtyFile(n))]
      else [RestoreSettings(snapshot)]
    ensures ClosedBy(Opened(input, env, n) + [RestoreSettings(snapshot)]) ==
      if input.None? && env.devTtyOpens then {DevTtyFile(n), DevTtyText(n)} else {}
  {
    var all := Opened(input, env, n) + [RestoreSettings(snapshot)];
    var restore := [RestoreSettings(snapshot)];
    assert restore[1..] == [];
    assert Reversed(restore) == restore && ClosedBy(restore) == {};
    if input.None? && env.devTtyOpens {
      var tail := [CloseHandle(DevTtyText(n))] + restore;
      assert all == [CloseHandle(DevTtyFile(n))] + tail && all[1..] == tail && tail[1..] == restore;
      assert Reversed(tail) == restore + [CloseHandle(DevTtyText(n))];
      assert ClosedBy(tail) == {DevTtyText(n)};
    } else {
      assert all == restore;
    }
  }

  lemma AppendAssoc<T>(a: seq<T>, b: seq<T>, c: seq<T>)
    ensures (a + b) + c == a + (b + c)
  {
  }

  /** The library entry point: `with Getpass(...) as gp: return
      gp.read_input(...)`.  Whatever happens, the terminal ends with the
      settings it had, every registered cleanup has run exactly once, last
      registered first, and a password is returned exactly when setup
      succeeds and the read loop submits.  The output shows the prompt and
      then the loop's echo, and nothing when setup fails. */
  method GetpassDots(prompt: string, mask: string, input: Option<Handle>, output: Option<Handle>,
                     keys: array<char>, terminal: TermState, env: Env)
    returns (r: Result<string>, after: TermState, log: seq<OutEvent>, ghost cleanups: seq<Cleanup>)
    ensures after == terminal
    ensures SetupOutcome(input, env).Err? ==> r == Err(SetupOutcome(input, env).error) && log == []
    ensures SetupOutcome(input, env).Ok? ==>
      var run := Loop(keys[..], 0, true, [], mask);
      r == LoopResult(run.end) && log == [Write(prompt), Flush] + run.events
    ensures cleanups == Reversed(Opened(input, env, 0) +
      (if SetupOutcome(input, env).Ok? then [RestoreSettings(terminal)] else []))
  {
    var gp := new UnixGetpass(input, output, true, keys, terminal);
    var entered := gp.Enter(env);
    if entered.Err? {
      assert Opened(input, env, 0) + [] == Opened(input, env, 0);
      return Err(entered.error), gp.terminal, gp.written, gp.ran;
    }
    r := gp.ReadAndExit(prompt, mask);
    after, log, cleanups := gp.terminal, gp.written, gp.ran;
  }

  /** Two reads in one session on /dev/tty: the first closes the stack and
      with it /dev/tty, which is also the output, so the second fails as
      soon as it writes its prompt. */
  method ReadTwice(prompt: string, mask: string, keys: array<char>, terminal: TermState, env: Env)
    returns (first: Result<string>, second: Result<string>)
    requires env.devTtyOpens && SetupOutcome(None, env).Ok?
    ensures first == LoopResult(Loop(keys[..], 0, true, [], mask).end)
    ensures second == Err(ClosedStream)
  {
    var gp := new UnixGetpass(None, None, true, keys, terminal);
    var entered := gp.Enter(env);
    RestoreRunsFirst(None, env, 0, gp.original);
    first := gp.ReadInput(prompt, mask);
    assert DevTtyText(0) in gp.closed;
    second := gp.ReadInput(prompt, mask);
    gp.Exit();
  }
}
