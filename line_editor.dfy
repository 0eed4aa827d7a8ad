/** A reference definition of the read loop `_read_loop` of AbstractGetpass:
    the table that maps each logical key to an edit of the password buffer
    and to writes on the output stream, the loop over the raw stream (each
    key obtained by one `getchar` call), and the same loop over the
    already-filtered key sequence.
 */
module LineEditor {
  import opened EscapeFilter

  /** What the loop does to the output stream. */
  datatype OutEvent = Write(text: string) | Flush

  const CRLF: string := "\r\n"
  /** Backspace, space, backspace: erases one echoed mask glyph. */
  const ERASE: string := "\U{8} \U{8}"

  /** `text` written and flushed when a mask is configured, nothing otherwise. */
  function IfMasked(text: string, mask: string): (r: seq<OutEvent>)
  {
    if mask != "" then [Write(text), Flush] else []
  }

  /** What one key does: interrupt, end the read, or edit the buffer. */
  datatype Action = Cancel | Submit | Edit(buffer: seq<char>, events: seq<OutEvent>)

  /** The classification of a key by its code point. */
  function Apply(buffer: seq<char>, key: char, mask: string): (a: Action)
  {
    var k := key as int;
    if k == 3 || k == 28 then Cancel
    else if k == 4 || k == 10 || k == 13 then Submit
    else if k == 8 || k == 127 then
      if |buffer| > 0 then Edit(buffer[..|buffer| - 1], IfMasked(ERASE, mask))
      else Edit(buffer, [])
    else if 0 <= k <= 31 then Edit(buffer, [])
    else Edit(buffer + [key], IfMasked(mask, mask))
  }

  /** ^C, ^\, ^D, LF and CR end the loop; every other key edits. */
  predicate Stops(key: char)
  {
    var k := key as int;
    k == 3 || k == 28 || k == 4 || k == 10 || k == 13
  }

  /** A key that is appended to the buffer. */
  predicate Printable(key: char) { key as int >= 32 && key as int != 127 }

  predicate AllPrintable(s: seq<char>) { forall k :: 0 <= k < |s| ==> Printable(s[k]) }

  /** How the loop ends: returning the password, raising KeyboardInterrupt,
      failing on exhausted input (`ord("")`), or on a malformed escape. */
  datatype LoopEnd = Submitted(password: string) | Interrupted | InputExhausted | InvalidEscape

  datatype Reaction = Reaction(end: LoopEnd, events: seq<OutEvent>)

  datatype Run = Run(end: LoopEnd, events: seq<OutEvent>, cursor: nat)

  /** The read loop on raw stream `s`, cursor `i`, current buffer `buffer`:
      one `getchar` call, then the reaction to what it returned. */
  function Loop(s: seq<char>, i: nat, strip: bool, buffer: seq<char>, mask: string): (r: Run)
    requires i <= |s|
    ensures i <= r.cursor <= |s|
    decreases |s| - i, 1
  {
    React(s, i, Next(s, i, strip), strip, buffer, mask)
  }

  /** What the loop does with the outcome `st` of the call at cursor `i`:
      stop on "" or a raised call, otherwise apply the key and, if it edits,
      go on reading from the cursor the call left. */
  function React(s: seq<char>, i: nat, st: Step, strip: bool, buffer: seq<char>, mask: string): (r: Run)
    requires i <= st.next <= |s|
    requires st.out.Returned? && st.out.ch.Char? ==> i < st.next
    ensures st.next <= r.cursor <= |s|
    decreases |s| - i, 0
  {
    match st.out
    case Returned(Eof) => Run(InputExhausted, [], st.next)
    case InvalidCsi => Run(InvalidEscape, [], st.next)
    case Returned(Char(c)) =>
      match Apply(buffer, c, mask)
      case Cancel => Run(Interrupted, [], st.next)
      case Submit => Run(Submitted(buffer), [Write(CRLF), Flush], st.next)
      case Edit(b, e) =>
        var rest := Loop(s, st.next, strip, b, mask);
        Run(rest.end, e + rest.events, rest.cursor)
  }

  /** One turn of the loop, for callers that step through it. */
  lemma LoopTurn(s: seq<char>, i: nat, strip: bool, buffer: seq<char>, mask: string, c: char)
    requires i <= |s| && Next(s, i, strip).out == Returned(Char(c))
    ensures var st := Next(s, i, strip);
      var r := Loop(s, i, strip, buffer, mask);
      var a := Apply(buffer, c, mask);
      (a.Cancel? ==> r == Run(Interrupted, [], st.next)) &&
      (a.Submit? ==> r == Run(Submitted(buffer), [Write(CRLF), Flush], st.next)) &&
      (a.Edit? ==>
         var rest := Loop(s, st.next, strip, a.buffer, mask);
         r == Run(rest.end, a.events + rest.events, rest.cursor))
  {
    assert Loop(s, i, strip, buffer, mask) == React(s, i, Next(s, i, strip), strip, buffer, mask);
  }

  /** The loop ends when the call returns "" or raises. */
  lemma LoopStops(s: seq<char>, i: nat, strip: bool, buffer: seq<char>, mask: string)
    requires i <= |s|
    ensures var st := Next(s, i, strip);
      var r := Loop(s, i, strip, buffer, mask);
      (st.out == InvalidCsi ==> r == Run(InvalidEscape, [], st.next)) &&
      (st.out == Returned(Eof) ==> r == Run(InputExhausted, [], st.next))
  {
    assert Loop(s, i, strip, buffer, mask) == React(s, i, Next(s, i, strip), strip, buffer, mask);
  }

  /** The loop over a sequence of logical keys, ending as `ending` says when
      the keys run out. */
  function Consume(keys: seq<char>, ending: Ending, buffer: seq<char>, mask: string): (r: Reaction)
  {
    if keys == [] then
      Reaction(if ending == Exhausted then InputExhausted else InvalidEscape, [])
    else
      match Apply(buffer, keys[0], mask)
      case Cancel => Reaction(Interrupted, [])
      case Submit => Reaction(Submitted(buffer), [Write(CRLF), Flush])
      case Edit(b, e) =>
        var rest := Consume(keys[1..], ending, b, mask);
        Reaction(rest.end, e + rest.events)
  }

  datatype Edited = Edited(buffer: seq<char>, events: seq<OutEvent>)

  /** The effect of a run of editing keys (no key in it stops the loop). */
  function Edits(keys: seq<char>, buffer: seq<char>, mask: string): (r: Edited)
    requires forall k :: 0 <= k < |keys| ==> !Stops(keys[k])
  {
    if keys == [] then Edited(buffer, [])
    else
      var e := Apply(buffer, keys[0], mask);
      assert !Stops(keys[0]);
      var rest := Edits(keys[1..], e.buffer, mask);
      Edited(rest.buffer, e.events + rest.events)
  }

  /** The text written by a run of output events. */
  function Text(events: seq<OutEvent>): (r: string)
  {
    if events == [] then ""
    else (if events[0].Write? then events[0].text else "") + Text(events[1..])
  }

  /** How many times `e` occurs in `events`. */
  function Count(events: seq<OutEvent>, e: OutEvent): (n: nat)
  {
    if events == [] then 0 else (if events[0] == e then 1 else 0) + Count(events[1..], e)
  }

  function Repeat(text: string, n: nat): (r: string)
  {
    if n == 0 then "" else text + Repeat(text, n - 1)
  }

  /** `n` echoes of the mask. */
  function MaskEchoes(mask: string, n: nat): (r: seq<OutEvent>)
  {
    if n == 0 then [] else IfMasked(mask, mask) + MaskEchoes(mask, n - 1)
  }

  // ---------------------------------------------------------------------
  // The key table

  /** ^C and ^\ interrupt. */
  lemma InterruptKeys(buffer: seq<char>, key: char, mask: string)
    requires key as int == 3 || key as int == 28
    ensures Apply(buffer, key, mask) == Cancel
  {
  }

  /** ^D, LF and CR end the read. */
  lemma SubmitKeys(buffer: seq<char>, key: char, mask: string)
    requires key as int == 4 || key as int == 10 || key as int == 13
    ensures Apply(buffer, key, mask) == Submit
  {
  }

  /** Backspace on a non-empty buffer removes exactly its last character and,
      with a mask, writes exactly one erase sequence; on an empty buffer it
      changes nothing and writes nothing. */
  lemma Backspace(buffer: seq<char>, key: char, mask: string)
    requires key as int == 8 || key as int == 127
    ensures var a := Apply(buffer, key, mask);
      a.Edit? &&
      (|buffer| > 0 ==> a.buffer + [buffer[|buffer| - 1]] == buffer &&
                         Count(a.events, Write(ERASE)) == (if mask != "" then 1 else 0) &&
                         Text(a.events) == (if mask != "" then ERASE else "")) &&
      (|buffer| == 0 ==> a.buffer == buffer && a.events == [])
  {
    var erased := [Write(ERASE), Flush];
    assert Count(erased, Write(ERASE)) == 1 + Count([Flush], Write(ERASE));
    assert Text(erased) == ERASE + Text([Flush]);
  }

  /** Any other control character leaves buffer and output alone. */
  lemma ControlIgnored(buffer: seq<char>, key: char, mask: string)
    requires 0 <= key as int <= 31 && !Stops(key) && key as int != 8
    ensures Apply(buffer, key, mask) == Edit(buffer, [])
  {
  }

  /** Any other key is appended, and the mask written once when non-empty. */
  lemma PrintableAppended(buffer: seq<char>, key: char, mask: string)
    requires Printable(key)
    ensures Apply(buffer, key, mask) == Edit(buffer + [key], IfMasked(mask, mask))
    ensures Text(Apply(buffer, key, mask).events) == mask
  {
    assert Text([Write(mask), Flush]) == mask + Text([Flush]);
  }

  // ---------------------------------------------------------------------
  // Helpers about output events

  lemma {:induction false} TextAppend(a: seq<OutEvent>, b: seq<OutEvent>)
    ensures Text(a + b) == Text(a) + Text(b)
  {
    if a != [] {
      assert (a + b)[0] == a[0] && (a + b)[1..] == a[1..] + b;
      TextAppend(a[1..], b);
    } else {
      assert a + b == b;
    }
  }

  lemma {:induction false} CountAppend(a: seq<OutEvent>, b: seq<OutEvent>, e: OutEvent)
    ensures Count(a + b, e) == Count(a, e) + Count(b, e)
  {
    if a != [] {
      assert (a + b)[0] == a[0] && (a + b)[1..] == a[1..] + b;
      CountAppend(a[1..], b, e);
    } else {
      assert a + b == b;
    }
  }

  lemma {:induction false} MaskEchoesText(mask: string, n: nat)
    ensures Text(MaskEchoes(mask, n)) == Repeat(mask, n)
  {
    if n > 0 {
      TextAppend(IfMasked(mask, mask), MaskEchoes(mask, n - 1));
      MaskEchoesText(mask, n - 1);
    }
  }

  // ---------------------------------------------------------------------
  // The loop

  /** The read loop sees exactly the keys that repeated `getchar` calls
      deliver, and fails as the call that stopped them did. */
  lemma {:induction false} LoopReadsDrainedKeys(s: seq<char>, i: nat, strip: bool, buffer: seq<char>, mask: string)
    requires i <= |s|
    ensures var d := Drain(s, i, strip);
      var r := Loop(s, i, strip, buffer, mask);
      Consume(d.keys, d.ending, buffer, mask) == Reaction(r.end, r.events)
    decreases |s| - i
  {
    var st := Next(s, i, strip);
    assert Loop(s, i, strip, buffer, mask) == React(s, i, st, strip, buffer, mask);
    if st.out.Returned? && st.out.ch.Char? {
      var d := Drain(s, st.next, strip);
      assert ([st.out.ch.c] + d.keys)[1..] == d.keys;
      var a := Apply(buffer, st.out.ch.c, mask);
      if a.Edit? {
        LoopReadsDrainedKeys(s, st.next, strip, a.buffer, mask);
      }
    }
  }

  /** A run of editing keys followed by more keys: the loop first performs
      the edits, then goes on from the edited buffer. */
  lemma {:induction false} ConsumeAfterEdits(keys: seq<char>, rest: seq<char>, ending: Ending, buffer: seq<char>, mask: string)
    requires forall k :: 0 <= k < |keys| ==> !Stops(keys[k])
    ensures var e := Edits(keys, buffer, mask);
      var c := Consume(rest, ending, e.buffer, mask);
      Consume(keys + rest, ending, buffer, mask) == Reaction(c.end, e.events + c.events)
  {
    if keys == [] {
      assert keys + rest == rest;
    } else {
      var a := Apply(buffer, keys[0], mask);
      assert !Stops(keys[0]);
      var e1 := Edits(keys[1..], a.buffer, mask);
      var c := Consume(rest, ending, e1.buffer, mask);
      ConsumeAfterEdits(keys[1..], rest, ending, a.buffer, mask);
      assert (keys + rest)[0] == keys[0];
      assert (keys + rest)[1..] == keys[1..] + rest;
      ConsumeEdit(keys + rest, ending, buffer, mask);
      assert a.events + (e1.events + c.events) == (a.events + e1.events) + c.events;
    }
  }

  /** One unfolding of Consume at an editing key. */
  lemma ConsumeEdit(keys: seq<char>, ending: Ending, buffer: seq<char>, mask: string)
    requires keys != [] && !Stops(keys[0])
    ensures var a := Apply(buffer, keys[0], mask);
      var rest := Consume(keys[1..], ending, a.buffer, mask);
      Consume(keys, ending, buffer, mask) == Reaction(rest.end, a.events + rest.events)
  {
  }

  /** With a non-empty mask (different from the erase sequence), mask writes
      minus erase writes equal the growth of the buffer after every run of
      edits. */
  lemma {:induction false} MaskBalance(keys: seq<char>, buffer: seq<char>, mask: string)
    requires forall k :: 0 <= k < |keys| ==> !Stops(keys[k])
    requires mask != "" && mask != ERASE
    ensures var e := Edits(keys, buffer, mask);
      Count(e.events, Write(mask)) - Count(e.events, Write(ERASE)) == |e.buffer| - |buffer|
  {
    if keys != [] {
      var a := Apply(buffer, keys[0], mask);
      assert !Stops(keys[0]);
      KeyBalance(buffer, keys[0], mask);
      MaskBalance(keys[1..], a.buffer, mask);
      var rest := Edits(keys[1..], a.buffer, mask);
      assert Edits(keys, buffer, mask) == Edited(rest.buffer, a.events + rest.events);
      CountAppend(a.events, rest.events, Write(mask));
      CountAppend(a.events, rest.events, Write(ERASE));
    }
  }

  /** One editing key: mask writes minus erase writes equal its change to
      the buffer's length. */
  lemma KeyBalance(buffer: seq<char>, key: char, mask: string)
    requires !Stops(key) && mask != "" && mask != ERASE
    ensures var a := Apply(buffer, key, mask);
      a.Edit? && Count(a.events, Write(mask)) - Count(a.events, Write(ERASE)) == |a.buffer| - |buffer|
  {
    var k := key as int;
    var flushed: seq<OutEvent> := [Flush];
    assert Count(flushed, Write(mask)) == 0 && Count(flushed, Write(ERASE)) == 0 by {
      assert flushed[1..] == [];
    }
    if k == 8 || k == 127 {
      if |buffer| > 0 {
        var erased := [Write(ERASE), Flush];
        assert erased[1..] == flushed;
        assert Apply(buffer, key, mask) == Edit(buffer[..|buffer| - 1], erased);
        assert Count(erased, Write(ERASE)) == 1;
        assert Count(erased, Write(mask)) == 0;
      }
    } else if !(0 <= k <= 31) {
      var masked := [Write(mask), Flush];
      assert masked[1..] == flushed;
      assert Apply(buffer, key, mask) == Edit(buffer + [key], masked);
      assert Count(masked, Write(mask)) == 1;
      assert Count(masked, Write(ERASE)) == 0;
    }
  }

  /** Control-free keys are all appended, each echoing the mask. */
  lemma {:induction false} PrintableEdits(keys: seq<char>, buffer: seq<char>, mask: string)
    requires AllPrintable(keys)
    ensures forall k :: 0 <= k < |keys| ==> !Stops(keys[k])
    ensures Edits(keys, buffer, mask) == Edited(buffer + keys, MaskEchoes(mask, |keys|))
  {
    if keys != [] {
      PrintableEdits(keys[1..], buffer + [keys[0]], mask);
      assert buffer + [keys[0]] + keys[1..] == buffer + keys;
    }
  }

  /** The buffer only ever holds printable keys, so a returned password holds
      no control character, ESC or terminator included. */
  lemma {:induction false} PasswordPrintable(keys: seq<char>, ending: Ending, buffer: seq<char>, mask: string)
    requires AllPrintable(buffer)
    ensures var r := Consume(keys, ending, buffer, mask);
      r.end.Submitted? ==> AllPrintable(r.end.password)
  {
    if keys != [] {
      match Apply(buffer, keys[0], mask)
      case Cancel =>
      case Submit =>
      case Edit(b, e) =>
        assert AllPrintable(b) by {
          if |b| == |buffer| + 1 {
            assert b == buffer + [keys[0]];
          }
        }
        PasswordPrintable(keys[1..], ending, b, mask);
        var rest := Consume(keys[1..], ending, b, mask);
        assert Consume(keys, ending, buffer, mask) == Reaction(rest.end, e + rest.events);
    }
  }

  /** ^C or ^\ after any run of edits interrupts: no password is returned,
      whatever follows. */
  lemma InterruptAfterEdits(keys: seq<char>, key: char, rest: seq<char>, ending: Ending, buffer: seq<char>, mask: string)
    requires forall k :: 0 <= k < |keys| ==> !Stops(keys[k])
    requires key as int == 3 || key as int == 28
    ensures Consume(keys + [key] + rest, ending, buffer, mask).end == Interrupted
  {
    assert keys + [key] + rest == keys + ([key] + rest);
    ConsumeAfterEdits(keys, [key] + rest, ending, buffer, mask);
  }

  /** Control-free keys and then a terminator: the keys are returned, with no
      terminator, after one mask echo per key and a CRLF. */
  lemma PlainLine(keys: seq<char>, key: char, rest: seq<char>, ending: Ending, mask: string)
    requires AllPrintable(keys)
    requires key as int == 4 || key as int == 10 || key as int == 13
    ensures var r := Consume(keys + [key] + rest, ending, [], mask);
      r == Reaction(Submitted(keys), MaskEchoes(mask, |keys|) + [Write(CRLF), Flush]) &&
      Text(r.events) == Repeat(mask, |keys|) + CRLF
  {
    PrintableEdits(keys, [], mask);
    assert keys + [key] + rest == keys + ([key] + rest);
    ConsumeAfterEdits(keys, [key] + rest, ending, [], mask);
    assert [] + keys == keys;
    TextAppend(MaskEchoes(mask, |keys|), [Write(CRLF), Flush]);
    assert Text([Write(CRLF), Flush]) == CRLF + Text([Flush]);
    MaskEchoesText(mask, |keys|);
  }

  /** End to end on the raw stream: control-free input followed by LF, CR or
      ^D reads back as itself, with or without stripping. */
  lemma PlainInput(s: seq<char>, key: char, strip: bool, mask: string)
    requires AllPrintable(s)
    requires key as int == 4 || key as int == 10 || key as int == 13
    ensures var r := Loop(s + [key], 0, strip, [], mask);
      r.end == Submitted(s) &&
      r.events == MaskEchoes(mask, |s|) + [Write(CRLF), Flush] &&
      Text(r.events) == Repeat(mask, |s|) + CRLF
  {
    var t := s + [key];
    if strip {
      DrainEscapeFree(t, 0);
    } else {
      DrainRaw(t, 0);
    }
    assert t[0..] == t;
    LoopReadsDrainedKeys(t, 0, strip, [], mask);
    PlainLine(s, key, [], Exhausted, mask);
    assert s + [key] + [] == t;
  }

  /** "mysecret" and LF with the default mask: eight dots and CRLF are
      written and "mysecret" is returned. */
  lemma MySecretExample()
    ensures var r := Loop("mysecret\n", 0, true, [], "•");
      r.end == Submitted("mysecret") && Text(r.events) == "••••••••" + CRLF
  {
    var s := "mysecret";
    assert AllPrintable(s) by {
      forall k | 0 <= k < |s| ensures Printable(s[k]) { }
    }
    assert s + ['\n'] == "mysecret\n";
    PlainInput(s, '\n', true, "•");
    EightDots();
  }

  lemma EightDots()
    ensures Repeat("•", 8) == "••••••••"
  {
    assert Repeat("•", 2) == "••";
    assert Repeat("•", 4) == "••" + "••";
    assert Repeat("•", 6) == "••" + Repeat("•", 4);
  }
}
