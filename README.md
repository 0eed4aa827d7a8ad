# getpass-dots: the Unix password reader, modelled in Dafny

getpass-dots reads a password from the terminal and echoes a mask string,
by default `•`, for each key typed. This project models the Unix backend and
the behaviour it inherits from its abstract base class. Three parts are
modelled:

- **The escape filter** (`getchar`). One call reads characters from the
  input stream and returns the next logical character. With escape stripping
  on, it drops ANSI escape sequences as ECMA-48 describes them:
  - control sequences `ESC [`, then parameter bytes 0x30–0x3F, then
    intermediate bytes 0x20–0x2F, then a final byte 0x40–0x7E (section 5.4
    of ECMA-48);
  - two-byte `ESC Fe` sequences, with Fe in 0x40–0x5F (section 5.3 of
    ECMA-48).

  A control sequence without a final byte raises ValueError. With stripping
  off, the raw stream is returned unchanged. At end of input a call returns
  `""`.
- **The line editor** (`_read_loop`). It turns logical keys into a password
  buffer and an output log:
  - ^C and ^\ raise KeyboardInterrupt;
  - ^D, LF and CR write CRLF and return the buffer;
  - BS and DEL on a non-empty buffer erase its last character and, when
    the mask is non-empty, write `"\b \b"`; on an empty buffer they change
    nothing and write nothing;
  - other control characters are ignored;
  - every other key is appended and echoes the mask.
- **The session discipline**:
  - `input_setup` chooses the streams: the caller's input, else /dev/tty,
    else stdin;
  - `disable_echo` snapshots the terminal settings, sets raw mode, and
    registers a callback on the session's exit stack that writes the
    snapshot back;
  - `__enter__`, `__exit__` and `read_input` close that stack on every way
    out. Closing it closes the /dev/tty streams it holds; writing to or
    reading from a closed stream raises ValueError, so a second
    `read_input` in a session on /dev/tty fails.

Files:

- `escape_filter.dfy` (module `EscapeFilter`) is a reference definition.
  `Next` describes one `getchar` call on a character sequence with a read
  cursor. `Drain` describes the characters that repeated calls deliver.
  Lemmas state each ECMA-48 case. Further lemmas work through inputs of
  the unit tests: the colour and arrow strings in full, the malformed
  sequence, and single keys taken from the F1–F4 and F5–F12 strings.
- `line_editor.dfy` (module `LineEditor`) is a reference definition of the
  read loop:
  - `Apply` is the key table;
  - `Loop` runs the loop over the raw stream through `Next`;
  - `Consume` runs it over a sequence of logical keys.

  Lemmas state the table row by row, the mask/erase balance, and the
  end-to-end result for plain input.
- `unix_getpass.dfy` (module `UnixGetpass`) holds the class `UnixGetpass`,
  with the fields that the source updates in place:
  - the session state: `inside_with`, the exit stack, the input handle and
    the output stream;
  - the key array with its read cursor;
  - the output log;
  - the terminal settings.

  Its methods carry the loops of the source: `getchar` with its inner
  parameter and intermediate loops, `_read_loop`, and the closing of the
  exit stack. Each method is proved against the reference functions: for
  example, `GetChar` ends in the state `Next` describes, and `ReadLoop`
  produces the run `Loop` describes.

The operating system is a parameter. An `Env` value records five answers:
- whether the input is a TTY;
- whether /dev/tty opens;
- whether stdin is a TTY;
- whether `tcgetattr` succeeds;
- whether `tty.setraw` succeeds.

The keys that will arrive are an array given to the session at creation. The
terminal is a value holding its other attributes and a raw flag.

One discrepancy between the code and its tests is resolved in favour of the
code. The unit test at tests/getpass_dots/test_unix_getpass.py:44-48 expects
the F1–F4 keys (`ESC O P` … `ESC O S`) to be removed entirely. The code at
getpass_dots/unix_getpass.py:126-130 treats `ESC O` as a complete two-byte
sequence, so the `P` after it is delivered as an ordinary character. The
model follows the code (`EscapeFilter.Ss3Example`).

## Model

| member | source | states |
|---|---|---|
| EscapeFilter.ParameterEnd | getpass_dots/unix_getpass.py:110-112 | the skipped run is maximal: every character in it is a parameter byte 0x30–0x3F, and the character that stops it (if any) is not |
| EscapeFilter.IntermediateEnd | getpass_dots/unix_getpass.py:114-116 | the skipped run is maximal: every character in it is an intermediate byte 0x20–0x2F, and the character that stops it (if any) is not |
| EscapeFilter.Next | getpass_dots/unix_getpass.py:74-137 | one call never moves the cursor back or past the end; a returned character advances the cursor; `""` is returned only at end of input; with stripping on ESC is never returned; with stripping off the call never raises |
| EscapeFilter.Drain | tests/getpass_dots/test_unix_getpass.py:78-82 | repeated calls deliver no more characters than remain; without stripping they always stop at `""`, never on an error |
| EscapeFilter.PassThrough | getpass_dots/unix_getpass.py:83-97 | with stripping off, or on any character but ESC, the call returns exactly the next raw character and advances by one |
| EscapeFilter.ControlSequenceSkipped | getpass_dots/unix_getpass.py:103-121 | `ESC [`, parameter bytes, intermediate bytes and a final byte are consumed whole; the call continues as if it had started after the final byte |
| EscapeFilter.ControlSequenceMalformed | getpass_dots/unix_getpass.py:118-124 | when the character after the maximal parameter and intermediate runs is not a final byte, or input ends there, the call raises |
| EscapeFilter.ControlSequenceStep | getpass_dots/unix_getpass.py:103-124 | after `ESC [`: a final byte at the end of the runs makes the call continue after it; anything else makes it raise, with the cursor just past the offending character (or at the end) |
| EscapeFilter.FeSequenceSkipped | getpass_dots/unix_getpass.py:126-130 | `ESC` and a byte in 0x40–0x5F other than `[` consume exactly those two characters; the next one is classified afresh |
| EscapeFilter.LoneEscapeDropped | getpass_dots/unix_getpass.py:132-135 | ESC before any other character drops only the ESC and reclassifies that character; ESC at end of input yields `""` |
| EscapeFilter.DrainRaw | tests/getpass_dots/test_unix_getpass.py:104-121 | without stripping, repeated calls reproduce the remaining input verbatim and stop at `""` |
| EscapeFilter.DrainEscapeFree | tests/getpass_dots/test_unix_getpass.py:34-36 | with stripping on, input without ESC is delivered unchanged, C0 controls included |
| EscapeFilter.DrainNeverEscape | getpass_dots/unix_getpass.py:96-97 | with stripping on, no delivered character is ESC |
| EscapeFilter.DrainSkipsControlSequence | getpass_dots/unix_getpass.py:103-121 | a complete control sequence contributes nothing to what repeated calls deliver |
| EscapeFilter.DrainSkipsFeSequence | getpass_dots/unix_getpass.py:126-130 | an `ESC Fe` pair other than `ESC [` contributes nothing to what repeated calls deliver |
| EscapeFilter.DrainDeliversChar | getpass_dots/unix_getpass.py:87-97 | a character that is not ESC (or any character without stripping) is delivered first, followed by the rest |
| EscapeFilter.ColourExample | tests/getpass_dots/test_unix_getpass.py:35 | `"c: ESC[34;1mblue ESC[m"` delivers `c: blue` and ends at `""` |
| EscapeFilter.ArrowsExample | tests/getpass_dots/test_unix_getpass.py:37 | four arrow-key sequences between `foo` and `bar` deliver `foobar` |
| EscapeFilter.MalformedExample | tests/getpass_dots/test_unix_getpass.py:39-43 | `"foo ESC [ \x80 bar"` delivers `f`, `o`, `o` and then the call raises |
| EscapeFilter.DoubleEscapeExample | getpass_dots/unix_getpass.py:132-135 | `ESC ESC [ A x` delivers only `x` |
| EscapeFilter.Ss3Example | getpass_dots/unix_getpass.py:126-130 | `ESC O P` delivers `P`: the code drops `ESC O` and keeps the character after it |
| EscapeFilter.FunctionKeyExample | tests/getpass_dots/test_unix_getpass.py:49-53 | the F5 sequence `ESC [ 1 5 ~` contributes nothing |
| LineEditor.Loop | getpass_dots/abstract_getpass.py:84-128 | the read loop only moves the read cursor forward and never past the end of the stream |
| LineEditor.React | getpass_dots/abstract_getpass.py:87-128 | reacting to a call never moves the cursor back from where the call left it |
| LineEditor.LoopTurn | getpass_dots/abstract_getpass.py:86-128 | after a call returns a key: an interrupt key ends with no output; a terminator ends with CRLF and the buffer; an editing key writes its echo and the loop continues from the edited buffer at the new cursor |
| LineEditor.LoopStops | getpass_dots/abstract_getpass.py:87 | a call that returns `""` or raises ends the loop with no further output, as a failure |
| LineEditor.InterruptKeys | getpass_dots/abstract_getpass.py:89-92 | keys 3 and 28 interrupt |
| LineEditor.SubmitKeys | getpass_dots/abstract_getpass.py:94-100 | keys 4, 10 and 13 submit |
| LineEditor.Backspace | getpass_dots/abstract_getpass.py:102-113 | on a non-empty buffer, keys 8 and 127 remove exactly the last character and, with a non-empty mask, write exactly one `"\b \b"` (nothing with an empty mask); on an empty buffer they change nothing and write nothing |
| LineEditor.ControlIgnored | getpass_dots/abstract_getpass.py:115-118 | any other key in 0–31 leaves the buffer and the output alone |
| LineEditor.PrintableAppended | getpass_dots/abstract_getpass.py:120-128 | any key of 32 or more other than 127 is appended, and the mask is written once when it is non-empty |
| LineEditor.KeyBalance | getpass_dots/abstract_getpass.py:102-128 | for one editing key with a non-empty mask other than `"\b \b"`, mask writes minus erase writes equal the change in buffer length |
| LineEditor.LoopReadsDrainedKeys | getpass_dots/abstract_getpass.py:86-87 | the loop over the raw stream sees exactly the keys that repeated `getchar` calls deliver, and it fails the way the call that stopped them did |
| LineEditor.ConsumeAfterEdits | getpass_dots/abstract_getpass.py:86-128 | a run of editing keys followed by more keys: the loop performs the edits, writes their echoes, then continues from the edited buffer |
| LineEditor.MaskBalance | getpass_dots/abstract_getpass.py:102-128 | with a non-empty mask, mask writes minus erase writes equal the growth of the buffer after any run of edits |
| LineEditor.PrintableEdits | getpass_dots/abstract_getpass.py:120-128 | control-free keys are all appended, each echoing the mask once |
| LineEditor.PasswordPrintable | getpass_dots/abstract_getpass.py:94-128 | a returned password contains no control character: no terminator, no ESC, no DEL |
| LineEditor.InterruptAfterEdits | getpass_dots/abstract_getpass.py:89-92 | ^C or ^\ after any run of edits interrupts, whatever follows; no password is returned |
| LineEditor.PlainLine | getpass_dots/abstract_getpass.py:94-128 | control-free keys and then ^D, LF or CR return exactly those keys, after one mask echo per key and a CRLF |
| LineEditor.PlainInput | getpass_dots/abstract_getpass.py:76-128 | on the raw stream, with or without stripping: control-free input followed by a terminator is returned as itself, and the output is the mask repeated once per character followed by CRLF |
| LineEditor.MySecretExample | tests/getpass_dots/test_askpass_pexpect.py:22-34 | `mysecret` and LF with the default mask write eight dots and CRLF and return `mysecret` |
| UnixGetpass.RestoreRunsFirst | getpass_dots/unix_getpass.py:30-72 | the restore callback is registered after the /dev/tty contexts, so on close it runs first, then the text stream and then the file are closed; those two are the only streams the close closes |
| UnixGetpass.UnixGetpass.constructor | getpass_dots/abstract_getpass.py:15-24 | stores input, output and the stripping flag; the session starts outside `with` |
| UnixGetpass.UnixGetpass.CloseStack | getpass_dots/abstract_getpass.py:36-43 | `ExitStack.close` runs the registered actions last-registered first and empties the stack, so a second close runs nothing; the streams it closes are exactly those its entries name; afterwards the terminal has the settings found at entry |
| UnixGetpass.UnixGetpass.DisableEcho | getpass_dots/unix_getpass.py:54-72 | the snapshot is taken before raw mode is set; the callback restoring that snapshot is registered only once raw mode is on; a failed `tcgetattr` or `setraw` changes neither the terminal nor the stack |
| UnixGetpass.UnixGetpass.InputSetup | getpass_dots/unix_getpass.py:12-52 | a non-TTY caller input, or no /dev/tty and a non-TTY stdin, fails with NoTTYError before any change to the terminal; the input is the caller's stream, else /dev/tty, else stdin; the output is the caller's stream, else /dev/tty when it opened, else stderr; the stack holds the /dev/tty contexts and then the restore callback; each opening of /dev/tty yields new streams, and nothing is closed |
| UnixGetpass.UnixGetpass.Enter | getpass_dots/abstract_getpass.py:26-34 | the session is marked inside `with`; on success the terminal is raw and the restore callback is pending; on failure the stack is closed, exactly the entered /dev/tty streams are closed, the terminal is unchanged and the error is passed on |
| UnixGetpass.UnixGetpass.Exit | getpass_dots/abstract_getpass.py:36-43 | the session leaves `with`, the stack is closed, the streams it held are closed, and the terminal has its entry settings again |
| UnixGetpass.UnixGetpass.Getch | getpass_dots/unix_getpass.py:79-81 | `read(1)` returns the character at the cursor and advances, or returns `""` at the end without moving |
| UnixGetpass.UnixGetpass.SkipParameters | getpass_dots/unix_getpass.py:110-112 | the loop stops at the end of the maximal parameter run, holding the character after it |
| UnixGetpass.UnixGetpass.SkipIntermediates | getpass_dots/unix_getpass.py:114-116 | the loop stops at the end of the maximal intermediate run, holding the character after it |
| UnixGetpass.UnixGetpass.SkipControlSequence | getpass_dots/unix_getpass.py:103-124 | after `ESC [`: with a final byte, `getchar` continues from the new cursor; without one it raises with the cursor `Next` gives |
| UnixGetpass.UnixGetpass.GetChar | getpass_dots/unix_getpass.py:74-137 | `getchar` returns or raises what `Next` says and leaves the cursor where `Next` says |
| UnixGetpass.UnixGetpass.PrintPrompt | getpass_dots/abstract_getpass.py:60-62 | on an open output the prompt is written, then flushed, and the read cursor at that moment is recorded; on a closed one it raises ValueError and writes nothing |
| UnixGetpass.UnixGetpass.EditBuffer | getpass_dots/abstract_getpass.py:102-128 | the backspace, ignore and append branches leave the buffer and write the output that the key table gives |
| UnixGetpass.UnixGetpass.Turn | getpass_dots/abstract_getpass.py:86-128 | one pass of the loop body either ends the loop as `Loop` does, or advances the cursor and leaves a remaining run that, prefixed with this pass's echo, equals the run before the pass |
| UnixGetpass.UnixGetpass.ReadLoop | getpass_dots/abstract_getpass.py:76-128 | `_read_loop` ends as `Loop` says, writes exactly the run's output, and leaves the cursor where the run stops |
| UnixGetpass.UnixGetpass.ReadInput | getpass_dots/abstract_getpass.py:64-74 | outside `with` it raises ValueError and writes nothing; a closed output raises ValueError before anything is written or closed; otherwise it writes the prompt once, with the read cursor still where the call found it, so before any key is read; it closes the stack on every path (restoring the terminal and closing the streams it held), and returns the password or the exception of the loop's end, or ValueError when the input is closed |
| UnixGetpass.UnixGetpass.ReadAndExit | getpass_dots/__init__.py:57-58 | the body of the `with` block of `getpass_dots` followed by `__exit__`: the prompt is written before any key is read; the result, the output and the final read cursor are the read loop's; every pending cleanup runs once, exactly the streams the stack held are closed, and the terminal has its entry settings |
| UnixGetpass.GetpassDots | getpass_dots/__init__.py:57-58 | the terminal ends with the settings it had, whatever happens; every registered cleanup runs exactly once, last registered first; a setup failure is passed on and nothing is written; otherwise the result is the read loop's, and the output is the prompt, a flush and the loop's own output |
| UnixGetpass.ReadTwice | getpass_dots/abstract_getpass.py:64-74 | on /dev/tty, a first `read_input` returns what the read loop gives and closes /dev/tty, which is also the output, so a second `read_input` in the same session raises ValueError |

## Left out

- Real terminal and operating-system calls are not modelled: `tcgetattr`, `tcsetattr`, `tty.setraw`, `os.open("/dev/tty")`, `io.FileIO`, `TextIOWrapper`, `isatty` and `fileno`. Their answers are the fields of `Env`, the terminal is one abstract value, and file descriptors are not tracked.
- Opening /dev/tty is all or nothing: a failure of `io.FileIO` or `TextIOWrapper` after `os.open` succeeded, and the file descriptor it would leak, are not modelled. The `stack.close()` on that path closes the still-empty stack.
- The TCSAFLUSH and TCSASOFT flags, and the discarding of unread input they cause, are not modelled.
- A failed `tty.setraw` is assumed to leave the terminal settings unchanged.
- All handles read the same key array. The model does not tell apart which stream the keys come from.
- Signals and concurrency are not modelled: ^C reaches the model only as character 3 on the stream.
- End of input in the read loop is a generic failure (`InputExhausted`, surfaced as `EndOfInput`). The code actually fails with the TypeError of `ord("")`, not with the EOFError that the doc comment of `getpass_dots` names.
- Streams are closed only by the session's exit stack. A stream that the caller closes outside the session is not modelled.
- The default arguments `prompt="Password: "` and `mask="•"` of `read_input` and `getpass_dots` are not modelled: `ReadInput`, `ReadAndExit` and `GetpassDots` take both as required parameters.
- A stream attribute that setup never assigned (`output` or `input_handle`) is modelled as a single `MissingAttribute` error, standing in for Python's AttributeError.
- Characters are Dafny `char` values. Unicode width and grapheme questions are not modelled, and the mask is an arbitrary string.
- getpass_dots/windows_getpass.py, the command line of getpass_dots/askpass.py, and the platform dispatch in getpass_dots/__init__.py are not part of this model.
- UnixGetpass.UnixGetpass.InputSetup: requires an empty exit stack, since its only caller, `__enter__`, has just created a fresh one.
- LineEditor.KeyBalance: assumes the mask is different from `"\b \b"`, for the same reason as MaskBalance.
- LineEditor.MaskBalance: assumes the mask is different from `"\b \b"`, because otherwise mask writes and erase writes cannot be told apart.
- EscapeFilter.Ss3Example: states the code's behaviour for `ESC O P`, not the unit test's expectation that F1–F4 are removed entirely.
