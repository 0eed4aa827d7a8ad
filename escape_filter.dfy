/** A reference definition of the Unix backend's `getchar`: what one call
    returns from a character stream with a read cursor, and what repeated
    calls deliver.  With stripping on, ANSI escape sequences are removed as
    ECMA-48 describes them: control sequences `ESC [ P* I* F` (section 5.4
    of ECMA-48) and two-byte `ESC Fe` sequences (section 5.3 of ECMA-48).
 */
module EscapeFilter {

  const ESC: char := 27 as char

  /** Parameter bytes of a control sequence, 0x30-0x3F. */
  predicate IsParameter(c: char) { 0x30 <= c as int <= 0x3F }

  /** Intermediate bytes of a control sequence, 0x20-0x2F. */
  predicate IsIntermediate(c: char) { 0x20 <= c as int <= 0x2F }

  /** Final byte of a control sequence, 0x40-0x7E. */
  predicate IsFinal(c: char) { 0x40 <= c as int <= 0x7E }

  /** Second byte of a two-byte C1 escape sequence, 0x40-0x5F. */
  predicate IsFe(c: char) { 0x40 <= c as int <= 0x5F }

  /** What one `read(1)` of the input yields: a character, or "" at end of input. */
  datatype Read = Char(c: char) | Eof

  /** A call of `getchar` returns a string (one character, or "") or raises
      ValueError on a malformed control sequence. */
  datatype Outcome = Returned(ch: Read) | InvalidCsi

  /** The outcome of one call and the read cursor after it. */
  datatype Step = Step(out: Outcome, next: nat)

  /** End of the run of parameter bytes starting at `j`. */
  function ParameterEnd(s: seq<char>, j: nat): (k: nat)
    requires j <= |s|
    ensures j <= k <= |s|
    ensures forall t :: j <= t < k ==> IsParameter(s[t])
    ensures k < |s| ==> !IsParameter(s[k])
    decreases |s| - j
  {
    if j < |s| && IsParameter(s[j]) then ParameterEnd(s, j + 1) else j
  }

  /** End of the run of intermediate bytes starting at `j`. */
  function IntermediateEnd(s: seq<char>, j: nat): (k: nat)
    requires j <= |s|
    ensures j <= k <= |s|
    ensures forall t :: j <= t < k ==> IsIntermediate(s[t])
    ensures k < |s| ==> !IsIntermediate(s[k])
    decreases |s| - j
  {
    if j < |s| && IsIntermediate(s[j]) then IntermediateEnd(s, j + 1) else j
  }

  /** One call of `getchar` with the cursor at `i`.  A returned character
      advances the cursor; "" is returned only at end of input; with
      stripping on, ESC is never returned; with stripping off, nothing raises. */
  function Next(s: seq<char>, i: nat, strip: bool): (r: Step)
    requires i <= |s|
    ensures i <= r.next <= |s|
    ensures r.out.Returned? && r.out.ch.Char? ==> i < r.next
    ensures r.out == Returned(Eof) ==> r.next == |s|
    ensures strip && r.out.Returned? ==> r.out.ch != Char(ESC)
    ensures !strip ==> r.out.Returned?
    decreases |s| - i
  {
    if i == |s| then Step(Returned(Eof), i)
    else if !strip || s[i] != ESC then Step(Returned(Char(s[i])), i + 1)
    else if i + 1 < |s| && s[i + 1] == '[' then
      var j := IntermediateEnd(s, ParameterEnd(s, i + 2));
      if j < |s| && IsFinal(s[j]) then Next(s, j + 1, strip)
      else Step(InvalidCsi, if j < |s| then j + 1 else j)
    else if i + 1 < |s| && IsFe(s[i + 1]) then Next(s, i + 2, strip)
    else Next(s, i + 1, strip)
  }

  /** How a run of repeated calls stopped: "" was returned, or a call raised. */
  datatype Ending = Exhausted | Malformed

  datatype Drained = Drained(keys: seq<char>, ending: Ending)

  /** The characters repeated calls return from cursor `i` until one returns
      "" or raises (the loop `while res := gp.getchar()` of the tests). */
  function Drain(s: seq<char>, i: nat, strip: bool): (d: Drained)
    requires i <= |s|
    ensures |d.keys| <= |s| - i
    ensures !strip ==> d.ending == Exhausted
    decreases |s| - i
  {
    var st := Next(s, i, strip);
    match st.out
    case Returned(Eof) => Drained([], Exhausted)
    case InvalidCsi => Drained([], Malformed)
    case Returned(Char(c)) =>
      var rest := Drain(s, st.next, strip);
      Drained([c] + rest.keys, rest.ending)
  }

  // ---------------------------------------------------------------------
  // One call

  /** Without stripping, or on any character but ESC, the call returns
      exactly the next raw character. */
  lemma PassThrough(s: seq<char>, i: nat, strip: bool)
    requires i < |s| && (!strip || s[i] != ESC)
    ensures Next(s, i, strip) == Step(Returned(Char(s[i])), i + 1)
  {
  }

  /** A complete control sequence `ESC [`, parameter bytes in [i+2, p),
      intermediate bytes in [p, q) and a final byte at q, is consumed whole:
      the call goes on as if it started after the final byte. */
  lemma ControlSequenceSkipped(s: seq<char>, i: nat, p: nat, q: nat)
    requires i + 2 <= p <= q < |s|
    requires s[i] == ESC && s[i + 1] == '['
    requires forall t :: i + 2 <= t < p ==> IsParameter(s[t])
    requires forall t :: p <= t < q ==> IsIntermediate(s[t])
    requires IsFinal(s[q])
    ensures Next(s, i, true) == Next(s, q + 1, true)
  {
  }

  /** `ESC [`, the maximal runs of parameter bytes [i+2, p) and intermediate
      bytes [p, q), and then no final byte (or end of input): the call raises. */
  lemma ControlSequenceMalformed(s: seq<char>, i: nat, p: nat, q: nat)
    requires i + 2 <= p <= q <= |s|
    requires s[i] == ESC && s[i + 1] == '['
    requires forall t :: i + 2 <= t < p ==> IsParameter(s[t])
    requires p < |s| ==> !IsParameter(s[p])
    requires forall t :: p <= t < q ==> IsIntermediate(s[t])
    requires q < |s| ==> !IsIntermediate(s[q]) && !IsFinal(s[q])
    ensures Next(s, i, true).out == InvalidCsi
  {
  }

  /** `ESC [` with the runs of parameter and intermediate bytes ending at
      `j`: a final byte at `j` makes the call go on after it, anything else
      makes it raise with the cursor just past the offending character. */
  lemma ControlSequenceStep(s: seq<char>, i: nat, j: nat)
    requires i + 1 < |s| && s[i] == ESC && s[i + 1] == '['
    requires j == IntermediateEnd(s, ParameterEnd(s, i + 2))
    ensures j < |s| && IsFinal(s[j]) ==> Next(s, i, true) == Next(s, j + 1, true)
    ensures !(j < |s| && IsFinal(s[j])) ==> Next(s, i, true) == Step(InvalidCsi, if j < |s| then j + 1 else j)
  {
  }

  /** `ESC Fe` other than `ESC [` consumes exactly those two characters; the
      one after them is classified afresh. */
  lemma FeSequenceSkipped(s: seq<char>, i: nat)
    requires i + 1 < |s| && s[i] == ESC && IsFe(s[i + 1]) && s[i + 1] != '['
    ensures Next(s, i, true) == Next(s, i + 2, true)
  {
  }

  /** ESC followed by anything else drops only the ESC; ESC at end of input
      yields "". */
  lemma LoneEscapeDropped(s: seq<char>, i: nat)
    requires i < |s| && s[i] == ESC && (i + 1 == |s| || !IsFe(s[i + 1]))
    ensures Next(s, i, true) == Next(s, i + 1, true)
    ensures i + 1 == |s| ==> Next(s, i, true) == Step(Returned(Eof), |s|)
  {
  }

  // ---------------------------------------------------------------------
  // Repeated calls

  /** Without stripping, repeated calls reproduce the input verbatim. */
  lemma {:induction false} DrainRaw(s: seq<char>, i: nat)
    requires i <= |s|
    ensures Drain(s, i, false) == Drained(s[i..], Exhausted)
    decreases |s| - i
  {
    if i < |s| {
      DrainRaw(s, i + 1);
      assert s[i..] == [s[i]] + s[i + 1..];
    }
  }

  /** With stripping on, input without ESC is delivered unchanged, control
      characters included. */
  lemma {:induction false} DrainEscapeFree(s: seq<char>, i: nat)
    requires i <= |s|
    requires forall t :: i <= t < |s| ==> s[t] != ESC
    ensures Drain(s, i, true) == Drained(s[i..], Exhausted)
    decreases |s| - i
  {
    if i < |s| {
      DrainEscapeFree(s, i + 1);
      assert s[i..] == [s[i]] + s[i + 1..];
    }
  }

  /** With stripping on, no delivered character is ESC. */
  lemma {:induction false} DrainNeverEscape(s: seq<char>, i: nat)
    requires i <= |s|
    ensures forall k :: 0 <= k < |Drain(s, i, true).keys| ==> Drain(s, i, true).keys[k] != ESC
    decreases |s| - i
  {
    var st := Next(s, i, true);
    if st.out.Returned? && st.out.ch.Char? {
      DrainNeverEscape(s, st.next);
    }
  }

  /** A complete control sequence contributes nothing to what repeated calls
      deliver. */
  lemma DrainSkipsControlSequence(s: seq<char>, i: nat, p: nat, q: nat)
    requires i + 2 <= p <= q < |s|
    requires s[i] == ESC && s[i + 1] == '['
    requires forall t :: i + 2 <= t < p ==> IsParameter(s[t])
    requires forall t :: p <= t < q ==> IsIntermediate(s[t])
    requires IsFinal(s[q])
    ensures Drain(s, i, true) == Drain(s, q + 1, true)
  {
    ControlSequenceSkipped(s, i, p, q);
  }

  /** With stripping off, or on a character other than ESC, the next
      delivered character is exactly the next raw one. */
  lemma DrainDeliversChar(s: seq<char>, i: nat, strip: bool)
    requires i < |s| && (!strip || s[i] != ESC)
    ensures Drain(s, i, strip) == Drained([s[i]] + Drain(s, i + 1, strip).keys, Drain(s, i + 1, strip).ending)
  {
  }

  /** An `ESC Fe` pair other than `ESC [` contributes nothing to what
      repeated calls deliver. */
  lemma DrainSkipsFeSequence(s: seq<char>, i: nat)
    requires i + 1 < |s| && s[i] == ESC && IsFe(s[i + 1]) && s[i + 1] != '['
    ensures Drain(s, i, true) == Drain(s, i + 2, true)
  {
    FeSequenceSkipped(s, i);
  }

  // ---------------------------------------------------------------------
  // Inputs of the unit tests of getchar

  /** "c: ESC[34;1mblue ESC[m" delivers "c: blue". */
  lemma ColourExample(s: seq<char>)
    requires s == "c: \U{1B}[34;1mblue\U{1B}[m"
    ensures Drain(s, 0, true) == Drained("c: blue", Exhausted)
  {
    ColourExampleMiddle(s);
    DrainDeliversChar(s, 2, true);
    DrainDeliversChar(s, 1, true);
    DrainDeliversChar(s, 0, true);
  }

  lemma ColourExampleMiddle(s: seq<char>)
    requires s == "c: \U{1B}[34;1mblue\U{1B}[m"
    ensures Drain(s, 3, true) == Drained("blue", Exhausted)
  {
    ColourExampleTail(s);
    DrainSkipsControlSequence(s, 3, 9, 9);
  }

  lemma ColourExampleTail(s: seq<char>)
    requires s == "c: \U{1B}[34;1mblue\U{1B}[m"
    ensures Drain(s, 10, true) == Drained("blue", Exhausted)
  {
    DrainSkipsControlSequence(s, 14, 16, 16);
    assert Drain(s, 17, true) == Drained([], Exhausted);
    DrainDeliversChar(s, 13, true);
    DrainDeliversChar(s, 12, true);
    DrainDeliversChar(s, 11, true);
    DrainDeliversChar(s, 10, true);
  }

  /** "foo ESC [ 0x80 bar" delivers "foo", then the next call raises. */
  lemma MalformedExample(s: seq<char>)
    requires s == "foo\U{1B}[\U{80}bar"
    ensures Drain(s, 0, true) == Drained("foo", Malformed)
  {
    ControlSequenceMalformed(s, 3, 5, 5);
    DrainDeliversChar(s, 2, true);
    DrainDeliversChar(s, 1, true);
    DrainDeliversChar(s, 0, true);
  }

  /** Four arrow keys between "foo" and "bar" deliver "foobar". */
  lemma ArrowsExample(s: seq<char>)
    requires s == "foo\U{1B}[A\U{1B}[B\U{1B}[D\U{1B}[Dbar"
    ensures Drain(s, 0, true) == Drained("foobar", Exhausted)
  {
    ArrowsExampleMiddle(s);
    DrainDeliversChar(s, 2, true);
    DrainDeliversChar(s, 1, true);
    DrainDeliversChar(s, 0, true);
  }

  lemma ArrowsExampleMiddle(s: seq<char>)
    requires s == "foo\U{1B}[A\U{1B}[B\U{1B}[D\U{1B}[Dbar"
    ensures Drain(s, 3, true) == Drained("bar", Exhausted)
  {
    ArrowsExampleSecond(s);
    DrainSkipsControlSequence(s, 3, 5, 5);
  }

  lemma ArrowsExampleSecond(s: seq<char>)
    requires s == "foo\U{1B}[A\U{1B}[B\U{1B}[D\U{1B}[Dbar"
    ensures Drain(s, 6, true) == Drained("bar", Exhausted)
  {
    ArrowsExampleTail(s);
    DrainSkipsControlSequence(s, 6, 8, 8);
  }

  lemma ArrowsExampleTail(s: seq<char>)
    requires s == "foo\U{1B}[A\U{1B}[B\U{1B}[D\U{1B}[Dbar"
    ensures Drain(s, 9, true) == Drained("bar", Exhausted)
  {
    ArrowsExampleEnd(s);
    DrainSkipsControlSequence(s, 9, 11, 11);
  }

  lemma ArrowsExampleEnd(s: seq<char>)
    requires s == "foo\U{1B}[A\U{1B}[B\U{1B}[D\U{1B}[Dbar"
    ensures Drain(s, 12, true) == Drained("bar", Exhausted)
  {
    DrainEscapeFree(s, 15);
    assert s[15..] == "bar";
    DrainSkipsControlSequence(s, 12, 14, 14);
  }

  /** "ESC ESC [ A x" delivers "x": the first ESC is dropped alone. */
  lemma DoubleEscapeExample(s: seq<char>)
    requires s == "\U{1B}\U{1B}[Ax"
    ensures Drain(s, 0, true) == Drained("x", Exhausted)
  {
    LoneEscapeDropped(s, 0);
    DrainSkipsControlSequence(s, 1, 3, 3);
    DrainDeliversChar(s, 4, true);
  }

  /** The SS3 key F1, "ESC O P", delivers "P": `ESC O` is a two-byte
      sequence and the P after it is an ordinary character. */
  lemma Ss3Example(s: seq<char>)
    requires s == "\U{1B}OP"
    ensures Drain(s, 0, true) == Drained("P", Exhausted)
  {
    FeSequenceSkipped(s, 0);
    DrainDeliversChar(s, 2, true);
  }

  /** The key F5, "ESC [ 1 5 ~", contributes nothing. */
  lemma FunctionKeyExample(s: seq<char>)
    requires s == "\U{1B}[15~."
    ensures Drain(s, 0, true) == Drained(".", Exhausted)
  {
    DrainSkipsControlSequence(s, 0, 4, 4);
    DrainDeliversChar(s, 5, true);
  }
}
