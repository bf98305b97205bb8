/** Tap alphabets: how taps and silences become the digits of a sequence. */
module GestureInput {

  const SEQ_MAX_LEN := 16
  const DIGIT_INVALID := 0xFF

  datatype Alphabet = CountColor(palette: nat) | StdtBinary | StdtPlain

  type Digits = seq<nat>

  // The fixed sequences of each alphabet.

  function UnlockDefault(a: Alphabet): (r: Digits)
    ensures 0 < |r| <= SEQ_MAX_LEN
  {
    match a case CountColor(_) => [1, 1, 1, 1] case StdtBinary => [0, 0, 0, 0] case StdtPlain => [1, 2, 1, 2]
  }

  function LockSeq(a: Alphabet): (r: Digits)
  {
    match a case CountColor(_) => [1] case StdtBinary => [0] case StdtPlain => [1]
  }

  function PairingTrigger(a: Alphabet): (r: Digits)
  {
    match a case CountColor(_) => [2, 2] case StdtBinary => [1, 1] case StdtPlain => [2, 2, 1, 1]
  }

  function ChangeTrigger(a: Alphabet): (r: Digits)
  {
    match a case CountColor(_) => [3, 3, 3] case StdtBinary => [2, 2, 2] case StdtPlain => [2, 1, 2, 1]
  }

  function ConfirmSeq(a: Alphabet): (r: Digits)
  {
    match a case CountColor(_) => [3, 3, 3] case StdtBinary => [3, 3, 3] case StdtPlain => [2, 2, 2]
  }

  predicate HasInvalid(d: Digits)
  {
    exists i :: 0 <= i < |d| && d[i] == DIGIT_INVALID
  }

  /** seq_has_invalid. */
  method SeqHasInvalid(d: Digits) returns (r: bool)
    ensures r == HasInvalid(d)
  {
    for i := 0 to |d|
      invariant forall j :: 0 <= j < i ==> d[j] != DIGIT_INVALID
    {
      if d[i] == DIGIT_INVALID {
        return true;
      }
    }
    return false;
  }

  // -------------------------------------------------------------- accumulator

  /** digit_buf, cur_taps, silence_phase and bit_buf. */
  datatype Acc = Acc(digits: Digits, cur: nat, phase: nat, bits: seq<nat>)

  const EMPTY := Acc([], 0, 0, [])

  /** One tap of gesture_report_tap. */
  function AddTap(a: Alphabet, x: Acc, double: bool): (r: Acc)
  {
    match a
    case CountColor(_) =>
      var inc := if double then 2 else 1;
      x.(cur := if x.cur + inc <= 0xFF then x.cur + inc else x.cur, phase := 1)
    case StdtBinary =>
      if |x.bits| < SEQ_MAX_LEN * 3 then x.(bits := x.bits + [if double then 1 else 0]) else x
    case StdtPlain =>
      if |x.digits| < SEQ_MAX_LEN then x.(digits := x.digits + [if double then 2 else 1]) else x
  }

  /** close_digit_locked, then waiting for the sequence to close. */
  function CloseDigit(palette: nat, x: Acc): (r: Acc)
  {
    if x.cur == 0 || |x.digits| >= SEQ_MAX_LEN then x.(cur := 0, phase := 2)
    else x.(digits := x.digits + [if x.cur > palette then DIGIT_INVALID else x.cur], cur := 0, phase := 2)
  }

  function Code(b0: nat, b1: nat, b2: nat): (d: nat)
  {
    var code := b0 * 4 + b1 * 2 + b2;
    if code == 7 then DIGIT_INVALID else code
  }

  /** Triplets of bits as digits; an incomplete triplet is invalid. */
  function Triplets(bits: seq<nat>): (d: Digits)
  {
    if bits == [] then [] else if |bits| < 3 then [DIGIT_INVALID]
    else [Code(bits[0], bits[1], bits[2])] + Triplets(bits[3..])
  }

  lemma {:induction false} TripletsLength(bits: seq<nat>)
    ensures |Triplets(bits)| == (|bits| + 2) / 3
  {
    if |bits| >= 3 {
      TripletsLength(bits[3..]);
    }
  }

  /** Three bits make a digit, the first of them the highest; 7 is no digit, and neither is a rest of one or two bits. */
  lemma {:induction false} TripletsExact(bits: seq<nat>, i: nat)
    requires i < |Triplets(bits)|
    ensures |Triplets(bits)| == (|bits| + 2) / 3
    ensures if 3 * i + 3 > |bits| then Triplets(bits)[i] == 0xFF
            else Triplets(bits)[i] == if bits[3 * i] * 4 + bits[3 * i + 1] * 2 + bits[3 * i + 2] == 7 then 0xFF
                                      else bits[3 * i] * 4 + bits[3 * i + 1] * 2 + bits[3 * i + 2]
  {
    TripletsLength(bits);
    if |bits| >= 3 && i > 0 {
      TripletsExact(bits[3..], i - 1);
    }
  }

  /** close_sequence_binary_locked: the loop over complete triplets, then the leftover. */
  method CloseBinary(bits: seq<nat>) returns (d: Digits)
    requires |bits| <= SEQ_MAX_LEN * 3
    ensures d == Triplets(bits) && |d| <= SEQ_MAX_LEN
  {
    d := [];
    var triples := |bits| / 3;
    var leftover := |bits| - triples * 3;
    assert bits[0..] == bits;
    for i := 0 to triples
      invariant |d| == i && Triplets(bits) == d + Triplets(bits[i * 3..])
    {
      var t := bits[i * 3..];
      assert t[3..] == bits[(i + 1) * 3..];
      assert Triplets(t) == [Code(t[0], t[1], t[2])] + Triplets(t[3..]);
      d := d + [Code(bits[i * 3], bits[i * 3 + 1], bits[i * 3 + 2])];
    }
    if leftover > 0 && |d| < SEQ_MAX_LEN {
      d := d + [DIGIT_INVALID];
    }
  }

  // ------------------------------------------------- what the digits stand for

  /** What the user did, in order: taps, and pauses long enough to end a digit. */
  datatype Input = Tap(at: nat, double: bool) | Pause(at: nat)

  function Feed(a: Alphabet, acc: Acc, x: Input): (r: Acc)
  {
    if x.Tap? then AddTap(a, acc, x.double)
    else if a.CountColor? && acc.phase == 1 then CloseDigit(a.palette, acc)
    else acc
  }

  function Fold(a: Alphabet, xs: seq<Input>): (r: Acc)
  {
    if xs == [] then EMPTY else Feed(a, Fold(a, xs[..|xs| - 1]), xs[|xs| - 1])
  }

  /** The digits these inputs amount to once the sequence closes. */
  function DigitsOf(a: Alphabet, xs: seq<Input>): (d: Digits)
  {
    if a.StdtBinary? then Triplets(Fold(a, xs).bits) else Fold(a, xs).digits
  }

  lemma FoldSnoc(a: Alphabet, xs: seq<Input>, x: Input)
    ensures Fold(a, xs + [x]) == Feed(a, Fold(a, xs), x)
  {
    assert (xs + [x])[..|xs|] == xs;
  }

  /** The silence phases: nothing entered, a digit being entered, digits entered. */
  lemma {:induction false} FoldShape(a: Alphabet, xs: seq<Input>)
    ensures var f := Fold(a, xs);
            if a.CountColor? then
              && (f.phase == 0 ==> f == EMPTY)
              && (f.phase == 1 ==> f.cur > 0)
              && (f.phase == 2 ==> f.cur == 0 && f.digits != [])
              && f.phase <= 2 && f.bits == []
            else f.cur == 0 && f.phase == 0 && (if a.StdtBinary? then f.digits == [] else f.bits == [])
  {
    if xs != [] {
      FoldShape(a, xs[..|xs| - 1]);
    }
  }

  /** A double tap counts as two. */
  lemma DoubleIsTwo(palette: nat, x: Acc)
    requires x.cur + 2 <= 0xFF
    ensures var a := CountColor(palette); AddTap(a, x, true) == AddTap(a, AddTap(a, x, false), false)
  {
  }

  /** No buffer is ever overrun: sixteen digits, forty-eight bits, and a count in an octet. */
  lemma {:induction false} FoldFits(a: Alphabet, xs: seq<Input>)
    ensures var f := Fold(a, xs);
            |f.digits| <= 16 && |f.bits| <= 48 && f.cur <= 255 && (a.StdtBinary? ==> |DigitsOf(a, xs)| <= 16)
  {
    if xs != [] {
      FoldFits(a, xs[..|xs| - 1]);
    }
    TripletsLength(Fold(a, xs).bits);
  }

  predicate HasTap(xs: seq<Input>)
  {
    exists i :: 0 <= i < |xs| && xs[i].Tap?
  }

  /** Only a tap leaves anything in the accumulator. */
  lemma {:induction false} FoldTapped(a: Alphabet, xs: seq<Input>)
    ensures Fold(a, xs) != EMPTY <==> HasTap(xs)
  {
    if xs != [] {
      var n := |xs| - 1;
      FoldTapped(a, xs[..n]);
      FoldShape(a, xs[..n]);
      assert HasTap(xs) <==> HasTap(xs[..n]) || xs[n].Tap?;
    }
  }

  /** `n` single taps and a pause. */
  function Digit(n: nat, at: nat): (r: seq<Input>)
  {
    if n == 0 then [Pause(at)] else [Tap(at, false)] + Digit(n - 1, at)
  }

  /** A count as a digit of the palette. */
  function Colour(palette: nat, n: nat): (d: nat)
  {
    if n > palette then DIGIT_INVALID else n
  }

  /** `acc` once `n` more taps have been counted and the digit has closed. */
  function Counted(palette: nat, acc: Acc, n: nat): (r: Acc)
  {
    acc.(digits := acc.digits + [Colour(palette, acc.cur + n)], cur := 0, phase := 2)
  }

  lemma {:induction false} FoldDigit(a: Alphabet, xs: seq<Input>, n: nat, at: nat, acc: Acc)
    requires a.CountColor? && acc == Fold(a, xs)
    requires 0 < acc.cur + n <= 0xFF && |acc.digits| < SEQ_MAX_LEN
    ensures Fold(a, xs + Digit(n, at)) == Counted(a.palette, acc, n)
    decreases n
  {
    hide Fold;
    if n == 0 {
      FoldShape(a, xs);
      FoldSnoc(a, xs, Pause(at));
    } else {
      var tap := Tap(at, false);
      FoldSnoc(a, xs, tap);
      FoldDigit(a, xs + [tap], n - 1, at, AddTap(a, acc, false));
      assert xs + Digit(n, at) == xs + [tap] + Digit(n - 1, at);
    }
  }

  function Typed(counts: seq<nat>, at: nat): (r: seq<Input>)
  {
    if counts == [] then [] else Typed(counts[..|counts| - 1], at) + Digit(counts[|counts| - 1], at)
  }

  function Colours(palette: nat, counts: seq<nat>): (d: Digits)
    ensures |d| == |counts| && forall i :: 0 <= i < |counts| ==> d[i] == Colour(palette, counts[i])
  {
    if counts == [] then []
    else Colours(palette, counts[..|counts| - 1]) + [Colour(palette, counts[|counts| - 1])]
  }

  lemma TypedStep(a: Alphabet, xs: seq<Input>, n: nat, at: nat, d: Digits)
    requires a.CountColor? && 1 <= n <= 0xFF && |d| < SEQ_MAX_LEN && Fold(a, xs).cur == 0 && Fold(a, xs).digits == d
    ensures var f := Fold(a, xs + Digit(n, at)); f.cur == 0 && f.digits == d + [Colour(a.palette, n)]
  {
    FoldDigit(a, xs, n, at, Fold(a, xs));
  }

  /** Counting taps in groups gives exactly those counts as digits, with out-of-palette counts invalid. */
  lemma {:induction false} TypedDigits(a: Alphabet, counts: seq<nat>, at: nat)
    requires a.CountColor? && |counts| <= SEQ_MAX_LEN && forall i :: 0 <= i < |counts| ==> 1 <= counts[i] <= 0xFF
    ensures var f := Fold(a, Typed(counts, at)); f.cur == 0 && f.digits == Colours(a.palette, counts)
  {
    if counts != [] {
      var n := |counts| - 1;
      TypedDigits(a, counts[..n], at);
      TypedStep(a, Typed(counts[..n], at), counts[n], at, Colours(a.palette, counts[..n]));
    }
  }
}
