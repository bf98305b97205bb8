/** What the machine does for a user who taps a sequence and then waits, on the colour-counting alphabet. */
module GestureTyping {
  import opened Octets
  import opened GestureInput
  import opened Gesture

  function Play(cfg: Cfg, c: Core, es: seq<Event>): (r: Core)
    decreases |es|
  {
    if es == [] then c else Step(cfg, Play(cfg, c, es[..|es| - 1]), es[|es| - 1])
  }

  function Keys(xs: seq<Input>): (es: seq<Event>)
    ensures |es| == |xs|
  {
    if xs == [] then []
    else Keys(xs[..|xs| - 1]) + [if xs[|xs| - 1].Tap? then TapOf(xs[|xs| - 1].double) else Silence(true, true)]
  }

  /** Every pause follows a tap. */
  predicate Paced(a: Alphabet, xs: seq<Input>)
  {
    xs != [] ==>
      && Paced(a, xs[..|xs| - 1])
      && (xs[|xs| - 1].Pause? ==> Fold(a, xs[..|xs| - 1]).phase == 1)
  }

  predicate Listening(c: Core)
  {
    c.window.Closed? && c.acc == EMPTY && !(c.state.Locked? && InLockout(c))
  }

  lemma PlayKey(cfg: Cfg, c: Core, acc: Acc, x: Input)
    requires cfg.alphabet.CountColor? && Listening(c) && (x.Pause? ==> acc.phase == 1)
    ensures Step(cfg, c.(acc := acc), if x.Tap? then TapOf(x.double) else Silence(true, true))
         == c.(acc := Feed(cfg.alphabet, acc, x))
  {
  }

  lemma {:induction false} PlayKeys(cfg: Cfg, c: Core, xs: seq<Input>)
    requires cfg.alphabet.CountColor? && Listening(c) && Paced(cfg.alphabet, xs)
    ensures Play(cfg, c, Keys(xs)) == c.(acc := Fold(cfg.alphabet, xs))
    decreases |xs|
  {
    hide Step, Feed;
    if xs != [] {
      var n := |xs| - 1;
      PlayKeys(cfg, c, xs[..n]);
      PlayKey(cfg, c, Fold(cfg.alphabet, xs[..n]), xs[n]);
      assert Keys(xs)[..n] == Keys(xs[..n]);
    }
  }

  lemma PacedSnoc(a: Alphabet, xs: seq<Input>, x: Input)
    requires a.CountColor? && Paced(a, xs) && (x.Pause? ==> Fold(a, xs).phase == 1)
    ensures Paced(a, xs + [x]) && (x.Tap? ==> Fold(a, xs + [x]).phase == 1)
  {
    assert (xs + [x])[..|xs|] == xs;
    FoldSnoc(a, xs, x);
  }

  lemma {:induction false} PacedDigit(a: Alphabet, xs: seq<Input>, n: nat, at: nat)
    requires a.CountColor? && Paced(a, xs) && (n == 0 ==> Fold(a, xs).phase == 1)
    ensures Paced(a, xs + Digit(n, at))
    decreases n
  {
    hide Paced, Fold;
    if n == 0 {
      PacedSnoc(a, xs, Pause(at));
    } else {
      var tap := Tap(at, false);
      PacedSnoc(a, xs, tap);
      PacedDigit(a, xs + [tap], n - 1, at);
      assert xs + Digit(n, at) == xs + [tap] + Digit(n - 1, at);
    }
  }

  lemma {:induction false} PacedTyped(a: Alphabet, counts: seq<nat>, at: nat)
    requires a.CountColor? && forall i :: 0 <= i < |counts| ==> counts[i] >= 1
    ensures Paced(a, Typed(counts, at))
    decreases |counts|
  {
    if counts != [] {
      PacedTyped(a, counts[..|counts| - 1], at);
      PacedDigit(a, Typed(counts[..|counts| - 1], at), counts[|counts| - 1], at);
    }
  }

  predicate Tappable(cfg: Cfg, counts: seq<nat>)
  {
    && cfg.alphabet.CountColor? && 0 < |counts| <= SEQ_MAX_LEN && cfg.alphabet.palette < DIGIT_INVALID
    && forall i :: 0 <= i < |counts| ==> 1 <= counts[i] <= 0xFF
  }

  /** The taps of each count with a pause after it, and the silence that closes the sequence. */
  function Strokes(counts: seq<nat>): (es: seq<Event>)
  {
    Keys(Typed(counts, 0)) + [Silence(true, true)]
  }

  lemma PhaseAfter(a: Alphabet, counts: seq<nat>)
    requires a.CountColor? && 0 < |counts| <= SEQ_MAX_LEN && forall i :: 0 <= i < |counts| ==> 1 <= counts[i] <= 0xFF
    ensures var f := Fold(a, Typed(counts, 0)); f.phase == 2 && f.digits == Colours(a.palette, counts)
  {
    TypedDigits(a, counts, 0);
    FoldShape(a, Typed(counts, 0));
  }

  /** Tapping counts out and waiting makes the machine process exactly those counts. */
  lemma StrokesEvaluate(cfg: Cfg, c: Core, counts: seq<nat>)
    requires Tappable(cfg, counts) && Listening(c)
    ensures exists acc :: Play(cfg, c, Strokes(counts))
                       == Silent(cfg, c.(acc := acc), true, true)
                       && Complete(cfg.alphabet, acc) == Some(Colours(cfg.alphabet.palette, counts))
  {
    hide Step, Silent;
    var xs := Typed(counts, 0);
    var acc := Fold(cfg.alphabet, xs);
    PacedTyped(cfg.alphabet, counts, 0);
    PlayKeys(cfg, c, xs);
    PhaseAfter(cfg.alphabet, counts);
    assert Strokes(counts)[..|Strokes(counts)| - 1] == Keys(xs);
    StepSilence(cfg, c.(acc := acc));
  }

  lemma StepSilence(cfg: Cfg, c: Core)
    requires c.window.Closed?
    ensures Step(cfg, c, Silence(true, true)) == Silent(cfg, c, true, true)
  {
  }

  /** The documented response of `c` to the sequence `d`. */
  predicate Responds(a: Alphabet, c: Core, d: Digits, r: Core)
  {
    match c.state
    case Locked =>
      if !HasInvalid(d) && d == c.unlockSeq
      then r.state == (if c.usingDefault then ChangeConfirm else Unlocked) && r.failures == 0 && r.forced == (c.forced || c.usingDefault)
           && (c.failures != 0 ==> r.lockoutUntil == 0)
      else r.state == Locked && r.failures == (if c.failures == 0xFFFF_FFFF then 0 else c.failures + 1)
    case Unlocked => UnlockedResponds(a, d, r.state)
    case Pairing => r.state == Pairing
    case ChangeConfirm =>
      if HasInvalid(d) || |d| > 16 then r.state == ChangeConfirm else r.state == ChangeVerify && r.newSeq == d
    case ChangeVerify =>
      if !HasInvalid(d) && d == c.newSeq
      then r.state == Unlocked && r.unlockSeq == d && r.storedSeq == Some(d) && !r.forced
      else r.state == (if c.forced then Locked else Unlocked) && r.unlockSeq == c.unlockSeq && r.storedSeq == c.storedSeq
    case AwaitingConfirm => r.state == Unlocked && Answers(c, r, !HasInvalid(d) && d == Confirming(a))
    case AwaitingReset => r.state == c.pre && Answers(c, r, !HasInvalid(d) && d == c.unlockSeq)
    case AwaitingPair => r.state == c.pre && Answers(c, r, !HasInvalid(d) && d == PairingUp(a))
  }

  predicate UnlockedResponds(a: Alphabet, d: Digits, s: State)
  {
    match a
    case CountColor(_) =>
      s == if d == [1] then Locked else if d == [2, 2] then Pairing else if d == [3, 3, 3] then ChangeConfirm else Unlocked
    case StdtBinary =>
      s == if d == [0] then Locked else if d == [1, 1] then Pairing else if d == [2, 2, 2] then ChangeConfirm else Unlocked
    case StdtPlain =>
      s == if d == [1] then Locked else if d == [2, 2, 1, 1] then Pairing
           else if d == [2, 1, 2, 1] then ChangeConfirm else Unlocked
  }

  function Confirming(a: Alphabet): (d: Digits)
  {
    match a case CountColor(_) => [3, 3, 3] case StdtBinary => [3, 3, 3] case StdtPlain => [2, 2, 2]
  }

  function PairingUp(a: Alphabet): (d: Digits)
  {
    match a case CountColor(_) => [2, 2] case StdtBinary => [1, 1] case StdtPlain => [2, 2, 1, 1]
  }

  predicate Answers(c: Core, r: Core, right: bool)
  {
    c.pending.Some? ==> r.pending.None? && r.window == Open(c.pending.value, if right then Ok else Denied, true)
  }

  lemma LockedResponds(cfg: Cfg, c: Core, d: Digits)
    requires c.state.Locked?
    ensures Responds(cfg.alphabet, c, d, ProcessLocked(cfg, c, d, true))
  {
    hide LockoutSeconds, HasInvalid;
  }

  lemma UnlockedRespondsTo(a: Alphabet, c: Core, d: Digits)
    requires c.state.Unlocked?
    ensures Responds(a, c, d, ProcessUnlocked(a, c, d))
  {
  }

  lemma VerifyResponds(a: Alphabet, c: Core, d: Digits)
    requires c.state.ChangeVerify?
    ensures Responds(a, c, d, ProcessVerify(a, c, d, true))
  {
    hide HasInvalid, UnlockDefault;
  }

  lemma AnswerResponds(a: Alphabet, c: Core, d: Digits)
    requires IsAwaiting(c.state)
    ensures Responds(a, c, d, Answer(c, d, if c.state.AwaitingConfirm? then ConfirmSeq(a)
                                          else if c.state.AwaitingReset? then c.unlockSeq else PairingTrigger(a)))
  {
    hide HasInvalid;
  }

  lemma ProcessResponds(cfg: Cfg, c: Core, d: Digits)
    requires d != []
    ensures Responds(cfg.alphabet, c, d, Process(cfg, c, d, true, true))
  {
    hide Answer, ProcessLocked, ProcessUnlocked, ProcessVerify, HasInvalid, UnlockedResponds, Answers, Confirming, PairingUp;
    match c.state
    case Locked => hide Responds; LockedResponds(cfg, c, d);
    case Unlocked => hide Responds; UnlockedRespondsTo(cfg.alphabet, c, d);
    case ChangeVerify => hide Responds; VerifyResponds(cfg.alphabet, c, d);
    case ChangeConfirm =>
    case Pairing =>
    case AwaitingConfirm => hide Responds; AnswerResponds(cfg.alphabet, c, d);
    case AwaitingReset => hide Responds; AnswerResponds(cfg.alphabet, c, d);
    case AwaitingPair => hide Responds; AnswerResponds(cfg.alphabet, c, d);
  }

  /** The accumulator has no part in it. */
  lemma RespondsAcc(a: Alphabet, c: Core, acc: Acc, d: Digits, r: Core, acc': Acc)
    ensures Responds(a, c.(acc := acc), d, r.(acc := acc')) <==> Responds(a, c, d, r)
  {
    hide HasInvalid;
  }

  lemma SilentResponds(cfg: Cfg, c: Core, d: Digits)
    requires c.window.Closed? && Complete(cfg.alphabet, c.acc) == Some(d)
    ensures Responds(cfg.alphabet, c, d, Silent(cfg, c, true, true))
  {
    hide Process, Triplets, Responds;
    var acc := Closing(cfg.alphabet, c.acc);
    var r := Process(cfg, c.(acc := acc), d, true, true);
    ProcessResponds(cfg, c.(acc := acc), d);
    RespondsAcc(cfg.alphabet, c, acc, d, r, r.acc);
    RespondsAcc(cfg.alphabet, c, c.acc, d, r, EMPTY);
    assert r.(acc := r.acc) == r && c.(acc := c.acc) == c;
  }

  /** Tapping a sequence out unlocks, locks, opens pairing, starts and completes a change, or answers, as documented. */
  lemma TappingWorks(cfg: Cfg, c: Core, counts: seq<nat>)
    requires Tappable(cfg, counts) && Listening(c)
    ensures Responds(cfg.alphabet, c, Colours(cfg.alphabet.palette, counts), Play(cfg, c, Strokes(counts)))
  {
    hide Play, Silent, Responds;
    var d := Colours(cfg.alphabet.palette, counts);
    StrokesEvaluate(cfg, c, counts);
    var acc :| Play(cfg, c, Strokes(counts)) == Silent(cfg, c.(acc := acc), true, true)
               && Complete(cfg.alphabet, acc) == Some(d);
    SilentResponds(cfg, c.(acc := acc), d);
    var r := Silent(cfg, c.(acc := acc), true, true);
    RespondsAcc(cfg.alphabet, c, acc, d, r, r.acc);
    assert r.(acc := r.acc) == r;
  }

  // ---------------------------------------------------- single and double taps

  /** A freshly booted machine listens, whatever lockout was under way. */
  lemma BootListens(cfg: Cfg, storedSeq: Option<Digits>, storedFails: Option<u32>, seqRead: bool, failsRead: bool)
    ensures var c := Boot(cfg, storedSeq, storedFails, seqRead, failsRead); Listening(c) && c.state.Locked? && c.now == 0
  {
  }

  /** Taps, double or single, and the silence that closes the sequence. */
  function Knocks(doubles: seq<bool>): (es: seq<Event>)
    ensures |es| == |doubles|
  {
    if doubles == [] then [] else Knocks(doubles[..|doubles| - 1]) + [TapOf(doubles[|doubles| - 1])]
  }

  /** The digits they make: one each, or one for every three of them read as bits. */
  function KnockDigits(a: Alphabet, doubles: seq<bool>): (d: Digits)
  {
    if a.StdtBinary? then Triplets(seq(|doubles|, i requires 0 <= i < |doubles| => if doubles[i] then 1 else 0))
    else seq(|doubles|, i requires 0 <= i < |doubles| => if doubles[i] then 2 else 1)
  }

  /** What the accumulator holds after the taps. */
  function Knocked(a: Alphabet, doubles: seq<bool>): (acc: Acc)
  {
    if a.StdtBinary? then Acc([], 0, 0, seq(|doubles|, i requires 0 <= i < |doubles| => if doubles[i] then 1 else 0))
    else Acc(seq(|doubles|, i requires 0 <= i < |doubles| => if doubles[i] then 2 else 1), 0, 0, [])
  }

  predicate Knockable(a: Alphabet, doubles: seq<bool>)
  {
    !a.CountColor? && 0 < |doubles| <= if a.StdtBinary? then 48 else 16
  }

  lemma KnockedSnoc(a: Alphabet, doubles: seq<bool>, n: nat)
    requires !a.CountColor? && |doubles| == n + 1 && n < if a.StdtBinary? then 48 else 16
    ensures AddTap(a, Knocked(a, doubles[..n]), doubles[n]) == Knocked(a, doubles)
  {
  }

  lemma {:induction false} PlayKnocks(cfg: Cfg, c: Core, doubles: seq<bool>)
    requires !cfg.alphabet.CountColor? && |doubles| <= (if cfg.alphabet.StdtBinary? then 48 else 16) && Listening(c)
    ensures Play(cfg, c, Knocks(doubles)) == c.(acc := Knocked(cfg.alphabet, doubles))
    decreases |doubles|
  {
    hide AddTap, Knocked, Silent, Ask, SetSeq, Boot;
    if doubles == [] {
      assert Knocked(cfg.alphabet, []) == EMPTY by { NoKnocks(cfg.alphabet); }
    } else {
      var n := |doubles| - 1;
      PlayKnocks(cfg, c, doubles[..n]);
      KnockedSnoc(cfg.alphabet, doubles, n);
      assert Knocks(doubles)[..n] == Knocks(doubles[..n]);
    }
  }

  lemma NoKnocks(a: Alphabet)
    ensures Knocked(a, []) == EMPTY
  {
  }

  /** On the two other alphabets too, what is tapped is what is processed. */
  lemma KnockingWorks(cfg: Cfg, c: Core, doubles: seq<bool>)
    requires Knockable(cfg.alphabet, doubles) && Listening(c)
    ensures Responds(cfg.alphabet, c, KnockDigits(cfg.alphabet, doubles), Play(cfg, c, Knocks(doubles) + [Silence(true, true)]))
  {
    hide Silent, Responds, Step, Triplets;
    var acc, d := Knocked(cfg.alphabet, doubles), KnockDigits(cfg.alphabet, doubles);
    PlayKnocks(cfg, c, doubles);
    assert (Knocks(doubles) + [Silence(true, true)])[..|doubles|] == Knocks(doubles);
    StepSilence(cfg, c.(acc := acc));
    if cfg.alphabet.StdtBinary? {
      TripletsLength(acc.bits);
    }
    assert Complete(cfg.alphabet, acc) == Some(d);
    SilentResponds(cfg, c.(acc := acc), d);
    var r := Silent(cfg, c.(acc := acc), true, true);
    RespondsAcc(cfg.alphabet, c, acc, d, r, r.acc);
    assert r.(acc := r.acc) == r;
  }
}
