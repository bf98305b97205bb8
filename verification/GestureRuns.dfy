/** What holds over every run of the gesture state machine, whatever the interleaving of its events. */
module GestureRuns {
  import opened Octets
  import opened GestureInput
  import opened Gesture

  /** A run: the machine is booted on some storage and then events happen in some order. */
  datatype Run = Run(cfg: Cfg, boot: Core, events: seq<Event>)

  ghost predicate Booted(r: Run)
  {
    exists s, f, sr, fr :: r.boot == Boot(r.cfg, s, f, sr, fr)
  }

  /** The machine after the first `n` events. */
  function At(r: Run, n: nat): (c: Core)
    requires n <= |r.events|
  {
    if n == 0 then r.boot else Step(r.cfg, At(r, n - 1), r.events[n - 1])
  }

  /** The sequence evaluated by event `n`, if it evaluates one. */
  function Evaluated(r: Run, n: nat): (d: Option<Digits>)
    requires n < |r.events|
  {
    var c := At(r, n);
    if r.events[n].Silence? && c.window.Closed? then Complete(r.cfg.alphabet, c.acc) else None
  }

  // ----------------------------------------------------- requests and callbacks

  /** A callback is pending exactly while the machine awaits the user; a forced change is under way only while changing. */
  predicate Sound(c: Core)
  {
    && (c.pending.Some? <==> IsAwaiting(c.state))
    && (c.state.AwaitingReset? || c.state.AwaitingPair? ==> c.pre.Locked? || c.pre.Unlocked?)
    && (c.forced ==> c.state.ChangeConfirm? || c.state.ChangeVerify?)
  }

  lemma AnswerSound(c: Core, d: Digits, expected: Digits)
    requires Sound(c) && IsAwaiting(c.state)
    ensures Sound(Answer(c, d, expected))
  {
    hide Matches;
  }

  lemma LockedSound(cfg: Cfg, c: Core, d: Digits, failsKept: bool)
    requires Sound(c) && c.state.Locked?
    ensures Sound(ProcessLocked(cfg, c, d, failsKept))
  {
    hide Matches, LockoutSeconds, NextCount;
  }

  lemma VerifySound(a: Alphabet, c: Core, d: Digits, seqKept: bool)
    requires Sound(c) && c.state.ChangeVerify?
    ensures Sound(ProcessVerify(a, c, d, seqKept))
  {
    hide Matches, UnlockDefault;
  }

  lemma ProcessSound(cfg: Cfg, c: Core, d: Digits, seqKept: bool, failsKept: bool)
    requires Sound(c)
    ensures Sound(Process(cfg, c, d, seqKept, failsKept))
  {
    hide Answer, ProcessLocked, ProcessVerify, HasInvalid, LockSeq, PairingTrigger, ChangeTrigger, ConfirmSeq;
    match c.state
    case Locked => LockedSound(cfg, c, d, failsKept);
    case ChangeVerify => VerifySound(cfg.alphabet, c, d, seqKept);
    case AwaitingConfirm => AnswerSound(c, d, ConfirmSeq(cfg.alphabet));
    case AwaitingReset => AnswerSound(c, d, c.unlockSeq);
    case AwaitingPair => AnswerSound(c, d, PairingTrigger(cfg.alphabet));
    case _ =>
  }

  lemma StepSound(cfg: Cfg, c: Core, e: Event)
    requires Sound(c)
    ensures Sound(Step(cfg, c, e))
  {
    hide Process, UnlockDefault, AddTap, CloseDigit, Triplets;
    if e.Silence? && c.window.Closed? && Complete(cfg.alphabet, c.acc).Some? {
      var c1 := c.(acc := Closing(cfg.alphabet, c.acc));
      ProcessSound(cfg, c1, Complete(cfg.alphabet, c.acc).value, e.seqKept, e.failsKept);
    }
  }

  lemma {:induction false} RunSound(r: Run, n: nat)
    requires Booted(r) && n <= |r.events|
    ensures Sound(At(r, n))
  {
    hide Step;
    if n > 0 {
      RunSound(r, n - 1);
      StepSound(r.cfg, At(r, n - 1), r.events[n - 1]);
    }
  }

  predicate Accepts(r: Run, n: nat)
    requires n < |r.events|
  {
    r.events[n].Request? && RequestCode(r.cfg, At(r, n), r.events[n].kind) == Done
  }

  predicate Delivers(r: Run, n: nat)
    requires n < |r.events|
  {
    At(r, n).window.Closed? && At(r, n + 1).window.Open?
  }

  /** The callbacks of the requests accepted since the last reboot, in order. */
  function Accepted(r: Run, n: nat): (s: seq<nat>)
    requires n <= |r.events|
  {
    if n == 0 || r.events[n - 1].Reboot? then []
    else Accepted(r, n - 1) + if Accepts(r, n - 1) then [r.events[n - 1].cb] else []
  }

  /** The callbacks run since the last reboot, in order. */
  function Delivered(r: Run, n: nat): (s: seq<nat>)
    requires n <= |r.events|
  {
    if n == 0 || r.events[n - 1].Reboot? then []
    else Delivered(r, n - 1) + if Delivers(r, n - 1) then [At(r, n).window.cb] else []
  }

  function Outstanding(c: Core): (s: seq<nat>)
  {
    if c.pending.Some? then [c.pending.value] else []
  }

  /** What one event can do to the pending callback. */
  lemma StepPending(cfg: Cfg, c: Core, e: Event)
    requires Sound(c)
    ensures var c1 := Step(cfg, c, e);
            var accepts := e.Request? && RequestCode(cfg, c, e.kind) == Done;
            var delivers := c.window.Closed? && c1.window.Open?;
            && !(accepts && delivers)
            && (accepts ==> c.pending.None? && c1.pending == Some(e.cb) && c1.state == Awaiting(e.kind))
            && (delivers ==> c.pending == Some(c1.window.cb) && c1.pending.None?)
            && (e.Reboot? ==> !delivers && c1.pending.None?)
            && (!accepts && !delivers && !e.Reboot? ==> c1.pending == c.pending)
  {
    hide LockoutSeconds, HasInvalid, NextCount, Matches, AddTap, Triplets, CloseDigit;
  }

  /** Every accepted request is still pending or its callback has run, exactly once and in order. */
  lemma {:induction false} ExactlyOnce(r: Run, n: nat)
    requires Booted(r) && n <= |r.events|
    ensures Accepted(r, n) == Delivered(r, n) + Outstanding(At(r, n))
  {
    hide Step;
    if n > 0 {
      RunSound(r, n - 1);
      StepPending(r.cfg, At(r, n - 1), r.events[n - 1]);
      ExactlyOnce(r, n - 1);
    }
  }

  /**
    So a request is never refused because another is pending: in every run it is accepted exactly
    when the device is unlocked, or locked and asked to pair, or to reset where that is allowed.
   */
  lemma RequestExact(r: Run, n: nat, k: Kind)
    requires Booted(r) && n <= |r.events|
    ensures RequestCode(r.cfg, At(r, n), k) ==
            if At(r, n).state.Unlocked? || (At(r, n).state.Locked? && (k.Pair? || (k.Reset? && !r.cfg.resetRequiresUnlock)))
            then Done else Busy
  {
    RunSound(r, n);
  }

  // ------------------------------------------------ what the accumulator stands for

  /** What the user entered by one event. */
  function InputOf(cfg: Cfg, c: Core, e: Event, at: nat): (xs: seq<Input>)
  {
    if e.TapOf? && !(c.state.Locked? && InLockout(c)) then [Tap(at, e.double)]
    else if e.Silence? && c.window.Closed? && cfg.alphabet.CountColor? && c.acc.phase == 1 then [Pause(at)]
    else []
  }

  /** What the user entered by events `s` up to `n`. */
  function Entered(r: Run, s: nat, n: nat): (xs: seq<Input>)
    requires s <= n <= |r.events|
    ensures forall i :: 0 <= i < |xs| ==> s <= xs[i].at < n
  {
    if s == n then [] else Entered(r, s, n - 1) + InputOf(r.cfg, At(r, n - 1), r.events[n - 1], n - 1)
  }

  predicate Clears(cfg: Cfg, c: Core, e: Event)
  {
    || e.Reboot?
    || (e.Request? && RequestCode(cfg, c, e.kind) == Done)
    || (e.CallbackReturns? && ToClear(c))
    || (e.Silence? && c.window.Closed? && Complete(cfg.alphabet, c.acc).Some?)
  }

  /** The accumulator is going to be cleared before anything reads it. */
  predicate ToClear(c: Core)
  {
    c.window.Open? && c.window.resetAfter
  }

  /** How many events had happened when the accumulator was last cleared. */
  function Start(r: Run, n: nat): (s: nat)
    requires n <= |r.events|
    ensures s <= n
  {
    if n == 0 then 0 else if Clears(r.cfg, At(r, n - 1), r.events[n - 1]) then n else Start(r, n - 1)
  }

  lemma ProcessWindow(cfg: Cfg, c: Core, d: Digits, seqKept: bool, failsKept: bool)
    requires c.window.Closed?
    ensures var w := Process(cfg, c, d, seqKept, failsKept).window; w.Open? ==> w.resetAfter
  {
    hide LockoutSeconds, HasInvalid, NextCount, Matches;
  }

  lemma StepCleared(cfg: Cfg, c: Core, e: Event)
    requires Clears(cfg, c, e)
    ensures var c1 := Step(cfg, c, e); ToClear(c1) || c1.acc == EMPTY
  {
    if e.Silence? {
      var c1 := c.(acc := Closing(cfg.alphabet, c.acc));
      ProcessWindow(cfg, c1, Complete(cfg.alphabet, c.acc).value, e.seqKept, e.failsKept);
    }
  }

  lemma StepAcc(cfg: Cfg, c: Core, e: Event, xs: seq<Input>, at: nat)
    requires !Clears(cfg, c, e) && (ToClear(c) || c.acc == Fold(cfg.alphabet, xs))
    ensures var c1 := Step(cfg, c, e); ToClear(c1) || c1.acc == Fold(cfg.alphabet, xs + InputOf(cfg, c, e, at))
  {
    FoldShape(cfg.alphabet, xs);
    if InputOf(cfg, c, e, at) == [] {
      assert xs + InputOf(cfg, c, e, at) == xs;
    } else {
      FoldSnoc(cfg.alphabet, xs, InputOf(cfg, c, e, at)[0]);
    }
  }

  /** Whatever a silence evaluates, it is what was entered since the accumulator was last cleared. */
  lemma {:induction false} AccIsEntered(r: Run, n: nat)
    requires Booted(r) && n <= |r.events|
    ensures ToClear(At(r, n)) || At(r, n).acc == Fold(r.cfg.alphabet, Entered(r, Start(r, n), n))
  {
    hide Step;
    if n > 0 {
      AccIsEntered(r, n - 1);
      if Clears(r.cfg, At(r, n - 1), r.events[n - 1]) {
        StepCleared(r.cfg, At(r, n - 1), r.events[n - 1]);
      } else {
        StepAcc(r.cfg, At(r, n - 1), r.events[n - 1], Entered(r, Start(r, n - 1), n - 1), n - 1);
      }
    }
  }

  lemma EvaluatedIsEntered(r: Run, n: nat)
    requires Booted(r) && n < |r.events| && Evaluated(r, n).Some?
    ensures Evaluated(r, n).value == DigitsOf(r.cfg.alphabet, Entered(r, Start(r, n), n))
  {
    hide Step;
    AccIsEntered(r, n);
  }
}
