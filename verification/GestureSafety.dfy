/** Safety of the gesture machine over whole runs: confirmations, unlocking, forced changes and the rate limit. */
module GestureSafety {
  import opened Octets
  import opened GestureInput
  import opened Gesture
  import opened GestureRuns

  // ------------------------------------------------------------- confirmations

  /** Request `i`, of kind `k` with callback `cb`, is what the machine has been waiting on ever since. */
  predicate Held(r: Run, i: nat, n: nat, k: Kind, cb: nat)
    requires n <= |r.events|
  {
    && i < n && Accepts(r, i) && r.events[i] == Request(k, cb)
    && forall m :: i < m <= n ==> At(r, m).pending == Some(cb) && At(r, m).state == Awaiting(k) && i < Start(r, m)
  }

  lemma StepAwaits(cfg: Cfg, c: Core, e: Event)
    requires Sound(c) && c.pending.Some? && Step(cfg, c, e).pending == c.pending
    ensures Step(cfg, c, e).state == c.state
    ensures !(e.Request? && RequestCode(cfg, c, e.kind) == Done)
  {
  }

  lemma HeldOn(r: Run, i: nat, n: nat, k: Kind, cb: nat)
    requires 0 < n <= |r.events| && Held(r, i, n - 1, k, cb)
    requires At(r, n).pending == Some(cb) && At(r, n).state == Awaiting(k)
    ensures Held(r, i, n, k, cb)
  {
    hide At, Accepts;
  }

  /** A pending callback belongs to an accepted request, and nothing came between. */
  lemma {:induction false} PendingHeld(r: Run, n: nat) returns (i: nat, k: Kind)
    requires Booted(r) && n <= |r.events| && At(r, n).pending.Some?
    ensures Held(r, i, n, k, At(r, n).pending.value)
  {
    hide Step;
    var c, e := At(r, n - 1), r.events[n - 1];
    RunSound(r, n - 1);
    StepPending(r.cfg, c, e);
    if Accepts(r, n - 1) {
      i, k := n - 1, e.kind;
    } else {
      i, k := PendingHeld(r, n - 1);
      StepAwaits(r.cfg, c, e);
      HeldOn(r, i, n, k, c.pending.value);
    }
  }

  /** What result a delivery carries. */
  lemma StepDelivers(cfg: Cfg, c: Core, e: Event, k: Kind)
    requires c.window.Closed? && Step(cfg, c, e).window.Open? && c.state == Awaiting(k)
    ensures var w := Step(cfg, c, e).window;
            var d := if e.Silence? then Complete(cfg.alphabet, c.acc) else None;
            && (w.result.TimedOut? <==> e == Expire(k))
            && (w.result.Ok? <==> d.Some? && Matches(d.value, Right(cfg.alphabet, k, c.unlockSeq)))
            && (w.result.Denied? <==> d.Some? && !Matches(d.value, Right(cfg.alphabet, k, c.unlockSeq)))
  {
  }

  /**
    Every callback run answers the request accepted at `i`; it says Ok exactly when what the user
    entered after that request, and nothing else, was the right sequence for it.
   */
  lemma DeliveryAnswers(r: Run, n: nat) returns (i: nat, k: Kind)
    requires Booted(r) && n < |r.events| && Delivers(r, n)
    ensures var w := At(r, n + 1).window;
            && Held(r, i, n, k, w.cb)
            && i < Start(r, n)
            && (w.result.TimedOut? <==> r.events[n] == Expire(k))
            && (w.result.Ok? <==>
                  && r.events[n].Silence?
                  && Matches(DigitsOf(r.cfg.alphabet, Entered(r, Start(r, n), n)),
                             Right(r.cfg.alphabet, k, At(r, n).unlockSeq)))
  {
    hide Step;
    var c, e := At(r, n), r.events[n];
    RunSound(r, n);
    StepPending(r.cfg, c, e);
    i, k := PendingHeld(r, n);
    StepDelivers(r.cfg, c, e, k);
    if Evaluated(r, n).Some? {
      EvaluatedIsEntered(r, n);
    }
  }

  // ----------------------------------------------------------------- unlocking

  /** Locked, or showing a prompt that will return to locked. */
  predicate Secured(c: Core)
  {
    c.state.Locked? || ((c.state.AwaitingReset? || c.state.AwaitingPair?) && c.pre.Locked?)
  }

  /** Event `i` is the right unlock sequence, entered while locked. */
  predicate Unlocks(r: Run, i: nat)
    requires i < |r.events|
  {
    && At(r, i).state.Locked? && Evaluated(r, i).Some?
    && Matches(Evaluated(r, i).value, At(r, i).unlockSeq)
    && Evaluated(r, i).value == DigitsOf(r.cfg.alphabet, Entered(r, Start(r, i), i))
  }

  lemma StepOpens(cfg: Cfg, c: Core, e: Event)
    requires Sound(c) && Secured(c) && !Secured(Step(cfg, c, e))
    ensures c.state.Locked? && e.Silence? && c.window.Closed?
    ensures Complete(cfg.alphabet, c.acc).Some? && Matches(Complete(cfg.alphabet, c.acc).value, c.unlockSeq)
  {
  }

  /** The device is open only if the unlock sequence was entered since it was last secured. */
  lemma {:induction false} OpenOnlyByEntry(r: Run, n: nat) returns (i: nat)
    requires Booted(r) && n <= |r.events| && !Secured(At(r, n))
    ensures i < n && Unlocks(r, i) && Secured(At(r, i)) && forall m :: i < m <= n ==> !Secured(At(r, m))
  {
    hide Step;
    RunSound(r, n - 1);
    if Secured(At(r, n - 1)) {
      i := n - 1;
      StepOpens(r.cfg, At(r, i), r.events[i]);
      EvaluatedIsEntered(r, i);
    } else {
      i := OpenOnlyByEntry(r, n - 1);
    }
  }

  /** Every storage access of the event succeeds. */
  predicate Kept(e: Event)
  {
    match e
    case Silence(seqKept, failsKept) => seqKept && failsKept
    case SetUnlockSeq(_, kept) => kept
    case Reboot(seqRead, failsRead) => seqRead && failsRead
    case _ => true
  }

  ghost predicate AllKept(r: Run)
  {
    && (exists s, f :: r.boot == Boot(r.cfg, s, f, true, true))
    && forall e :: e in r.events ==> Kept(e)
  }

  predicate SeqStored(a: Alphabet, c: Core)
  {
    && c.unlockSeq == LoadedSeq(a, c.storedSeq, true)
    && c.usingDefault == (c.unlockSeq == UnlockDefault(a))
    && (c.state.ChangeVerify? ==> 0 < |c.newSeq| <= SEQ_MAX_LEN)
  }

  lemma AnswerSeqStored(a: Alphabet, c: Core, d: Digits, expected: Digits)
    requires Sound(c) && SeqStored(a, c) && IsAwaiting(c.state)
    ensures SeqStored(a, Answer(c, d, expected))
  {
    hide Matches, UnlockDefault;
  }

  lemma LockedSeqStored(cfg: Cfg, c: Core, d: Digits, failsKept: bool)
    requires SeqStored(cfg.alphabet, c) && c.state.Locked?
    ensures SeqStored(cfg.alphabet, ProcessLocked(cfg, c, d, failsKept))
  {
    hide Matches, LockoutSeconds, NextCount, UnlockDefault;
  }

  lemma ProcessSeqStored(cfg: Cfg, c: Core, d: Digits, failsKept: bool)
    requires Sound(c) && SeqStored(cfg.alphabet, c)
    ensures SeqStored(cfg.alphabet, Process(cfg, c, d, true, failsKept))
  {
    hide Answer, ProcessLocked, HasInvalid, UnlockDefault, LockSeq, PairingTrigger, ChangeTrigger, ConfirmSeq;
    match c.state
    case Locked => LockedSeqStored(cfg, c, d, failsKept);
    case AwaitingConfirm => AnswerSeqStored(cfg.alphabet, c, d, ConfirmSeq(cfg.alphabet));
    case AwaitingReset => AnswerSeqStored(cfg.alphabet, c, d, c.unlockSeq);
    case AwaitingPair => AnswerSeqStored(cfg.alphabet, c, d, PairingTrigger(cfg.alphabet));
    case _ =>
  }

  lemma StepSeqStored(cfg: Cfg, c: Core, e: Event)
    requires Sound(c) && SeqStored(cfg.alphabet, c) && Kept(e)
    ensures SeqStored(cfg.alphabet, Step(cfg, c, e))
  {
    if e.Silence? && c.window.Closed? && Complete(cfg.alphabet, c.acc).Some? {
      ProcessSeqStored(cfg, c.(acc := Closing(cfg.alphabet, c.acc)), Complete(cfg.alphabet, c.acc).value, e.failsKept);
    }
  }

  /** With storage working, the sequence that unlocks is the stored one, or the factory default when none is stored. */
  lemma {:induction false} UnlockSeqIsStored(r: Run, n: nat)
    requires AllKept(r) && n <= |r.events|
    ensures SeqStored(r.cfg.alphabet, At(r, n))
    ensures var s, stored := At(r, n).unlockSeq, At(r, n).storedSeq;
            if stored.Some? && 1 <= |stored.value| <= 16 then s == stored.value
            else s == match r.cfg.alphabet
                      case CountColor(_) => [1, 1, 1, 1] case StdtBinary => [0, 0, 0, 0] case StdtPlain => [1, 2, 1, 2]
  {
    hide Step;
    if n > 0 {
      UnlockSeqIsStored(r, n - 1);
      RunSound(r, n - 1);
      assert r.events[n - 1] in r.events;
      StepSeqStored(r.cfg, At(r, n - 1), r.events[n - 1]);
    }
  }

  // ------------------------------------------------------------- forced change

  /** A valid new sequence was entered by event `j`, and nothing has been evaluated since. */
  predicate Chosen(r: Run, i: nat, j: nat, n: nat, d: Digits)
    requires n <= |r.events|
  {
    && i < j < n && At(r, j).state.ChangeConfirm? && Evaluated(r, j) == Some(d) && !HasInvalid(d)
    && forall m :: j < m < n ==> Evaluated(r, m).None?
  }

  /** The same valid sequence was entered twice in a row after event `i`. */
  predicate EnteredTwice(r: Run, i: nat, j: nat, k: nat, n: nat)
    requires n <= |r.events|
  {
    k < n && Evaluated(r, k).Some? && At(r, k).state.ChangeVerify? && Chosen(r, i, j, k, Evaluated(r, k).value)
  }

  /** One event in a forced change that does not lock the device. */
  lemma StepForced(cfg: Cfg, c: Core, e: Event)
    requires Sound(c) && c.forced && !Secured(Step(cfg, c, e))
    ensures var c1 := Step(cfg, c, e);
            var d := if e.Silence? && c.window.Closed? then Complete(cfg.alphabet, c.acc) else None;
            if d.None? then c1.forced && c1.state == c.state && c1.newSeq == c.newSeq
            else if c.state.ChangeConfirm? then
              c1.forced && (c1.state.ChangeConfirm? || (c1.state.ChangeVerify? && c1.newSeq == d.value && !HasInvalid(d.value)))
            else !c1.forced && c.newSeq == d.value && !HasInvalid(d.value)
  {
  }

  lemma StepForces(cfg: Cfg, c: Core, e: Event)
    requires c.state.Locked? && c.usingDefault && !Secured(Step(cfg, c, e)) && e.Silence? && c.window.Closed?
    ensures Step(cfg, c, e).forced && Step(cfg, c, e).state.ChangeConfirm?
  {
  }

  lemma StepUnforced(cfg: Cfg, c: Core, e: Event)
    requires !c.forced && !Secured(c)
    ensures !Step(cfg, c, e).forced
  {
  }

  lemma {:induction false} ForcedProgress(r: Run, i: nat, n: nat) returns (j: nat, k: nat)
    requires Booted(r) && i < n <= |r.events| && Unlocks(r, i) && At(r, i).usingDefault
    requires forall m :: i < m <= n ==> !Secured(At(r, m))
    ensures if At(r, n).forced
            then At(r, n).state.ChangeConfirm? || (At(r, n).state.ChangeVerify? && Chosen(r, i, j, n, At(r, n).newSeq))
            else EnteredTwice(r, i, j, k, n)
    decreases n
  {
    hide Step;
    var c, c1, e := At(r, n - 1), At(r, n), r.events[n - 1];
    assert !Secured(c1) && c1 == Step(r.cfg, c, e);
    assert Evaluated(r, n - 1) == if e.Silence? && c.window.Closed? then Complete(r.cfg.alphabet, c.acc) else None;
    hide At, Evaluated, Complete, Secured, HasInvalid;
    if n == i + 1 {
      StepForces(r.cfg, c, e);
      return 0, 0;
    }
    j, k := ForcedProgress(r, i, n - 1);
    if c.forced {
      RunSound(r, n - 1);
      StepForced(r.cfg, c, e);
      if Evaluated(r, n - 1).Some? && c.state.ChangeConfirm? {
        j := n - 1;
      } else if Evaluated(r, n - 1).Some? {
        k := n - 1;
      }
    } else {
      assert !Secured(c);
      StepUnforced(r.cfg, c, e);
    }
  }

  /** After a factory-default unlock the device is unlocked only once one valid sequence was entered twice in a row. */
  lemma DefaultMustChange(r: Run, i: nat, n: nat) returns (j: nat, k: nat)
    requires Booted(r) && i < n <= |r.events| && Unlocks(r, i) && At(r, i).usingDefault
    requires forall m :: i < m <= n ==> !Secured(At(r, m))
    requires At(r, n).state.Unlocked?
    ensures EnteredTwice(r, i, j, k, n)
  {
    hide Step;
    RunSound(r, n);
    j, k := ForcedProgress(r, i, n);
  }

  // ---------------------------------------------------------------- rate limit

  /** Wrong unlock sequences since the last right one, counting on from the count at boot. */
  function Wrongs(r: Run, n: nat): (w: nat)
    requires n <= |r.events|
  {
    if n == 0 then r.boot.failures
    else if At(r, n - 1).state.Locked? && Evaluated(r, n - 1).Some? then
      if Matches(Evaluated(r, n - 1).value, At(r, n - 1).unlockSeq) then 0 else Wrongs(r, n - 1) + 1
    else Wrongs(r, n - 1)
  }

  function StoredCount(c: Core): (n: nat)
  {
    if c.storedFails.Some? then c.storedFails.value else 0
  }

  lemma ProcessCount(cfg: Cfg, c: Core, d: Digits, seqKept: bool)
    requires c.failures == StoredCount(c)
    ensures var c1 := Process(cfg, c, d, seqKept, true);
            && c1.failures == StoredCount(c1)
            && c1.failures == if !c.state.Locked? then c.failures
                              else if Matches(d, c.unlockSeq) then 0 else NextCount(c.failures)
  {
    hide LockoutSeconds, HasInvalid, NextCount, Matches, LockSeq, PairingTrigger, ChangeTrigger, ConfirmSeq, UnlockDefault;
  }

  lemma StepCount(cfg: Cfg, c: Core, e: Event)
    requires Kept(e) && c.failures == StoredCount(c)
    ensures var c1 := Step(cfg, c, e);
            var d := if e.Silence? && c.window.Closed? then Complete(cfg.alphabet, c.acc) else None;
            && c1.failures == StoredCount(c1)
            && c1.failures == if !c.state.Locked? || d.None? then c.failures
                              else if Matches(d.value, c.unlockSeq) then 0 else NextCount(c.failures)
  {
    if e.Silence? && c.window.Closed? && Complete(cfg.alphabet, c.acc).Some? {
      ProcessCount(cfg, c.(acc := Closing(cfg.alphabet, c.acc)), Complete(cfg.alphabet, c.acc).value, e.seqKept);
    }
  }

  lemma CountsOn(w: nat)
    ensures NextCount(w % TWO_32) == (w + 1) % TWO_32
  {
  }

  /** With storage working, the count survives reboots and is the number of wrong sequences since the last right one. */
  lemma {:induction false} CountIsWrongs(r: Run, n: nat)
    requires AllKept(r) && n <= |r.events|
    ensures At(r, n).failures == StoredCount(At(r, n)) == Wrongs(r, n) % TWO_32
  {
    hide Step;
    if n > 0 {
      CountIsWrongs(r, n - 1);
      assert r.events[n - 1] in r.events;
      StepCount(r.cfg, At(r, n - 1), r.events[n - 1]);
      CountsOn(Wrongs(r, n - 1));
    }
  }

  /** Event `i` is a wrong unlock sequence that takes the count past the threshold. */
  predicate LocksOut(r: Run, i: nat)
    requires i < |r.events|
  {
    && At(r, i).state.Locked? && Evaluated(r, i).Some? && !Matches(Evaluated(r, i).value, At(r, i).unlockSeq)
    && At(r, i + 1).failures > r.cfg.threshold
  }

  /** When the lockout that event `i` starts ends. */
  function Deadline(r: Run, i: nat): (t: nat)
    requires i < |r.events| && LocksOut(r, i)
  {
    At(r, i).now + 1000 * LockoutSeconds(r.cfg.threshold, At(r, i + 1).failures)
  }

  predicate LockedOut(c: Core, deadline: nat)
  {
    c.state.Locked? && c.acc == EMPTY && c.window.Closed? && c.lockoutUntil == deadline
  }

  /** In a lockout, any event but a reboot or an accepted prompt changes nothing that matters. */
  lemma StepLockedOut(cfg: Cfg, c: Core, e: Event, deadline: nat)
    requires LockedOut(c, deadline) && c.now < deadline
    requires !e.Reboot? && !(e.Request? && RequestCode(cfg, c, e.kind) == Done)
    ensures LockedOut(Step(cfg, c, e), deadline)
  {
  }

  lemma ClockRuns(cfg: Cfg, c: Core, e: Event)
    requires !e.Reboot?
    ensures Step(cfg, c, e).now >= c.now
  {
    hide Process;
  }

  lemma LockoutStep(cfg: Cfg, c: Core, e: Event, deadline: nat)
    requires c.now >= deadline || LockedOut(c, deadline)
    requires !e.Reboot? && (e.Request? && RequestCode(cfg, c, e.kind) == Done ==> c.now >= deadline)
    ensures Step(cfg, c, e).now >= deadline || LockedOut(Step(cfg, c, e), deadline)
  {
    ClockRuns(cfg, c, e);
    if c.now < deadline {
      StepLockedOut(cfg, c, e, deadline);
    }
  }

  /** No reboot, and no prompt opened before the deadline, in events `i + 1` up to `n`. */
  predicate Undisturbed(r: Run, i: nat, n: nat)
    requires i < n <= |r.events| && LocksOut(r, i)
  {
    forall m :: i < m < n ==> !r.events[m].Reboot? && (Accepts(r, m) ==> At(r, m).now >= Deadline(r, i))
  }

  lemma LockoutStarts(r: Run, i: nat)
    requires i < |r.events| && LocksOut(r, i)
    ensures LockedOut(At(r, i + 1), Deadline(r, i))
  {
  }

  lemma {:induction false} LockoutHolds(r: Run, i: nat, n: nat)
    requires i < n <= |r.events| && LocksOut(r, i) && Undisturbed(r, i, n)
    ensures At(r, n).now >= Deadline(r, i) || LockedOut(At(r, n), Deadline(r, i))
    decreases n
  {
    hide Step;
    if n == i + 1 {
      LockoutStarts(r, i);
    } else {
      LockoutHolds(r, i, n - 1);
      LockoutStep(r.cfg, At(r, n - 1), r.events[n - 1], Deadline(r, i));
    }
  }

  /** The schedule: ten seconds, half a minute, two minutes, ten minutes, and an hour from then on. It never falls. */
  lemma LockoutSchedule(threshold: nat, c: nat, c': nat)
    requires threshold < c <= c'
    ensures LockoutSeconds(threshold, threshold + 1) == 10 && LockoutSeconds(threshold, threshold + 2) == 30
    ensures LockoutSeconds(threshold, threshold + 3) == 120 && LockoutSeconds(threshold, threshold + 4) == 600
    ensures c >= threshold + 5 ==> LockoutSeconds(threshold, c) == 3600
    ensures LockoutSeconds(threshold, c) <= LockoutSeconds(threshold, c')
  {
  }

  /**
    Past the threshold, the next sequence is evaluated no sooner than 10, 30, 120, 600 seconds
    after the last for the first four counts past it, and an hour after for every later one.
   */
  lemma EvaluationsAreSpaced(r: Run, i: nat, n: nat)
    requires i < n < |r.events| && LocksOut(r, i) && Undisturbed(r, i, n) && Evaluated(r, n).Some?
    ensures var waited, over := At(r, n).now - At(r, i).now, At(r, i + 1).failures - r.cfg.threshold;
            && waited >= 10000
            && (over >= 2 ==> waited >= 30000)
            && (over >= 3 ==> waited >= 120000)
            && (over >= 4 ==> waited >= 600000)
            && (over >= 5 ==> waited >= 3600000)
  {
    hide Step;
    LockoutHolds(r, i, n);
    LockoutSchedule(r.cfg.threshold, At(r, i + 1).failures, At(r, i + 1).failures);
  }

  /** And no later than it need be: the deadline is the scheduled wait after the wrong sequence, to the millisecond. */
  lemma DeadlineExact(r: Run, i: nat)
    requires i < |r.events| && LocksOut(r, i)
    ensures var over := At(r, i + 1).failures - r.cfg.threshold;
            && over >= 1
            && Deadline(r, i) - At(r, i).now ==
               if over == 1 then 10000 else if over == 2 then 30000 else if over == 3 then 120000
               else if over == 4 then 600000 else 3600000
    ensures At(r, i + 1).lockoutUntil == Deadline(r, i)
  {
    hide Step;
    LockoutSchedule(r.cfg.threshold, At(r, i + 1).failures, At(r, i + 1).failures);
    LockoutStarts(r, i);
  }

  /** From the deadline on, taps on a locked device count again. */
  lemma TapsAfterDeadline(cfg: Cfg, c: Core, double: bool)
    requires c.now >= c.lockoutUntil
    ensures Step(cfg, c, TapOf(double)) == c.(acc := AddTap(cfg.alphabet, c.acc, double))
  {
  }

  /** A wrong guess, a prompt, a tap under it, its expiry, and a silence. */
  function PromptEvents(): (es: seq<Event>)
  {
    [TapOf(false), Silence(true, true), Request(Pair, 7), TapOf(false), Expire(Pair), CallbackReturns, Silence(true, true)]
  }

  /** After the wrong guess. */
  lemma PromptGuess(r: Run)
    requires r.cfg == Cfg(StdtPlain, 0, 600000, false) && r.boot == Boot(r.cfg, None, None, true, true)
    requires r.events == PromptEvents()
    ensures At(r, 1) == r.boot.(acc := Acc([1], 0, 0, []))
    ensures At(r, 2) == r.boot.(failures := 1, storedFails := Some(1), lockoutUntil := 10000)
  {
    assert !Matches([1], r.boot.unlockSeq);
    hide HasInvalid, Matches, Triplets;
    assert At(r, 1) == r.boot.(acc := Acc([1], 0, 0, []));
  }

  /** Under the prompt. */
  lemma PromptTapped(r: Run)
    requires r.cfg == Cfg(StdtPlain, 0, 600000, false) && r.boot == Boot(r.cfg, None, None, true, true)
    requires r.events == PromptEvents()
    ensures At(r, 4) == At(r, 2).(state := AwaitingPair, pending := Some(7), acc := Acc([1], 0, 0, []))
  {
    PromptGuess(r);
    hide Process, Triplets;
    assert At(r, 3) == At(r, 2).(state := AwaitingPair, pending := Some(7));
  }

  /** After the prompt has expired. */
  lemma PromptStates(r: Run)
    requires r.cfg == Cfg(StdtPlain, 0, 600000, false) && r.boot == Boot(r.cfg, None, None, true, true)
    requires r.events == PromptEvents()
    ensures At(r, 1) == r.boot.(acc := Acc([1], 0, 0, []))
    ensures At(r, 2) == r.boot.(failures := 1, storedFails := Some(1), lockoutUntil := 10000)
    ensures At(r, 6) == At(r, 2).(acc := Acc([1], 0, 0, []))
  {
    PromptGuess(r);
    PromptTapped(r);
    hide Process, Triplets, AddTap;
    assert At(r, 5) == At(r, 4).(state := Locked, pending := None, window := Open(7, TimedOut, false));
  }

  /** The condition on prompts is needed: taps made under a prompt are evaluated inside the lockout once it expires. */
  lemma PromptOpensLockout(r: Run)
    requires r.cfg == Cfg(StdtPlain, 0, 600000, false) && r.boot == Boot(r.cfg, None, None, true, true)
    requires r.events == PromptEvents()
    ensures LocksOut(r, 1) && Evaluated(r, 6).Some? && At(r, 6).state.Locked? && At(r, 6).now < Deadline(r, 1)
  {
    hide At, Triplets;
    PromptStates(r);
  }

  lemma ClearlessStep(cfg: Cfg, c: Core, e: Event)
    requires !Clears(cfg, c, e)
    ensures Step(cfg, c, e).lockoutUntil == c.lockoutUntil && Step(cfg, c, e).now >= c.now
  {
    hide AddTap, CloseDigit, Triplets;
  }

  /** A lockout starts and ends only where the accumulator is cleared. */
  lemma {:induction false} LockoutSince(r: Run, k: nat, n: nat)
    requires n <= |r.events| && Start(r, n) <= k <= n
    ensures At(r, k).lockoutUntil == At(r, n).lockoutUntil && At(r, k).now <= At(r, n).now
    decreases n
  {
    hide Step, Clears;
    if k < n {
      LockoutSince(r, k, n - 1);
      ClearlessStep(r.cfg, At(r, n - 1), r.events[n - 1]);
    }
  }

  /** The user tapped at event `k`, the device not being locked. */
  predicate TapsOpen(r: Run, k: nat)
    requires k < |r.events|
  {
    r.events[k].TapOf? && !At(r, k).state.Locked?
  }

  lemma {:induction false} TapsEntered(r: Run, s: nat, n: nat)
    requires s <= n <= |r.events| && forall k :: s <= k < n ==> InLockout(At(r, k))
    ensures HasTap(Entered(r, s, n)) <==> exists k :: s <= k < n && TapsOpen(r, k)
    decreases n
  {
    hide At, InLockout;
    if s < n {
      TapsEntered(r, s, n - 1);
      var xs, x := Entered(r, s, n - 1), InputOf(r.cfg, At(r, n - 1), r.events[n - 1], n - 1);
      assert InLockout(At(r, n - 1));
      assert HasTap(x) <==> TapsOpen(r, n - 1) by {
        if TapsOpen(r, n - 1) { assert x[0].Tap?; }
      }
      assert HasTap(xs + x) <==> HasTap(xs) || HasTap(x) by {
        assert forall i :: 0 <= i < |xs| ==> (xs + x)[i] == xs[i];
        assert forall i :: 0 <= i < |x| ==> (xs + x)[|xs| + i] == x[i];
      }
    }
  }

  /** A digit is being tapped: the next silence closes the digit, not the sequence. */
  predicate DigitOpen(a: Alphabet, acc: Acc)
  {
    a.CountColor? && acc.phase == 1
  }

  lemma CompleteTapped(a: Alphabet, xs: seq<Input>)
    ensures Complete(a, Fold(a, xs)).Some? <==> HasTap(xs) && !DigitOpen(a, Fold(a, xs))
  {
    FoldTapped(a, xs);
    FoldShape(a, xs);
  }

  /**
   Exactly what is evaluated inside a lockout: at a silence that closes a sequence, what
   holds a tap made while the device was not locked, since the accumulator was last cleared.
   */
  lemma EvaluatedInLockout(r: Run, n: nat)
    requires Booted(r) && n < |r.events| && At(r, n).state.Locked? && InLockout(At(r, n))
    ensures Evaluated(r, n).Some? <==>
            && r.events[n].Silence? && At(r, n).window.Closed? && !DigitOpen(r.cfg.alphabet, At(r, n).acc)
            && exists k :: Start(r, n) <= k < n && TapsOpen(r, k)
  {
    hide Step, Fold, Complete, TapsOpen;
    AccIsEntered(r, n);
    forall k | Start(r, n) <= k < n
      ensures InLockout(At(r, k))
    {
      LockoutSince(r, k, n);
    }
    TapsEntered(r, Start(r, n), n);
    CompleteTapped(r.cfg.alphabet, Entered(r, Start(r, n), n));
  }
}
