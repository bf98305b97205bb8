/** More of what holds over every run of the gesture machine: prompts, idling, and where its states and its sequence come from. */
module GestureRules {
  import opened Octets
  import opened GestureInput
  import opened Gesture
  import opened GestureRuns
  import opened GestureSafety

  // -------------------------------------------------------------------- prompts

  lemma StepPre(cfg: Cfg, c: Core, e: Event)
    requires Sound(c) && c.pending.Some? && Step(cfg, c, e).pending == c.pending
    ensures Step(cfg, c, e).pre == c.pre
  {
  }

  lemma StepAsks(cfg: Cfg, c: Core, e: Event)
    requires e.Request? && RequestCode(cfg, c, e.kind) == Done
    ensures e.kind.Confirm? ==> c.state.Unlocked?
    ensures !e.kind.Confirm? ==> Step(cfg, c, e).pre == c.state
  {
  }

  lemma {:induction false} PreHeld(r: Run, i: nat, n: nat, k: Kind, cb: nat, m: nat)
    requires Booted(r) && n <= |r.events| && Held(r, i, n, k, cb) && i < m <= n && !k.Confirm?
    ensures At(r, m).pre == At(r, i).state
    decreases m
  {
    hide Step, Start;
    var c, e := At(r, m - 1), r.events[m - 1];
    assert At(r, m).pending == Some(cb);
    if m == i + 1 {
      StepAsks(r.cfg, c, e);
    } else {
      PreHeld(r, i, n, k, cb, m - 1);
      RunSound(r, m - 1);
      assert At(r, m - 1).pending == Some(cb);
      StepPre(r.cfg, c, e);
    }
  }

  lemma StepBack(cfg: Cfg, c: Core, e: Event, k: Kind)
    requires c.window.Closed? && Step(cfg, c, e).window.Open? && c.state == Awaiting(k)
    ensures Step(cfg, c, e).state == if k.Confirm? then Unlocked else c.pre
  {
  }

  /** However a prompt ends, the device is then in the state in which the prompt was opened. */
  lemma PromptReturns(r: Run, n: nat) returns (i: nat, k: Kind)
    requires Booted(r) && n < |r.events| && Delivers(r, n)
    ensures Held(r, i, n, k, At(r, n + 1).window.cb) && At(r, n + 1).state == At(r, i).state
  {
    hide Step;
    RunSound(r, n);
    StepPending(r.cfg, At(r, n), r.events[n]);
    i, k := PendingHeld(r, n);
    StepBack(r.cfg, At(r, n), r.events[n], k);
    if k.Confirm? {
      StepAsks(r.cfg, At(r, i), r.events[i]);
    } else {
      PreHeld(r, i, n, k, At(r, n + 1).window.cb, n);
    }
  }

  // --------------------------------------------------------------------- idling

  /** When the host was last active, in time since boot. */
  function LastActive(r: Run, n: nat): (t: nat)
    requires n <= |r.events|
  {
    if n == 0 || r.events[n - 1].Reboot? then 0
    else if r.events[n - 1].Activity? then At(r, n - 1).now
    else LastActive(r, n - 1)
  }

  lemma ProcessActivity(cfg: Cfg, c: Core, d: Digits, seqKept: bool, failsKept: bool)
    ensures Process(cfg, c, d, seqKept, failsKept).lastActivity == c.lastActivity
  {
    hide LockoutSeconds, HasInvalid, NextCount, Matches, LockSeq, PairingTrigger, ChangeTrigger, ConfirmSeq, UnlockDefault;
  }

  lemma StepActivity(cfg: Cfg, c: Core, e: Event)
    ensures Step(cfg, c, e).lastActivity == if e.Reboot? then 0 else if e.Activity? then c.now else c.lastActivity
  {
    hide Process, AddTap, Triplets, CloseDigit, UnlockDefault;
    if e.Silence? && c.window.Closed? && Complete(cfg.alphabet, c.acc).Some? {
      var c1 := c.(acc := Closing(cfg.alphabet, c.acc));
      ProcessActivity(cfg, c1, Complete(cfg.alphabet, c.acc).value, e.seqKept, e.failsKept);
    }
  }

  lemma {:induction false} LastActivityIs(r: Run, n: nat)
    requires Booted(r) && n <= |r.events|
    ensures At(r, n).lastActivity == LastActive(r, n)
  {
    hide Step;
    if n > 0 {
      LastActivityIs(r, n - 1);
      StepActivity(r.cfg, At(r, n - 1), r.events[n - 1]);
    }
  }

  /** Asking for the state locks an unlocked device exactly when the host has been inactive for the configured time. */
  lemma LocksWhenIdle(r: Run, n: nat)
    requires Booted(r) && n < |r.events| && r.events[n].GetState? && At(r, n).state.Unlocked?
    ensures At(r, n + 1) == At(r, n).(state := if At(r, n).now >= LastActive(r, n) + r.cfg.inactivityMs then Locked else Unlocked)
  {
    LastActivityIs(r, n);
  }

  // ------------------------------------------------------------- leaving unlocked

  /** What a sequence entered on an unlocked device leads to. */
  predicate Commands(a: Alphabet, d: Digits, s: State)
  {
    match a
    case CountColor(_) => (d == [1] && s.Locked?) || (d == [2, 2] && s.Pairing?) || (d == [3, 3, 3] && s.ChangeConfirm?)
    case StdtBinary => (d == [0] && s.Locked?) || (d == [1, 1] && s.Pairing?) || (d == [2, 2, 2] && s.ChangeConfirm?)
    case StdtPlain =>
      (d == [1] && s.Locked?) || (d == [2, 2, 1, 1] && s.Pairing?) || (d == [2, 1, 2, 1] && s.ChangeConfirm?)
  }

  lemma StepLeaves(cfg: Cfg, c: Core, e: Event)
    requires c.state.Unlocked? && !Step(cfg, c, e).state.Unlocked?
    ensures var d := if e.Silence? && c.window.Closed? then Complete(cfg.alphabet, c.acc) else None;
            || e.Reboot? || (e.Request? && RequestCode(cfg, c, e.kind) == Done)
            || (e.GetState? && c.now - c.lastActivity >= cfg.inactivityMs && Step(cfg, c, e).state.Locked?)
            || (d.Some? && Commands(cfg.alphabet, d.value, Step(cfg, c, e).state))
  {
    hide Triplets, HasInvalid;
  }

  /** An unlocked device stays so until a reboot, a prompt, a lapse of activity, or one of the three sequences entered on it. */
  lemma LeavesUnlocked(r: Run, n: nat)
    requires Booted(r) && n < |r.events| && At(r, n).state.Unlocked? && !At(r, n + 1).state.Unlocked?
    ensures || r.events[n].Reboot? || Accepts(r, n)
            || (r.events[n].GetState? && At(r, n).now >= LastActive(r, n) + r.cfg.inactivityMs && At(r, n + 1).state.Locked?)
            || (&& Evaluated(r, n).Some? && Commands(r.cfg.alphabet, Evaluated(r, n).value, At(r, n + 1).state)
                && Evaluated(r, n).value == DigitsOf(r.cfg.alphabet, Entered(r, Start(r, n), n)))
  {
    hide Step, Commands;
    StepLeaves(r.cfg, At(r, n), r.events[n]);
    LastActivityIs(r, n);
    if Evaluated(r, n).Some? {
      EvaluatedIsEntered(r, n);
    }
  }

  // --------------------------------------------------------- the unlock sequence

  lemma ProcessVerifies(cfg: Cfg, c: Core, d: Digits, seqKept: bool, failsKept: bool)
    requires Sound(c) && Process(cfg, c, d, seqKept, failsKept).state.ChangeVerify?
    ensures var c1 := Process(cfg, c, d, seqKept, failsKept);
            c.state.ChangeConfirm? && d == c1.newSeq && !HasInvalid(d) && |d| <= SEQ_MAX_LEN
  {
    hide LockoutSeconds, HasInvalid, NextCount, Matches, LockSeq, PairingTrigger, ChangeTrigger, ConfirmSeq, UnlockDefault;
  }

  lemma StepVerify(cfg: Cfg, c: Core, e: Event)
    requires Sound(c) && Step(cfg, c, e).state.ChangeVerify?
    ensures var d := if e.Silence? && c.window.Closed? then Complete(cfg.alphabet, c.acc) else None;
            var c1 := Step(cfg, c, e);
            if c.state.ChangeVerify? then d.None? && c1.newSeq == c.newSeq
            else c.state.ChangeConfirm? && d == Some(c1.newSeq) && !HasInvalid(c1.newSeq) && |c1.newSeq| <= SEQ_MAX_LEN
  {
    hide Process, AddTap, CloseDigit, Triplets, HasInvalid, UnlockDefault;
    if e.Silence? && c.window.Closed? && Complete(cfg.alphabet, c.acc).Some? {
      var c1 := c.(acc := Closing(cfg.alphabet, c.acc));
      ProcessVerifies(cfg, c1, Complete(cfg.alphabet, c.acc).value, e.seqKept, e.failsKept);
    }
  }

  lemma {:induction false} VerifyAfterChoice(r: Run, n: nat) returns (j: nat)
    requires Booted(r) && n <= |r.events| && At(r, n).state.ChangeVerify?
    ensures j < n && At(r, j).state.ChangeConfirm? && Evaluated(r, j) == Some(At(r, n).newSeq) && !HasInvalid(At(r, n).newSeq)
    ensures |At(r, n).newSeq| <= SEQ_MAX_LEN && forall m :: j < m < n ==> Evaluated(r, m).None?
  {
    hide Step, HasInvalid;
    assert n > 0;
    RunSound(r, n - 1);
    StepVerify(r.cfg, At(r, n - 1), r.events[n - 1]);
    if At(r, n - 1).state.ChangeVerify? {
      j := VerifyAfterChoice(r, n - 1);
    } else {
      j := n - 1;
    }
  }

  lemma ProcessKeepsSequence(cfg: Cfg, c: Core, d: Digits, seqKept: bool, failsKept: bool)
    ensures var s := Process(cfg, c, d, seqKept, failsKept).unlockSeq;
            s == c.unlockSeq || (c.state.ChangeVerify? && d == s == c.newSeq)
  {
    hide LockoutSeconds, HasInvalid, NextCount, LockSeq, PairingTrigger, ChangeTrigger, ConfirmSeq, UnlockDefault;
  }

  lemma StepSequence(cfg: Cfg, c: Core, e: Event)
    requires !e.Reboot? && Step(cfg, c, e).unlockSeq != c.unlockSeq
    ensures var d := if e.Silence? && c.window.Closed? then Complete(cfg.alphabet, c.acc) else None;
            var s := Step(cfg, c, e).unlockSeq;
            || (e.SetUnlockSeq? && c.state.Unlocked? && e.seqn == s && 0 < |s| <= SEQ_MAX_LEN)
            || (c.state.ChangeVerify? && d == Some(s) && s == c.newSeq)
  {
    hide Process, AddTap, CloseDigit, Triplets, UnlockDefault;
    if e.Silence? && c.window.Closed? && Complete(cfg.alphabet, c.acc).Some? {
      var c1 := c.(acc := Closing(cfg.alphabet, c.acc));
      ProcessKeepsSequence(cfg, c1, Complete(cfg.alphabet, c.acc).value, e.seqKept, e.failsKept);
    }
  }

  /**
    Short of a reboot, the sequence that unlocks changes only by the host, on an unlocked device, or
    by the user, who has entered the new one twice in a row, valid and of at most sixteen digits.
   */
  lemma SequenceChangedBy(r: Run, n: nat) returns (j: nat)
    requires Booted(r) && n < |r.events| && !r.events[n].Reboot? && At(r, n + 1).unlockSeq != At(r, n).unlockSeq
    ensures var s := At(r, n + 1).unlockSeq;
            || (At(r, n).state.Unlocked? && r.events[n].SetUnlockSeq? && r.events[n].seqn == s && 0 < |s| <= SEQ_MAX_LEN)
            || (&& j < n && At(r, j).state.ChangeConfirm? && Evaluated(r, j) == Evaluated(r, n) == Some(s)
                && !HasInvalid(s) && |s| <= SEQ_MAX_LEN && forall m :: j < m < n ==> Evaluated(r, m).None?)
  {
    hide Step, HasInvalid;
    StepSequence(r.cfg, At(r, n), r.events[n]);
    j := 0;
    if At(r, n).state.ChangeVerify? {
      j := VerifyAfterChoice(r, n);
    }
  }
}
