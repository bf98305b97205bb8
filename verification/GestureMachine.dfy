/** The gesture module's variables, and its functions that change them in place. */
module GestureMachine {
  import opened Octets
  import opened GestureInput
  import opened Gesture

  class Machine {
    const cfg: Cfg

    var state: State
    var pre: State
    var acc: Acc
    var unlockSeq: Digits
    var usingDefault: bool
    var forced: bool
    var newSeq: Digits
    var lastActivity: nat
    var failures: u32
    var lockoutUntil: nat
    var pending: Option<nat>
    var window: Window
    var now: nat
    var storedSeq: Option<Digits>
    var storedFails: Option<u32>

    function Val(): (c: Core)
      reads this
    {
      Core(state, pre, acc, unlockSeq, usingDefault, forced, newSeq, lastActivity, failures, lockoutUntil,
           pending, window, now, storedSeq, storedFails)
    }

    /** The digit and bit buffers never outgrow their arrays, nor the tap count its octet. */
    predicate Valid()
      reads this
    {
      |acc.digits| <= SEQ_MAX_LEN && |acc.bits| <= SEQ_MAX_LEN * 3 && acc.cur <= 0xFF
    }

    /** gesture_init at power-on. */
    constructor (cfg: Cfg, storedSeq: Option<Digits>, storedFails: Option<u32>, seqRead: bool, failsRead: bool)
      ensures Valid() && this.cfg == cfg && Val() == Boot(cfg, storedSeq, storedFails, seqRead, failsRead)
    {
      this.cfg := cfg;
      state, pre, acc, forced, newSeq := Locked, Locked, EMPTY, false, [];
      lastActivity, lockoutUntil, pending, window, now := 0, 0, None, Closed, 0;
      this.storedSeq, this.storedFails := storedSeq, storedFails;
      var s := LoadedSeq(cfg.alphabet, storedSeq, seqRead);
      unlockSeq, usingDefault := s, s == UnlockDefault(cfg.alphabet);
      failures := if failsRead && storedFails.Some? then storedFails.value else 0;
    }

    method ReportTap(double: bool)
      requires Valid()
      modifies this`acc
      ensures Valid() && Val() == Step(cfg, old(Val()), TapOf(double))
    {
      if state.Locked? && lockoutUntil != 0 && now < lockoutUntil {
        return;
      }
      match cfg.alphabet {
        case CountColor(_) =>
          var inc := if double then 2 else 1;
          if acc.cur + inc <= 0xFF {
            acc := acc.(cur := acc.cur + inc);
          }
          acc := acc.(phase := 1);
        case StdtBinary =>
          if |acc.bits| < SEQ_MAX_LEN * 3 {
            acc := acc.(bits := acc.bits + [if double then 1 else 0]);
          }
        case StdtPlain =>
          if |acc.digits| < SEQ_MAX_LEN {
            acc := acc.(digits := acc.digits + [if double then 2 else 1]);
          }
      }
    }

    method NoteUnlockFailure(kept: bool)
      modifies this`failures, this`storedFails, this`lockoutUntil
      ensures Val() == NoteFailure(cfg, old(Val()), kept)
      ensures failures == if old(failures) == 0xFFFF_FFFF then 0 else old(failures) + 1
      ensures var over := failures - cfg.threshold;
              lockoutUntil == if over <= 0 then old(lockoutUntil)
                              else now + if over == 1 then 10000 else if over == 2 then 30000 else if over == 3 then 120000
                                         else if over == 4 then 600000 else 3600000
    {
      failures := (failures + 1) % TWO_32;
      if kept {
        storedFails := Some(failures);
      }
      if failures > cfg.threshold {
        lockoutUntil := now + LockoutSeconds(cfg.threshold, failures) * 1000;
      }
    }

    method NoteUnlockSuccess(kept: bool)
      modifies this`failures, this`storedFails, this`lockoutUntil
      ensures Val() == NoteSuccess(old(Val()), kept)
    {
      if failures != 0 {
        failures, lockoutUntil := 0, 0;
        if kept {
          storedFails := Some(0);
        }
      }
    }

    /** Up to the point where the callback runs with the mutex dropped. */
    method DeliverConfirm(result: Result, resetAfter: bool)
      modifies this`pending, this`window
      ensures Val() == Deliver(old(Val()), result, resetAfter)
    {
      var cb := pending;
      pending := None;
      if cb.Some? {
        window := Open(cb.value, result, resetAfter);
      }
    }

    method AnswerRequest(d: Digits, invalid: bool, expected: Digits, next: State)
      requires invalid == HasInvalid(d) && next == Back(Val())
      modifies this`state, this`pending, this`window
      ensures Val() == Answer(old(Val()), d, expected)
    {
      state := next;
      if !invalid && d == expected {
        DeliverConfirm(Ok, true);
      } else {
        DeliverConfirm(Denied, true);
      }
    }

    method ProcessWhileLocked(d: Digits, invalid: bool, failsKept: bool)
      requires invalid == HasInvalid(d)
      modifies this
      ensures Val() == ProcessLocked(cfg, old(Val()), d, failsKept)
    {
      if !invalid && d == unlockSeq {
        NoteUnlockSuccess(failsKept);
        if usingDefault {
          forced := true;
          state := ChangeConfirm;
        } else {
          state := Unlocked;
        }
      } else {
        NoteUnlockFailure(failsKept);
      }
    }

    method ProcessWhileVerifying(d: Digits, invalid: bool, seqKept: bool)
      requires invalid == HasInvalid(d)
      modifies this
      ensures Val() == ProcessVerify(cfg.alphabet, old(Val()), d, seqKept)
    {
      if !invalid && d == newSeq {
        unlockSeq := newSeq;
        usingDefault := unlockSeq == UnlockDefault(cfg.alphabet);
        forced := false;
        if seqKept {
          storedSeq := Some(unlockSeq);
        }
        state := Unlocked;
      } else if forced {
        forced := false;
        state := Locked;
      } else {
        state := Unlocked;
      }
    }

    method ProcessSequence(d: Digits, seqKept: bool, failsKept: bool)
      modifies this
      ensures Val() == Process(cfg, old(Val()), d, seqKept, failsKept)
    {
      var invalid := SeqHasInvalid(d);
      match state {
        case Locked => ProcessWhileLocked(d, invalid, failsKept);
        case Unlocked =>
          if invalid {
          } else if d == LockSeq(cfg.alphabet) {
            state := Locked;
          } else if d == PairingTrigger(cfg.alphabet) {
            state := Pairing;
          } else if d == ChangeTrigger(cfg.alphabet) {
            state := ChangeConfirm;
          }
        case ChangeConfirm =>
          if !invalid && 0 < |d| <= SEQ_MAX_LEN {
            newSeq := d;
            state := ChangeVerify;
          }
        case ChangeVerify => ProcessWhileVerifying(d, invalid, seqKept);
        case AwaitingConfirm => AnswerRequest(d, invalid, ConfirmSeq(cfg.alphabet), Unlocked);
        case AwaitingReset => AnswerRequest(d, invalid, unlockSeq, pre);
        case AwaitingPair => AnswerRequest(d, invalid, PairingTrigger(cfg.alphabet), pre);
        case Pairing =>
      }
    }

    /** The silence timer. Timer handlers wait for a running callback to return. */
    method SilenceTimeout(seqKept: bool, failsKept: bool)
      requires Valid() && window.Closed?
      modifies this
      ensures Valid() && Val() == Step(cfg, old(Val()), Silence(seqKept, failsKept))
    {
      hide Process, Triplets;
      if cfg.alphabet.CountColor? {
        if acc.phase == 1 {
          acc := CloseDigit(cfg.alphabet.palette, acc);
          return;
        }
        acc := acc.(phase := 0);
      } else if cfg.alphabet.StdtBinary? {
        var d := CloseBinary(acc.bits);
        acc := acc.(digits := d, bits := []);
        if d == [] {
          acc := EMPTY;
        }
      }
      if |acc.digits| > 0 {
        ProcessSequence(acc.digits, seqKept, failsKept);
        if window.Closed? {
          acc := EMPTY;
        }
      }
    }

    /** The confirm, reset and pairing timeouts. */
    method RequestTimeout(k: Kind)
      requires Valid() && window.Closed?
      modifies this
      ensures Valid() && Val() == Step(cfg, old(Val()), Expire(k))
    {
      if state == Awaiting(k) {
        state := if k.Confirm? then Unlocked else pre;
        DeliverConfirm(TimedOut, false);
      }
    }

    /** The callback has returned and the mutex is held again. */
    method CallbackReturned()
      requires Valid()
      modifies this`window, this`acc
      ensures Valid() && Val() == Step(cfg, old(Val()), CallbackReturns)
    {
      if window.Open? {
        if window.resetAfter {
          acc := EMPTY;
        }
        window := Closed;
      }
    }

    method RequestFromHost(k: Kind, cb: nat) returns (code: Code)
      requires Valid()
      modifies this
      ensures Valid() && Val() == Step(cfg, old(Val()), Request(k, cb))
      ensures code == RequestCode(cfg, old(Val()), k)
    {
      var open := state.Unlocked? || (state.Locked? && (k.Pair? || (k.Reset? && !cfg.resetRequiresUnlock)));
      if !open {
        return Busy;
      }
      if pending.Some? {
        return Already;
      }
      pending := Some(cb);
      if !k.Confirm? {
        pre := state;
      }
      acc := EMPTY;
      state := Awaiting(k);
      return Done;
    }

    method SetUnlockSequence(s: Digits, kept: bool) returns (code: Code)
      requires Valid()
      modifies this
      ensures Valid() && Val() == Step(cfg, old(Val()), SetUnlockSeq(s, kept))
      ensures code == SetCode(old(Val()), s, kept)
    {
      if |s| == 0 || |s| > SEQ_MAX_LEN {
        return Invalid;
      }
      if state != Unlocked {
        return Busy;
      }
      unlockSeq := s;
      usingDefault := unlockSeq == UnlockDefault(cfg.alphabet);
      if !kept {
        return NotKept;
      }
      storedSeq := Some(unlockSeq);
      return Done;
    }

    /** Reports the state, locking first when the device has been idle too long: never Unlocked then. */
    method ReadState() returns (s: State)
      requires Valid()
      modifies this`state
      ensures Valid() && Val() == Step(cfg, old(Val()), GetState)
      ensures s == state && (s.Unlocked? ==> now - lastActivity < cfg.inactivityMs)
    {
      s := state;
      if s.Unlocked? && now - lastActivity >= cfg.inactivityMs {
        state := Locked;
        s := Locked;
      }
    }

    method ResetInactivityTimer()
      requires Valid()
      modifies this`lastActivity
      ensures Valid() && Val() == Step(cfg, old(Val()), Activity)
    {
      lastActivity := now;
    }
  }
}
