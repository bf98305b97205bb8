/**
  The gesture state machine: what taps, timer fires, host requests, the passing of time and a
  reboot each do to its state.
 */
module Gesture {
  import opened Octets
  import opened GestureInput

  datatype State =
    | Locked | Unlocked | Pairing
    | AwaitingConfirm | AwaitingReset | AwaitingPair
    | ChangeConfirm | ChangeVerify

  /** What a host can ask the user for. */
  datatype Kind = Confirm | Reset | Pair

  datatype Result = Ok | Denied | TimedOut

  /** The stretch in which the mutex is dropped and a callback runs with its result. */
  datatype Window = Closed | Open(cb: nat, result: Result, resetAfter: bool)

  datatype Cfg = Cfg(alphabet: Alphabet, threshold: u32, inactivityMs: nat, resetRequiresUnlock: bool)

  /** The machine's variables, the clock, and what storage holds. */
  datatype Core = Core(
    state: State, pre: State, acc: Acc,
    unlockSeq: Digits, usingDefault: bool, forced: bool, newSeq: Digits,
    lastActivity: nat, failures: u32, lockoutUntil: nat,
    pending: Option<nat>, window: Window, now: nat,
    storedSeq: Option<Digits>, storedFails: Option<u32>)

  /**
    One step. The booleans say whether a storage access succeeds: on a silence, the writes of the
    sequence and of the failure count; on a reboot, the two reads.
   */
  datatype Event =
    | TapOf(double: bool)
    | Silence(seqKept: bool, failsKept: bool)
    | Expire(kind: Kind)
    | CallbackReturns
    | Request(kind: Kind, cb: nat)
    | SetUnlockSeq(seqn: Digits, kept: bool)
    | GetState
    | Activity
    | Clock(ms: nat)
    | Reboot(seqRead: bool, failsRead: bool)

  function Awaiting(k: Kind): (s: State)
  {
    match k case Confirm => AwaitingConfirm case Reset => AwaitingReset case Pair => AwaitingPair
  }

  predicate IsAwaiting(s: State)
  {
    s.AwaitingConfirm? || s.AwaitingReset? || s.AwaitingPair?
  }

  /** Where an answered or expired request leaves the machine. */
  function Back(c: Core): (s: State)
  {
    if c.state.AwaitingConfirm? then Unlocked else c.pre
  }

  /** The sequence that answers a request. */
  function Right(a: Alphabet, k: Kind, unlockSeq: Digits): (d: Digits)
  {
    match k case Confirm => ConfirmSeq(a) case Reset => unlockSeq case Pair => PairingTrigger(a)
  }

  predicate Matches(d: Digits, s: Digits)
  {
    !HasInvalid(d) && d == s
  }

  // ---------------------------------------------------------------- rate limit

  function LockoutSeconds(threshold: nat, c: nat): (s: nat)
    requires c > threshold
    ensures s >= 10
  {
    match c - threshold case 1 => 10 case 2 => 30 case 3 => 120 case 4 => 600 case _ => 3600
  }

  predicate InLockout(c: Core)
  {
    c.lockoutUntil != 0 && c.now < c.lockoutUntil
  }

  function NextCount(n: u32): (r: u32)
  {
    (n + 1) % TWO_32
  }

  function NoteFailure(cfg: Cfg, c: Core, kept: bool): (r: Core)
  {
    var n := NextCount(c.failures);
    c.(failures := n,
       storedFails := if kept then Some(n) else c.storedFails,
       lockoutUntil := if n > cfg.threshold then c.now + LockoutSeconds(cfg.threshold, n) * 1000 else c.lockoutUntil)
  }

  function NoteSuccess(c: Core, kept: bool): (r: Core)
  {
    if c.failures == 0 then c
    else c.(failures := 0, lockoutUntil := 0, storedFails := if kept then Some(0) else c.storedFails)
  }

  // ------------------------------------------------------------------ sequences

  /** The sequence a silence completes, if it completes one. */
  function Complete(a: Alphabet, acc: Acc): (d: Option<Digits>)
  {
    if a.CountColor? && acc.phase == 1 then None
    else
      var d := if a.StdtBinary? then Triplets(acc.bits) else acc.digits;
      if d == [] then None else Some(d)
  }

  /** A silence that completes no sequence: it may close a digit. */
  function Hush(a: Alphabet, acc: Acc): (r: Acc)
  {
    match a
    case CountColor(palette) => if acc.phase == 1 then CloseDigit(palette, acc) else acc.(phase := 0)
    case StdtBinary => EMPTY
    case StdtPlain => acc
  }

  /** The accumulator while its completed sequence is processed. */
  function Closing(a: Alphabet, acc: Acc): (r: Acc)
  {
    match a
    case CountColor(_) => acc.(phase := 0)
    case StdtBinary => acc.(digits := Triplets(acc.bits), bits := [])
    case StdtPlain => acc
  }

  /** deliver_confirm up to the callback: the pending callback is taken and runs with the mutex dropped. */
  function Deliver(c: Core, result: Result, resetAfter: bool): (r: Core)
  {
    if c.pending.None? then c
    else c.(pending := None, window := Open(c.pending.value, result, resetAfter))
  }

  function Answer(c: Core, d: Digits, expected: Digits): (r: Core)
  {
    Deliver(c.(state := Back(c)), if Matches(d, expected) then Ok else Denied, true)
  }

  function ProcessLocked(cfg: Cfg, c: Core, d: Digits, failsKept: bool): (r: Core)
  {
    if Matches(d, c.unlockSeq) then
      var c1 := NoteSuccess(c, failsKept);
      if c.usingDefault then c1.(forced := true, state := ChangeConfirm) else c1.(state := Unlocked)
    else NoteFailure(cfg, c, failsKept)
  }

  function ProcessUnlocked(a: Alphabet, c: Core, d: Digits): (r: Core)
  {
    if HasInvalid(d) then c
    else if d == LockSeq(a) then c.(state := Locked)
    else if d == PairingTrigger(a) then c.(state := Pairing)
    else if d == ChangeTrigger(a) then c.(state := ChangeConfirm)
    else c
  }

  function ProcessVerify(a: Alphabet, c: Core, d: Digits, seqKept: bool): (r: Core)
  {
    if Matches(d, c.newSeq) then
      c.(unlockSeq := c.newSeq, usingDefault := c.newSeq == UnlockDefault(a), forced := false,
         storedSeq := if seqKept then Some(c.newSeq) else c.storedSeq, state := Unlocked)
    else if c.forced then c.(forced := false, state := Locked)
    else c.(state := Unlocked)
  }

  /** process_sequence on a completed sequence. It leaves the clearing of the accumulator to its caller. */
  function Process(cfg: Cfg, c: Core, d: Digits, seqKept: bool, failsKept: bool): (r: Core)
    ensures r.acc == c.acc && r.now == c.now
  {
    match c.state
    case Locked => ProcessLocked(cfg, c, d, failsKept)
    case Unlocked => ProcessUnlocked(cfg.alphabet, c, d)
    case ChangeConfirm =>
      if !HasInvalid(d) && 0 < |d| <= SEQ_MAX_LEN then c.(newSeq := d, state := ChangeVerify) else c
    case ChangeVerify => ProcessVerify(cfg.alphabet, c, d, seqKept)
    case AwaitingConfirm => Answer(c, d, ConfirmSeq(cfg.alphabet))
    case AwaitingReset => Answer(c, d, c.unlockSeq)
    case AwaitingPair => Answer(c, d, PairingTrigger(cfg.alphabet))
    case Pairing => c
  }

  /** silence_timeout_fn. When a callback runs, the accumulator is reset only after it returns. */
  function Silent(cfg: Cfg, c: Core, seqKept: bool, failsKept: bool): (r: Core)
  {
    match Complete(cfg.alphabet, c.acc)
    case None => c.(acc := Hush(cfg.alphabet, c.acc))
    case Some(d) =>
      var r := Process(cfg, c.(acc := Closing(cfg.alphabet, c.acc)), d, seqKept, failsKept);
      if r.window.Open? then r else r.(acc := EMPTY)
  }

  // ------------------------------------------------------------- host operations

  datatype Code = Done | Invalid | Busy | Already | NotKept

  /** What a request returns; it takes effect when the answer is Done. */
  function RequestCode(cfg: Cfg, c: Core, k: Kind): (r: Code)
  {
    var open := match k
      case Confirm => c.state.Unlocked?
      case Reset => c.state.Unlocked? || (c.state.Locked? && !cfg.resetRequiresUnlock)
      case Pair => c.state.Unlocked? || c.state.Locked?;
    if !open then Busy else if c.pending.Some? then Already else Done
  }

  function Ask(cfg: Cfg, c: Core, k: Kind, cb: nat): (r: Core)
  {
    if RequestCode(cfg, c, k) != Done then c
    else c.(pending := Some(cb), acc := EMPTY, state := Awaiting(k), pre := if k.Confirm? then c.pre else c.state)
  }

  function SetCode(c: Core, s: Digits, kept: bool): (r: Code)
  {
    if s == [] || |s| > SEQ_MAX_LEN then Invalid else if !c.state.Unlocked? then Busy
    else if !kept then NotKept else Done
  }

  function SetSeq(a: Alphabet, c: Core, s: Digits, kept: bool): (r: Core)
  {
    var code := SetCode(c, s, kept);
    if code.Invalid? || code.Busy? then c
    else c.(unlockSeq := s, usingDefault := s == UnlockDefault(a), storedSeq := if kept then Some(s) else c.storedSeq)
  }

  predicate Idle(cfg: Cfg, c: Core)
  {
    c.state.Unlocked? && c.now - c.lastActivity >= cfg.inactivityMs
  }

  // ------------------------------------------------------------------------ boot

  function LoadedSeq(a: Alphabet, stored: Option<Digits>, read: bool): (s: Digits)
  {
    if read && stored.Some? && 0 < |stored.value| <= SEQ_MAX_LEN then stored.value else UnlockDefault(a)
  }

  function Boot(cfg: Cfg, storedSeq: Option<Digits>, storedFails: Option<u32>, seqRead: bool, failsRead: bool): (c: Core)
  {
    var s := LoadedSeq(cfg.alphabet, storedSeq, seqRead);
    Core(Locked, Locked, EMPTY, s, s == UnlockDefault(cfg.alphabet), false, [], 0,
         if failsRead && storedFails.Some? then storedFails.value else 0,
         0, None, Closed, 0, storedSeq, storedFails)
  }

  /** Timer handlers share one work queue, so none runs while a callback does. */
  function Step(cfg: Cfg, c: Core, e: Event): (r: Core)
  {
    match e
    case TapOf(double) =>
      if c.state.Locked? && InLockout(c) then c else c.(acc := AddTap(cfg.alphabet, c.acc, double))
    case Silence(seqKept, failsKept) => if c.window.Open? then c else Silent(cfg, c, seqKept, failsKept)
    case Expire(k) =>
      if c.window.Open? || c.state != Awaiting(k) then c else Deliver(c.(state := Back(c)), TimedOut, false)
    case CallbackReturns =>
      if c.window.Closed? then c
      else c.(window := Closed, acc := if c.window.resetAfter then EMPTY else c.acc)
    case Request(k, cb) => Ask(cfg, c, k, cb)
    case SetUnlockSeq(s, kept) => SetSeq(cfg.alphabet, c, s, kept)
    case GetState => if Idle(cfg, c) then c.(state := Locked) else c
    case Activity => c.(lastActivity := c.now)
    case Clock(ms) => c.(now := c.now + ms)
    case Reboot(seqRead, failsRead) => Boot(cfg, c.storedSeq, c.storedFails, seqRead, failsRead)
  }
}
