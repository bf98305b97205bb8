/**
  The command dispatcher over the gesture machine and the key slots. The host's thread runs one
  command at a time; commands that need the user ask for a confirmation, wait on a semaphore that
  the confirmation's callback gives, and go on when it is taken.
 */
module Dispatcher {
  import opened Octets
  import opened GestureInput
  import opened Gesture
  import opened GestureRuns
  import opened GestureSafety
  import Typing = GestureTyping
  import K = KeySlots

  const DEVICE_STATUS := 0x30
  const RESET_DEVICE := 0x32
  const UPDATE_FIRMWARE := 0x33
  const PROVISION_CA := 0x34
  const GEN_KEY := 0x21
  const SIGN_CSR := 0x01
  const PUSH_CA_CERT := 0x06

  datatype Config = Config(gesture: Cfg, slots: nat)

  // --------------------------------------------------------------------- gates

  datatype Refusal = IdentityMismatch | VolumeInvalid | DeviceLocked | NotProvisioned

  /** The gates of protocol_handle_one, in order. */
  function Gate(cfg: Config, cmd: nat, recovery: bool, v: K.Volume, s: State, k: K.Keys): (r: Option<Refusal>)
  {
    if recovery && cmd != DEVICE_STATUS && cmd != RESET_DEVICE && cmd != UPDATE_FIRMWARE then Some(IdentityMismatch)
    else if !K.Trusted(v) && cmd != DEVICE_STATUS && cmd != UPDATE_FIRMWARE then Some(VolumeInvalid)
    else if s.Locked? && cmd != DEVICE_STATUS && cmd != UPDATE_FIRMWARE
            && !(cmd == RESET_DEVICE && !cfg.gesture.resetRequiresUnlock) then Some(DeviceLocked)
    else if SIGN_CSR <= cmd <= PUSH_CA_CERT && K.CA_SLOT !in k.key then Some(NotProvisioned)
    else if (cmd == PROVISION_CA || cmd == GEN_KEY) && !K.MayMint(v, k) then Some(VolumeInvalid)
    else None
  }

  // -------------------------------------------------------------------- system

  /** Commands that wait for the user. */
  datatype Job = Provision(keyType: nat) | Protection(slot: nat, on: bool)

  datatype Host = Idle | Asking(job: Job) | Waiting(job: Job)

  datatype Sys = Sys(core: Core, volume: K.Volume, recovery: bool, keys: K.Keys,
                     host: Host, sem: bool, result: Result, ran: bool)

  /** The callback of await_protect_confirm; every other callback has another number. */
  const PROTECT_CB := 1

  datatype Move =
    | Gest(e: Event)
    | StartJob(job: Job)
    | GenKey(keyType: nat, secret: nat, luck: K.Luck)
    | DeleteKey(slot: nat, wipe: K.Wipe)
    | Ask
    | RunCallback
    | Resume(secret: nat, luck: K.Luck)
    | PowerCycle(seqRead: bool, failsRead: bool, volume: K.Volume, recovery: bool)

  const NOTHING := Clock(0)

  /** The callback has been called and has not finished its body. */
  predicate Running(s: Sys)
  {
    s.core.window.Open? && s.core.window.cb == PROTECT_CB && !s.ran
  }

  /** What a move does to the gesture machine. */
  function GestureOf(s: Sys, m: Move): (e: Event)
  {
    match m
    case Gest(e) =>
      if e.Reboot? || (e.Request? && e.cb == PROTECT_CB) || (e.CallbackReturns? && Running(s)) then NOTHING else e
    case StartJob(_) => if s.host.Idle? then GetState else NOTHING
    case GenKey(_, _, _) => if s.host.Idle? then GetState else NOTHING
    case DeleteKey(_, _) => if s.host.Idle? then GetState else NOTHING
    case Ask => if s.host.Asking? then Request(Confirm, PROTECT_CB) else NOTHING
    case RunCallback => NOTHING
    case Resume(_, _) => NOTHING
    case PowerCycle(seqRead, failsRead, _, _) => Reboot(seqRead, failsRead)
  }

  const PROTECT_SLOT := 0x28
  const UNPROTECT_SLOT := 0x29
  const DELETE_KEY := 0x27

  function Opcode(t: Job): (c: nat)
  {
    match t case Provision(_) => PROVISION_CA case Protection(_, on) => if on then PROTECT_SLOT else UNPROTECT_SLOT
  }

  /** The confirmed command is carried out. */
  function Perform(cfg: Config, s: Sys, secret: nat, luck: K.Luck, t: Job): (k: K.Keys)
  {
    match t
    case Provision(keyType) => K.Provision(s.volume, s.keys, keyType, secret, luck)
    case Protection(slot, on) => K.Guard(s.keys, cfg.slots, slot, on, luck.noted)
  }

  /** The gesture machine's part of a move. */
  function Moved(cfg: Config, s: Sys, m: Move): (r: Sys)
  {
    var core := Step(cfg.gesture, s.core, GestureOf(s, m));
    s.(core := core, ran := if s.core.window.Closed? && core.window.Open? then false else s.ran)
  }

  predicate Passes(cfg: Config, s: Sys, cmd: nat)
  {
    Gate(cfg, cmd, s.recovery, s.volume, s.core.state, s.keys).None?
  }

  function Next(cfg: Config, s: Sys, m: Move): (r: Sys)
    requires cfg.slots > 0
  {
    var s1 := Moved(cfg, s, m);
    match m
    case Gest(_) => s1
    case StartJob(t) =>
      if !s.host.Idle? || !Passes(cfg, s1, Opcode(t)) || (t.Provision? && K.CA_SLOT in s.keys.key) then s1
      else s1.(host := Asking(t))
    case GenKey(keyType, secret, luck) =>
      if !s.host.Idle? || !Passes(cfg, s1, GEN_KEY) then s1
      else s1.(keys := K.GenKey(s.volume, s.keys, cfg.slots, keyType, secret, luck))
    case DeleteKey(slot, wipe) =>
      if !s.host.Idle? || !Passes(cfg, s1, DELETE_KEY) then s1
      else s1.(keys := K.Delete(s.keys, cfg.slots, slot, wipe))
    case Ask =>
      if !s.host.Asking? then s1
      else if RequestCode(cfg.gesture, s.core, Confirm) == Done then s1.(host := Waiting(s.host.job))
      else s1.(host := Idle)
    case RunCallback =>
      if Running(s) then s1.(sem := true, result := s.core.window.result, ran := true) else s1
    case Resume(secret, luck) =>
      if !s.host.Waiting? || !s.sem then s1
      else s1.(sem := false, host := Idle,
               keys := if s.result.Ok? then Perform(cfg, s, secret, luck, s.host.job) else s.keys)
    case PowerCycle(_, _, volume, recovery) =>
      s1.(host := Idle, sem := false, volume := volume, recovery := recovery)
  }

  /** A device just powered on. */
  ghost predicate Starts(cfg: Config, s: Sys)
  {
    && s.host.Idle? && !s.sem
    && exists q, f, sr, fr :: s.core == Boot(cfg.gesture, q, f, sr, fr)
  }

  datatype History = History(cfg: Config, boot: Sys, moves: seq<Move>)

  ghost predicate Real(h: History)
  {
    h.cfg.slots > 0 && Starts(h.cfg, h.boot)
  }

  function SysAt(h: History, n: nat): (s: Sys)
    requires h.cfg.slots > 0 && n <= |h.moves|
  {
    if n == 0 then h.boot else Next(h.cfg, SysAt(h, n - 1), h.moves[n - 1])
  }

  // ---------------------------------------------------------------------- keys

  /** No move but a deletion of an unprotected slot, complete or not, touches a key that is there. */
  lemma NextKeys(cfg: Config, s: Sys, m: Move, slot: nat)
    requires cfg.slots > 0 && slot in s.keys.key
    ensures var s1 := Next(cfg, s, m);
            || (slot in s1.keys.key && s1.keys.key[slot] == s.keys.key[slot])
            || (m.DeleteKey? && m.slot == slot && slot != K.CA_SLOT && (m.wipe.Removed? <==> slot !in s1.keys.key)
                && !(slot in s.keys.guarded && s.keys.guarded[slot]))
  {
    hide Step, Gate;
  }

  /** The host alone changes keys only on an unlocked device, on a volume of its own and outside recovery. */
  lemma NextGated(cfg: Config, s: Sys, m: Move)
    requires cfg.slots > 0 && Next(cfg, s, m).keys != s.keys
    ensures m.GenKey? || m.DeleteKey? || m.Resume?
    ensures !m.Resume? ==> && s.host.Idle? && !s.recovery && s.volume != K.Mismatch
                           && !Next(cfg, s, m).core.state.Locked?
    ensures m.Resume? ==> s.host.Waiting? && s.sem && s.result.Ok?
  {
    hide Step;
  }

  /** Over every run without a wipe, the CA key once present never changes. */
  lemma {:induction false} CaKeyForever(h: History, n: nat, m: nat)
    requires Real(h) && n <= m <= |h.moves| && K.CA_SLOT in SysAt(h, n).keys.key
    ensures K.CA_SLOT in SysAt(h, m).keys.key
    ensures SysAt(h, m).keys.key[K.CA_SLOT] == SysAt(h, n).keys.key[K.CA_SLOT]
    decreases m
  {
    hide Next;
    if n < m {
      CaKeyForever(h, n, m - 1);
      NextKeys(h.cfg, SysAt(h, m - 1), h.moves[m - 1], K.CA_SLOT);
    }
  }

  /** A key that is gone or has changed was deleted, by a command, while its slot was unprotected. */
  lemma {:induction false} KeyGoneWasDeleted(h: History, n: nat, m: nat, slot: nat) returns (d: nat)
    requires Real(h) && n <= m <= |h.moves| && slot in SysAt(h, n).keys.key
    requires slot !in SysAt(h, m).keys.key || SysAt(h, m).keys.key[slot] != SysAt(h, n).keys.key[slot]
    ensures n <= d < m && h.moves[d].DeleteKey? && h.moves[d].slot == slot && slot != K.CA_SLOT
    ensures slot in SysAt(h, d).keys.key && (h.moves[d].wipe.Removed? <==> slot !in SysAt(h, d + 1).keys.key)
    ensures !(slot in SysAt(h, d).keys.guarded && SysAt(h, d).keys.guarded[slot])
    decreases m
  {
    hide Next;
    var s := SysAt(h, m - 1);
    if slot !in s.keys.key || s.keys.key[slot] != SysAt(h, n).keys.key[slot] {
      d := KeyGoneWasDeleted(h, n, m - 1, slot);
    } else {
      NextKeys(h.cfg, s, h.moves[m - 1], slot);
      d := m - 1;
    }
  }

  /** A key appears only on a volume that may mint: the CA key by a confirmed provisioning, others by generation. */
  lemma NextNewKey(cfg: Config, s: Sys, m: Move, slot: nat)
    requires cfg.slots > 0 && slot !in s.keys.key && slot in Next(cfg, s, m).keys.key
    ensures K.MayMint(s.volume, s.keys)
    ensures slot == K.CA_SLOT ==> s.host.Waiting? && s.host.job.Provision? && s.sem && s.result.Ok? && m.Resume?
    ensures slot != K.CA_SLOT ==> m.GenKey? && slot < cfg.slots && forall i :: 1 <= i < slot ==> i in s.keys.key
  {
    hide Step, Gate;
  }

  // ------------------------------------------------------- the gesture machine's run

  /** What the gesture machine went through. */
  function Gestures(h: History): (r: Run)
    requires h.cfg.slots > 0
  {
    Run(h.cfg.gesture, h.boot.core,
        seq(|h.moves|, i requires 0 <= i < |h.moves| => GestureOf(SysAt(h, i), h.moves[i])))
  }

  lemma NextCore(cfg: Config, s: Sys, m: Move)
    requires cfg.slots > 0
    ensures Next(cfg, s, m).core == Step(cfg.gesture, s.core, GestureOf(s, m))
  {
    hide Step, Gate;
  }

  lemma {:induction false} CoreIsRun(h: History, n: nat)
    requires h.cfg.slots > 0 && n <= |h.moves|
    ensures At(Gestures(h), n) == SysAt(h, n).core
  {
    hide Next, Step, GestureOf;
    if n > 0 {
      CoreIsRun(h, n - 1);
      NextCore(h.cfg, SysAt(h, n - 1), h.moves[n - 1]);
    }
  }

  lemma RealIsBooted(h: History)
    requires Real(h)
    ensures Booted(Gestures(h))
  {
  }

  lemma CoreSound(h: History, n: nat)
    requires Real(h) && n <= |h.moves|
    ensures Sound(SysAt(h, n).core)
  {
    hide Next, Step, Sound;
    RealIsBooted(h);
    RunSound(Gestures(h), n);
    CoreIsRun(h, n);
  }

  // -------------------------------------------------------- waiting for the user

  predicate Asked(s: Sys)
  {
    s.core.pending == Some(PROTECT_CB)
  }

  /** While the host waits its request is pending, its callback is running, or its answer is ready: one of the three. */
  predicate Paired(s: Sys)
  {
    if s.host.Waiting? then
      || (Asked(s) && !Running(s) && !s.sem)
      || (!Asked(s) && Running(s) && !s.sem)
      || (!Asked(s) && !Running(s) && s.sem)
    else !Asked(s) && !Running(s) && !s.sem
  }

  /** A window, once open, is left as it is until the callback returns or the device reboots. */
  lemma StepWindow(cfg: Cfg, c: Core, e: Event)
    ensures var w := Step(cfg, c, e).window;
            && (c.window.Open? ==> w == c.window || (w.Closed? && (e.Reboot? || e.CallbackReturns?)))
            && (e.Reboot? ==> w.Closed?)
  {
    hide Process;
  }

  lemma StepRefused(cfg: Cfg, c: Core, k: Kind, cb: nat)
    requires RequestCode(cfg, c, k) != Done
    ensures Step(cfg, c, Request(k, cb)) == c
  {
  }

  /** What a move can do to the gesture machine's pending callback and window. */
  lemma CoreMoves(cfg: Config, s: Sys, m: Move)
    requires Sound(s.core)
    ensures var e := GestureOf(s, m);
            var c, c1 := s.core, Step(cfg.gesture, s.core, e);
            var delivers := c.window.Closed? && c1.window.Open?;
            && (delivers ==> c.pending == Some(c1.window.cb) && c1.pending.None?)
            && (m.Ask? && s.host.Asking? ==>
                  if RequestCode(cfg.gesture, c, Confirm) == Done then c.pending.None? && Asked(s.(core := c1)) else c1 == c)
            && (Asked(s.(core := c1)) && !Asked(s) ==> m.Ask? && s.host.Asking?)
            && (Asked(s) && !Asked(s.(core := c1)) ==> delivers || m.PowerCycle?)
            && (m.PowerCycle? ==> c1.pending.None? && c1.window.Closed?)
            && (Running(s) && !m.PowerCycle? ==> c1.window == c.window)
            && (!delivers ==> c1.window == c.window || c1.window.Closed?)
  {
    hide Step, RequestCode;
    StepPending(cfg.gesture, s.core, GestureOf(s, m));
    StepWindow(cfg.gesture, s.core, GestureOf(s, m));
    if RequestCode(cfg.gesture, s.core, Confirm) != Done {
      StepRefused(cfg.gesture, s.core, Confirm, PROTECT_CB);
    }
  }

  lemma NextPaired(cfg: Config, s: Sys, m: Move)
    requires cfg.slots > 0 && Sound(s.core) && Paired(s)
    ensures Paired(Next(cfg, s, m))
  {
    hide Step, Gate;
    CoreMoves(cfg, s, m);
  }

  lemma {:induction false} AllPaired(h: History, n: nat)
    requires Real(h) && n <= |h.moves|
    ensures Paired(SysAt(h, n))
  {
    hide Next, Sound;
    if n > 0 {
      AllPaired(h, n - 1);
      CoreSound(h, n - 1);
      NextPaired(h.cfg, SysAt(h, n - 1), h.moves[n - 1]);
    }
  }

  /** The answer the host will read: the one its running callback was called with, or the one already given. */
  function Answer(s: Sys): (r: Result)
  {
    if s.sem then s.result else if s.core.window.Open? then s.core.window.result else TimedOut
  }

  /** One move that leaves the host waiting: it has just asked, or waits on with at most one thing changed. */
  lemma NextWaiting(cfg: Config, s: Sys, m: Move)
    requires cfg.slots > 0 && Sound(s.core) && Paired(s) && Next(cfg, s, m).host.Waiting?
    ensures var s1 := Next(cfg, s, m);
            if s.host.Asking? then
              m.Ask? && RequestCode(cfg.gesture, s.core, Confirm) == Done && s1.host.job == s.host.job && Asked(s1)
            else
              && s.host == s1.host
              && (!Asked(s) ==> !Asked(s1) && Answer(s1) == Answer(s))
              && (Asked(s) && !Asked(s1) ==>
                    && s.core.window.Closed? && s1.core.window.Open? && s1.core.window.cb == PROTECT_CB
                    && Answer(s1) == s1.core.window.result)
  {
    hide Step, Gate;
    CoreMoves(cfg, s, m);
  }

  /** The host has waited for job `t` since it asked the user at move `i`. */
  predicate Since(h: History, i: nat, n: nat, t: Job)
    requires h.cfg.slots > 0 && n <= |h.moves|
  {
    && i < n && h.moves[i].Ask? && SysAt(h, i).host == Asking(t)
    && RequestCode(h.cfg.gesture, SysAt(h, i).core, Confirm) == Done
    && forall m :: i < m <= n ==> SysAt(h, m).host == Waiting(t)
  }

  /** The request made at `i` stayed pending until move `j`, which called the callback with `res`. */
  predicate AnsweredBy(h: History, i: nat, j: nat, n: nat, res: Result)
    requires h.cfg.slots > 0 && n <= |h.moves|
  {
    && i < j < n && (forall m :: i < m <= j ==> Asked(SysAt(h, m)))
    && SysAt(h, j).core.window.Closed?
    && SysAt(h, j + 1).core.window.Open? && SysAt(h, j + 1).core.window.cb == PROTECT_CB
    && SysAt(h, j + 1).core.window.result == res
  }

  lemma {:induction false} WaitedSince(h: History, n: nat) returns (i: nat, j: nat)
    requires Real(h) && n <= |h.moves| && SysAt(h, n).host.Waiting?
    ensures Since(h, i, n, SysAt(h, n).host.job)
    ensures if Asked(SysAt(h, n)) then forall m :: i < m <= n ==> Asked(SysAt(h, m))
            else AnsweredBy(h, i, j, n, Answer(SysAt(h, n)))
  {
    hide Next, Step, Sound, Answer;
    var s, m := SysAt(h, n - 1), h.moves[n - 1];
    AllPaired(h, n - 1);
    CoreSound(h, n - 1);
    NextWaiting(h.cfg, s, m);
    if s.host.Asking? {
      i, j := n - 1, 0;
    } else {
      i, j := WaitedSince(h, n - 1);
      if Asked(s) && !Asked(SysAt(h, n)) {
        j := n - 1;
      }
    }
  }

  /** A request that stayed pending until `j` is the one a delivery at `j` answers. */
  lemma SameRequest(g: Run, i: nat, i': nat, j: nat, k: Kind)
    requires j <= |g.events| && i < j && Accepts(g, i) && Held(g, i', j, k, PROTECT_CB)
    requires forall m :: i < m <= j ==> At(g, m).pending == Some(PROTECT_CB)
    ensures i == i'
  {
    hide At, Start;
    assert At(g, i).pending.None? && At(g, i').pending.None?;
  }

  /** The pending request as the gesture machine's run shows it. */
  lemma AskedInRun(h: History, i: nat, j: nat, n: nat, t: Job)
    requires Real(h) && n <= |h.moves| && Since(h, i, n, t) && AnsweredBy(h, i, j, n, Ok)
    ensures var g := Gestures(h);
            && Accepts(g, i) && g.events[i] == Request(Confirm, PROTECT_CB)
            && (forall m :: i < m <= j ==> At(g, m).pending == Some(PROTECT_CB))
            && Delivers(g, j)
            && At(g, j + 1).window.cb == PROTECT_CB && At(g, j + 1).window.result == Ok
  {
    hide Next, Step, SysAt, At;
    CoreIsRun(h, i);
    CoreIsRun(h, j);
    CoreIsRun(h, j + 1);
    forall m | i < m <= j ensures At(Gestures(h), m).pending == Some(PROTECT_CB) {
      assert Asked(SysAt(h, m));
      CoreIsRun(h, m);
    }
  }

  /** The gesture machine's own account of the same request: its answer is what the user tapped after it. */
  lemma ConfirmedByUser(h: History, i: nat, j: nat, n: nat, t: Job)
    requires Real(h) && n <= |h.moves| && Since(h, i, n, t) && AnsweredBy(h, i, j, n, Ok)
    ensures var g := Gestures(h);
            && i < Start(g, j)
            && Matches(DigitsOf(h.cfg.gesture.alphabet, Entered(g, Start(g, j), j)), ConfirmSeq(h.cfg.gesture.alphabet))
  {
    hide Next, Step, SysAt, At, Start, Entered, DigitsOf;
    var g := Gestures(h);
    RealIsBooted(h);
    AskedInRun(h, i, j, n, t);
    var i', k := DeliveryAnswers(g, j);
    SameRequest(g, i, i', j, k);
  }

  /**
    The CA key is created only on a volume that may mint, in an empty slot, by a provisioning
    command whose own request for confirmation the user answered, after it was made, with the
    confirm sequence.
   */
  lemma CaKeyNeedsUser(h: History, n: nat) returns (i: nat, j: nat)
    requires Real(h) && n < |h.moves|
    requires K.CA_SLOT !in SysAt(h, n).keys.key && K.CA_SLOT in SysAt(h, n + 1).keys.key
    ensures K.MayMint(SysAt(h, n).volume, SysAt(h, n).keys)
    ensures SysAt(h, n).host.Waiting? && SysAt(h, n).host.job.Provision?
    ensures Since(h, i, n, SysAt(h, n).host.job) && AnsweredBy(h, i, j, n, Ok)
    ensures var g := Gestures(h);
            && i < Start(g, j)
            && Matches(DigitsOf(h.cfg.gesture.alphabet, Entered(g, Start(g, j), j)), ConfirmSeq(h.cfg.gesture.alphabet))
  {
    hide Next, Step, Entered, DigitsOf;
    NextNewKey(h.cfg, SysAt(h, n), h.moves[n], K.CA_SLOT);
    AllPaired(h, n);
    i, j := WaitedSince(h, n);
    ConfirmedByUser(h, i, j, n, SysAt(h, n).host.job);
  }

  // ---------------------------------------------------------------- protected slots

  /** The slot holds this key and is protected. */
  predicate Guarded(s: Sys, slot: nat, key: nat)
  {
    && slot in s.keys.key && s.keys.key[slot] == key
    && slot in s.keys.guarded && s.keys.guarded[slot]
  }

  /** No move but a confirmed removal of its protection touches a protected key or that protection. */
  lemma NextGuarded(cfg: Config, s: Sys, m: Move, slot: nat, key: nat)
    requires cfg.slots > 0 && Guarded(s, slot, key)
    ensures || Guarded(Next(cfg, s, m), slot, key)
            || (m.Resume? && s.host == Waiting(Protection(slot, false)) && s.sem && s.result.Ok?)
  {
    hide Step, Gate;
  }

  /** The first move after which the slot is no longer protected with its key. */
  lemma {:induction false} GuardLost(h: History, n: nat, m: nat, slot: nat, key: nat) returns (u: nat)
    requires Real(h) && n <= m <= |h.moves|
    requires Guarded(SysAt(h, n), slot, key) && !Guarded(SysAt(h, m), slot, key)
    ensures n <= u < m && !Guarded(SysAt(h, u + 1), slot, key)
    ensures forall v :: n <= v <= u ==> Guarded(SysAt(h, v), slot, key)
    decreases m - n
  {
    hide SysAt, Guarded;
    if Guarded(SysAt(h, n + 1), slot, key) {
      u := GuardLost(h, n + 1, m, slot, key);
    } else {
      u := n;
    }
  }

  /** The user answered, after it was made at `i`, the host's request to remove the slot's protection. */
  ghost predicate Released(h: History, slot: nat, i: nat, j: nat, u: nat)
    requires Real(h) && u <= |h.moves|
  {
    && Since(h, i, u, Protection(slot, false)) && AnsweredBy(h, i, j, u, Ok)
    && var g := Gestures(h);
       && i < Start(g, j)
       && Matches(DigitsOf(h.cfg.gesture.alphabet, Entered(g, Start(g, j), j)), ConfirmSeq(h.cfg.gesture.alphabet))
  }

  /**
    A protected slot keeps its key and its protection over every run, up to a removal of that
    protection whose own request the user answered, after it was made, with the confirm sequence.
   */
  lemma ProtectionNeedsUser(h: History, n: nat, m: nat, slot: nat, key: nat) returns (i: nat, j: nat, u: nat)
    requires Real(h) && n <= m <= |h.moves|
    requires Guarded(SysAt(h, n), slot, key) && !Guarded(SysAt(h, m), slot, key)
    ensures n <= u < m && h.moves[u].Resume? && Released(h, slot, i, j, u)
    ensures forall v :: n <= v <= u ==> Guarded(SysAt(h, v), slot, key)
  {
    hide Next, Step, Entered, DigitsOf, Guarded;
    u := GuardLost(h, n, m, slot, key);
    NextGuarded(h.cfg, SysAt(h, u), h.moves[u], slot, key);
    AllPaired(h, u);
    i, j := WaitedSince(h, u);
    ConfirmedByUser(h, i, j, u, Protection(slot, false));
  }

  /** So a key whose slot was once protected is gone or changed only by a deletion after such a removal. */
  lemma ProtectedKeyGone(h: History, n: nat, m: nat, slot: nat, key: nat) returns (i: nat, j: nat, u: nat, d: nat)
    requires Real(h) && n <= m <= |h.moves| && Guarded(SysAt(h, n), slot, key)
    requires slot !in SysAt(h, m).keys.key || SysAt(h, m).keys.key[slot] != key
    ensures n <= u < d < m && Released(h, slot, i, j, u)
    ensures h.moves[d].DeleteKey? && h.moves[d].slot == slot && slot != K.CA_SLOT && slot in SysAt(h, d).keys.key
  {
    hide SysAt, Released;
    d := KeyGoneWasDeleted(h, n, m, slot);
    i, j, u := ProtectionNeedsUser(h, n, d, slot, key);
  }

  /** The host carries out a confirmed job at move `u`. */
  predicate CarriesOut(h: History, u: nat, t: Job)
    requires h.cfg.slots > 0 && u < |h.moves|
  {
    h.moves[u].Resume? && SysAt(h, u).host == Waiting(t) && SysAt(h, u).sem && SysAt(h, u).result.Ok?
  }

  /** A confirmed change of protection does what it says, if the slot has metadata and it can be written. */
  lemma NextProtects(cfg: Config, s: Sys, m: Move, slot: nat, on: bool)
    requires cfg.slots > 0 && m.Resume? && s.host == Waiting(Protection(slot, on)) && s.sem && s.result.Ok?
    ensures var k, k1 := s.keys, Next(cfg, s, m).keys;
            && k1.key == k.key && k1.guarded.Keys == k.guarded.Keys
            && (slot in k.guarded && slot in k.key && slot < cfg.slots && m.luck.noted ==> k1.guarded[slot] == on)
            && (forall i :: i in k.guarded && (i != slot || !m.luck.noted) ==> k1.guarded[i] == k.guarded[i])
  {
    hide Step, Gate;
  }

  /**
    A slot the user had protected stays so, with its key: whoever asks to delete it is refused,
    up to a removal of the protection that the user answered.
   */
  lemma ProtectingProtects(h: History, u: nat, m: nat, slot: nat, wipe: K.Wipe)
    requires Real(h) && u < m <= |h.moves| && CarriesOut(h, u, Protection(slot, true)) && h.moves[u].luck.noted
    requires slot < h.cfg.slots && slot in SysAt(h, u).keys.key && slot in SysAt(h, u).keys.guarded
    ensures Guarded(SysAt(h, u + 1), slot, SysAt(h, u).keys.key[slot])
    ensures || (exists i, j, v :: u < v < m && Released(h, slot, i, j, v))
            || (&& slot in SysAt(h, m).keys.key && SysAt(h, m).keys.key[slot] == SysAt(h, u).keys.key[slot]
                && K.DeleteCode(SysAt(h, m).keys, h.cfg.slots, slot, wipe)
                   == if slot == K.CA_SLOT then K.Refused else K.Protected)
  {
    hide Next, Step, Released;
    var key := SysAt(h, u).keys.key[slot];
    NextProtects(h.cfg, SysAt(h, u), h.moves[u], slot, true);
    if !Guarded(SysAt(h, m), slot, key) {
      var i, j, v := ProtectionNeedsUser(h, u + 1, m, slot, key);
    }
  }

  /** And one whose protection the user had removed can be deleted from then on, while it is not protected again. */
  lemma RemovingRemoves(h: History, u: nat, slot: nat)
    requires Real(h) && u < |h.moves| && CarriesOut(h, u, Protection(slot, false)) && h.moves[u].luck.noted
    requires 0 < slot < h.cfg.slots && slot in SysAt(h, u).keys.key && slot in SysAt(h, u).keys.guarded
    ensures var k := SysAt(h, u + 1).keys;
            && slot in k.guarded && !k.guarded[slot]
            && K.DeleteCode(k, h.cfg.slots, slot, K.Removed) == K.Done(slot)
            && slot !in K.Delete(k, h.cfg.slots, slot, K.Removed).key
  {
    hide Next, Step;
    NextProtects(h.cfg, SysAt(h, u), h.moves[u], slot, false);
  }

  // ------------------------------------------------------------- what gates let by

  /** Which commands reach their handlers. */
  lemma GateExact(cfg: Config, cmd: nat, recovery: bool, v: K.Volume, s: State, k: K.Keys)
    ensures Gate(cfg, cmd, recovery, v, s, k).None? <==>
            if cmd == DEVICE_STATUS || cmd == UPDATE_FIRMWARE then true
            else if cmd == RESET_DEVICE then v != K.Mismatch && (!s.Locked? || !cfg.gesture.resetRequiresUnlock)
            else
              && !recovery && v != K.Mismatch && !s.Locked?
              && (1 <= cmd <= 6 ==> 0 in k.key)
              && (cmd == PROVISION_CA || cmd == GEN_KEY ==> v == K.Valid || 0 in k.key)
  {
  }

  /** A job waits for the user only if its command passed every gate with the device not locked. */
  lemma JobPassedGates(cfg: Config, s: Sys, m: Move)
    requires cfg.slots > 0 && !s.host.Asking? && Next(cfg, s, m).host.Asking?
    ensures var s1 := Next(cfg, s, m);
            && m == StartJob(s1.host.job) && s.host.Idle? && !s.recovery && s.volume != K.Mismatch
            && !s1.core.state.Locked?
            && (s1.host.job.Provision? ==> K.CA_SLOT !in s.keys.key && s.volume == K.Valid)
  {
    hide Step;
  }

  // ------------------------------------------------------- commands do get through

  function Plays(cfg: Config, s: Sys, ms: seq<Move>): (r: Sys)
    requires cfg.slots > 0
    decreases |ms|
  {
    if ms == [] then s else Next(cfg, Plays(cfg, s, ms[..|ms| - 1]), ms[|ms| - 1])
  }

  /** The user's own events as moves. */
  function ByUser(es: seq<Event>): (ms: seq<Move>)
    ensures |ms| == |es|
  {
    seq(|es|, i requires 0 <= i < |es| => Gest(es[i]))
  }

  predicate Tapping(es: seq<Event>)
  {
    forall i :: 0 <= i < |es| ==> es[i].TapOf? || es[i].Silence?
  }

  lemma NextTap(cfg: Config, s: Sys, e: Event)
    requires cfg.slots > 0 && (e.TapOf? || e.Silence?)
    ensures var r := Next(cfg, s, Gest(e));
            && r == s.(core := Step(cfg.gesture, s.core, e), ran := r.ran)
            && (s.core.window.Closed? && r.core.window.Open? ==> !r.ran)
            && (s.core.window.Open? ==> r.core.window == s.core.window && r.ran == s.ran)
  {
    hide Step;
    StepWindow(cfg.gesture, s.core, e);
  }

  lemma {:induction false} UserPlays(cfg: Config, s: Sys, es: seq<Event>)
    requires cfg.slots > 0 && Tapping(es) && s.core.window.Closed?
    ensures var r := Plays(cfg, s, ByUser(es));
            && r == s.(core := Typing.Play(cfg.gesture, s.core, es), ran := r.ran)
            && (r.core.window.Open? ==> !r.ran)
    decreases |es|
  {
    hide Step, Next;
    if es != [] {
      var n := |es| - 1;
      UserPlays(cfg, s, es[..n]);
      assert ByUser(es)[..n] == ByUser(es[..n]) && ByUser(es)[n] == Gest(es[n]);
      NextTap(cfg, Plays(cfg, s, ByUser(es[..n])), es[n]);
    }
  }

  /** An idle host at an unlocked device in use, with a command that its gates let through. */
  predicate Ready(cfg: Config, s: Sys, t: Job)
  {
    && s.host.Idle? && !s.sem && s.core.state.Unlocked? && s.core.pending.None? && s.core.window.Closed?
    && !Gesture.Idle(cfg.gesture, s.core)
    && Passes(cfg, s, Opcode(t)) && (t.Provision? ==> K.CA_SLOT !in s.keys.key)
  }

  /** The command is started and the user asked. */
  lemma JobAsks(cfg: Config, s: Sys, t: Job)
    requires cfg.slots > 0 && Ready(cfg, s, t)
    ensures var r := Next(cfg, Next(cfg, s, StartJob(t)), Ask);
            && r == s.(core := r.core, host := Waiting(t), ran := r.ran)
            && r.core == s.core.(pending := Some(PROTECT_CB), acc := EMPTY, state := AwaitingConfirm)
  {
    hide Gate;
    var s1 := Next(cfg, s, StartJob(t));
    assert s1 == s.(host := Asking(t));
  }

  /** The answer reaches the host, which carries the command out. */
  lemma JobAnswered(cfg: Config, s: Sys, t: Job, secret: nat, luck: K.Luck)
    requires cfg.slots > 0 && s.host == Waiting(t) && !s.sem && s.core.window == Open(PROTECT_CB, Ok, true) && !s.ran
    ensures var r := Next(cfg, Next(cfg, Next(cfg, s, RunCallback), Gest(CallbackReturns)), Resume(secret, luck));
            r.keys == Perform(cfg, s, secret, luck, t) && r.host.Idle? && !r.sem && r.core.window.Closed?
  {
    var s1 := Next(cfg, s, RunCallback);
    assert s1.core == s.core.(now := s.core.now + 0) && s1.sem && s1.result == Ok && s1.ran;
    var s2 := Next(cfg, s1, Gest(CallbackReturns));
    assert s2.core.window.Closed? && s2.sem && s2.result == Ok && s2.host == Waiting(t) && s2.keys == s.keys;
  }

  /** On a ready device a command whose request the user confirms is carried out. */
  lemma ConfirmedJobRuns(cfg: Config, s: Sys, t: Job, secret: nat, luck: K.Luck)
    requires cfg.slots > 0 && Ready(cfg, s, t)
    requires cfg.gesture.alphabet.CountColor? && 3 <= cfg.gesture.alphabet.palette < DIGIT_INVALID
    ensures var moves := [StartJob(t), Ask] + ByUser(Typing.Strokes([3, 3, 3]))
                         + [RunCallback, Gest(CallbackReturns), Resume(secret, luck)];
            var r := Plays(cfg, s, moves);
            r.keys == Perform(cfg, s, secret, luck, t) && r.host.Idle? && r.core.state.Unlocked?
  {
    hide Next, Perform, Typing.Play, Step;
    var es := Typing.Strokes([3, 3, 3]);
    var a := Next(cfg, Next(cfg, s, StartJob(t)), Ask);
    JobAsks(cfg, s, t);
    StrokesTap([3, 3, 3]);
    UserPlays(cfg, a, es);
    var b := Plays(cfg, a, ByUser(es));
    ConfirmTapped(cfg.gesture, a.core);
    JobAnswered(cfg, b, t, secret, luck);
    JobStays(cfg, b, secret, luck);
    PlaysThrough(cfg, s, StartJob(t), Ask, ByUser(es), RunCallback, Gest(CallbackReturns), Resume(secret, luck));
    assert Perform(cfg, b, secret, luck, t) == Perform(cfg, s, secret, luck, t) by { PerformsAlike(cfg, b, s, secret, luck, t); }
  }

  lemma PerformsAlike(cfg: Config, a: Sys, b: Sys, secret: nat, luck: K.Luck, t: Job)
    requires a.keys == b.keys && a.volume == b.volume
    ensures Perform(cfg, a, secret, luck, t) == Perform(cfg, b, secret, luck, t)
  {
  }

  lemma ConfirmTapped(cfg: Cfg, c: Core)
    requires cfg.alphabet.CountColor? && 3 <= cfg.alphabet.palette < DIGIT_INVALID
    requires c.state.AwaitingConfirm? && c.pending == Some(PROTECT_CB) && c.acc == EMPTY && c.window.Closed?
    ensures var r := Typing.Play(cfg, c, Typing.Strokes([3, 3, 3]));
            r.window == Open(PROTECT_CB, Ok, true) && r.state.Unlocked?
  {
    hide Typing.Play;
    Typing.TappingWorks(cfg, c, [3, 3, 3]);
    var d := Colours(cfg.alphabet.palette, [3, 3, 3]);
    assert d == [3, 3, 3];
  }

  lemma QuietState(cfg: Cfg, c: Core, e: Event)
    requires e.Clock? || e.CallbackReturns?
    ensures Step(cfg, c, e).state == c.state
  {
  }

  lemma JobStays(cfg: Config, s: Sys, secret: nat, luck: K.Luck)
    requires cfg.slots > 0
    ensures var r := Next(cfg, Next(cfg, Next(cfg, s, RunCallback), Gest(CallbackReturns)), Resume(secret, luck));
            r.core.state == s.core.state
  {
    hide Next, Step;
    var a := Next(cfg, s, RunCallback);
    var b := Next(cfg, a, Gest(CallbackReturns));
    NextCore(cfg, s, RunCallback);
    NextCore(cfg, a, Gest(CallbackReturns));
    NextCore(cfg, b, Resume(secret, luck));
    QuietState(cfg.gesture, s.core, GestureOf(s, RunCallback));
    QuietState(cfg.gesture, a.core, GestureOf(a, Gest(CallbackReturns)));
    QuietState(cfg.gesture, b.core, GestureOf(b, Resume(secret, luck)));
  }

  lemma {:induction false} KeysTap(xs: seq<Input>)
    ensures Tapping(Typing.Keys(xs))
  {
    if xs != [] {
      KeysTap(xs[..|xs| - 1]);
    }
  }

  lemma StrokesTap(counts: seq<nat>)
    ensures Tapping(Typing.Strokes(counts))
  {
    KeysTap(Typed(counts, 0));
  }

  lemma {:induction false} PlaysSum(cfg: Config, s: Sys, a: seq<Move>, b: seq<Move>)
    requires cfg.slots > 0
    ensures Plays(cfg, s, a + b) == Plays(cfg, Plays(cfg, s, a), b)
    decreases |b|
  {
    hide Next;
    if b == [] {
      assert a + b == a;
    } else {
      assert (a + b)[..|a + b| - 1] == a + b[..|b| - 1];
      PlaysSum(cfg, s, a, b[..|b| - 1]);
    }
  }

  lemma PlaysOne(cfg: Config, s: Sys, m: Move)
    requires cfg.slots > 0
    ensures Plays(cfg, s, [m]) == Next(cfg, s, m)
  {
    hide Next;
    assert [m][..0] == [];
  }

  lemma PlaysThrough(cfg: Config, s: Sys, a: Move, b: Move, ms: seq<Move>, x: Move, y: Move, z: Move)
    requires cfg.slots > 0
    ensures Plays(cfg, s, [a, b] + ms + [x, y, z])
         == Next(cfg, Next(cfg, Next(cfg, Plays(cfg, Next(cfg, Next(cfg, s, a), b), ms), x), y), z)
  {
    hide Next;
    var s2 := Next(cfg, Next(cfg, s, a), b);
    var s3 := Plays(cfg, s2, ms);
    PlaysOne(cfg, s, a);
    PlaysOne(cfg, Next(cfg, s, a), b);
    PlaysSum(cfg, s, [a], [b]);
    assert [a] + [b] == [a, b];
    PlaysSum(cfg, s, [a, b], ms);
    PlaysSum(cfg, s, [a, b] + ms, [x, y, z]);
    PlaysOne(cfg, s3, x);
    PlaysOne(cfg, Next(cfg, s3, x), y);
    PlaysSum(cfg, s3, [x], [y]);
    assert [x] + [y] == [x, y] && [x, y] + [z] == [x, y, z];
    PlaysOne(cfg, Next(cfg, Next(cfg, s3, x), y), z);
    PlaysSum(cfg, s3, [x, y], [z]);
  }

  /** The commands that need no confirmation, on a device whose gates let them through. */
  lemma CommandsRun(cfg: Config, s: Sys, m: Move)
    requires cfg.slots > 0 && s.host.Idle? && !Gesture.Idle(cfg.gesture, s.core)
    ensures m.GenKey? && Passes(cfg, s, GEN_KEY) && m.keyType <= 1 && m.luck == K.Luck(true, true) ==>
            forall slot :: && 1 <= slot < cfg.slots && slot !in s.keys.key && (forall i :: 1 <= i < slot ==> i in s.keys.key) ==>
              Next(cfg, s, m).keys == K.Keys(s.keys.key[slot := m.secret], s.keys.guarded[slot := false])
    ensures && m.DeleteKey? && Passes(cfg, s, DELETE_KEY) && 0 < m.slot < cfg.slots && m.slot in s.keys.key && m.wipe.Removed?
            && !(m.slot in s.keys.guarded && s.keys.guarded[m.slot]) ==>
            Next(cfg, s, m).keys == K.Keys(s.keys.key - {m.slot}, s.keys.guarded - {m.slot})
  {
  }

  /** A confirmed provisioning of an empty, marked volume puts the key into the CA's slot, protected. */
  lemma ProvisioningProvisions(cfg: Config, s: Sys, m: Move, keyType: nat)
    requires cfg.slots > 0 && m.Resume? && s.host == Waiting(Provision(keyType)) && s.sem && s.result.Ok?
    requires keyType <= 1 && K.CA_SLOT !in s.keys.key && s.volume == K.Valid && m.luck == K.Luck(true, true)
    ensures Next(cfg, s, m).keys == K.Keys(s.keys.key[0 := m.secret], s.keys.guarded[0 := true])
  {
    hide Step;
  }
}
