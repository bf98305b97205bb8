/**
 The session after the handshake: length-prefixed frames over a byte stream,
 each an AEAD ciphertext under a counting nonce, in both directions.
 */
module Channel {
  import opened Octets
  import opened NoiseCrypto
  import Pattern = NoisePattern

  const MAX_PAYLOAD := 4096
  const MAX_FRAME := 4112

  // ------------------------------------------------------------------ framing

  /** send_frame: a two-octet big-endian length, then the octets. */
  function FrameBytes(b: bytes): (r: bytes)
    requires |b| < 0x1_0000
    ensures |r| == 2 + |b|
  {
    [|b| / 256, |b| % 256] + b
  }

  /** The frame says its own length. */
  lemma FrameLength(b: bytes)
    requires |b| < 0x1_0000
    ensures FromBE(FrameBytes(b)[..2]) == |b| && FrameBytes(b)[2..] == b
  {
    var h := FrameBytes(b)[..2];
    assert h[..1] == [|b| / 256] && h[..1][..0] == [];
    assert FromBE(h[..1]) == |b| / 256 && h[1] == |b| % 256;
  }

  /** A byte stream that hands out whatever chunk it likes, or an error: call by call, as `chunk` says. */
  class Transport {
    var pending: bytes
    var calls: nat
    const chunk: nat -> Option<nat>

    constructor (pending: bytes, chunk: nat -> Option<nat>)
      ensures this.pending == pending && this.chunk == chunk && calls == 0
    {
      this.pending, this.chunk, calls := pending, chunk, 0;
    }

    /** It never fails, and always has something to give while anything is there. */
    ghost predicate Steady()
      reads this
    {
      forall k :: k >= calls ==> chunk(k).Some? && chunk(k).value > 0
    }

    method Recv(max: nat) returns (ok: bool, data: bytes)
      modifies this`pending, this`calls
      ensures |data| <= max && old(pending) == data + pending && calls == old(calls) + 1
      ensures !ok ==> data == []
      ensures old(Steady()) ==> ok && (data == [] ==> max == 0 || old(pending) == [])
    {
      var n := chunk(calls);
      calls := calls + 1;
      ok := n.Some?;
      var m := if n.None? then 0 else n.value;
      m := if m > max then max else m;
      m := if m > |pending| then |pending| else m;
      data, pending := pending[..m], pending[m..];
    }
  }

  /** raw_recv_exact and recv_exact: collect chunks until `len` octets are there; empty polls are limited. */
  method RecvExact(t: Transport, len: nat, polls: nat) returns (r: Option<bytes>)
    modifies t`pending, t`calls
    ensures r.Some? ==> |r.value| == len && old(t.pending) == r.value + t.pending
    ensures exists k: nat :: k <= |old(t.pending)| && t.pending == old(t.pending)[k..]
    ensures old(t.Steady()) ==> t.Steady() && (r.Some? <==> |old(t.pending)| >= len)
  {
    var got: bytes := [];
    var left := polls;
    assert t.pending == old(t.pending)[0..];
    while |got| < len
      invariant |got| <= len && old(t.pending) == got + t.pending && t.calls >= old(t.calls)
      decreases len - |got|, left
    {
      var ok, data := t.Recv(len - |got|);
      assert old(t.pending) == (got + data) + t.pending;
      if !ok {
        assert t.pending == old(t.pending)[|got|..];
        return None;
      }
      got := got + data;
      if |data| == 0 {
        if left == 0 {
          assert t.pending == old(t.pending)[|got|..];
          return None;
        }
        left := left - 1;
      }
    }
    assert t.pending == old(t.pending)[|got|..];
    return Some(got);
  }

  /** A frame of at most `maxLen` octets is next on the stream. */
  predicate NextIs(stream: bytes, maxLen: nat, b: bytes)
  {
    |b| <= maxLen && |b| < 0x1_0000 && FrameBytes(b) <= stream
  }

  /** recv_frame: whatever the chunking, a frame is returned only if it is next on the stream, and then if the stream is steady. */
  method RecvFrame(t: Transport, maxLen: nat, polls: nat) returns (r: Option<bytes>)
    modifies t`pending, t`calls
    ensures r.Some? ==> NextIs(old(t.pending), maxLen, r.value) && old(t.pending) == FrameBytes(r.value) + t.pending
    ensures old(t.Steady()) ==> forall b :: NextIs(old(t.pending), maxLen, b) ==> r == Some(b)
  {
    hide NextIs, FrameBytes;
    ghost var s := t.pending;
    var hdr := RecvExact(t, 2, polls);
    if hdr.None? {
      ShortStream(s, maxLen);
      return None;
    }
    ghost var rest := t.pending;
    FramesAhead(s, hdr.value, rest, maxLen);
    var len := hdr.value[0] as int * 256 + hdr.value[1];
    if len > maxLen { return None; }
    r := RecvExact(t, len, polls);
    if r.Some? {
      FrameMade(s, hdr.value, r.value, t.pending, maxLen);
    }
  }

  lemma ShortStream(s: bytes, maxLen: nat)
    ensures |s| < 2 ==> forall b :: !NextIs(s, maxLen, b)
  {
  }

  lemma FrameMade(s: bytes, hdr: bytes, b: bytes, rest: bytes, maxLen: nat)
    requires |hdr| == 2 && s == hdr + (b + rest) && |b| == hdr[0] as int * 256 + hdr[1] <= maxLen
    ensures NextIs(s, maxLen, b) && s == FrameBytes(b) + rest
  {
    assert hdr == [|b| / 256, |b| % 256];
  }

  lemma FrameAhead(s: bytes, hdr: bytes, rest: bytes, maxLen: nat, b: bytes)
    requires |hdr| == 2 && s == hdr + rest && NextIs(s, maxLen, b)
    ensures |b| == hdr[0] as int * 256 + hdr[1] <= maxLen && |b| <= |rest| && b == rest[..|b|]
  {
    assert FrameBytes(b)[0] == s[0] == hdr[0] && FrameBytes(b)[1] == s[1] == hdr[1];
    assert b == FrameBytes(b)[2..] == s[2..2 + |b|] == rest[..|b|];
  }

  lemma FramesAhead(s: bytes, hdr: bytes, rest: bytes, maxLen: nat)
    requires |hdr| == 2 && s == hdr + rest
    ensures forall b :: NextIs(s, maxLen, b) ==>
              |b| == hdr[0] as int * 256 + hdr[1] <= maxLen && |b| <= |rest| && b == rest[..|b|]
  {
    forall b | NextIs(s, maxLen, b)
      ensures |b| == hdr[0] as int * 256 + hdr[1] <= maxLen && |b| <= |rest| && b == rest[..|b|]
    {
      FrameAhead(s, hdr, rest, maxLen, b);
    }
  }

  /** A stream begins with at most one frame: its extent is fixed by its first two octets. */
  lemma FrameUnique(a: bytes, b: bytes, restA: bytes, restB: bytes)
    requires |a| < 0x1_0000 && |b| < 0x1_0000 && FrameBytes(a) + restA == FrameBytes(b) + restB
    ensures a == b && restA == restB
  {
    var s := FrameBytes(a) + restA;
    assert s[0] == |a| / 256 && s[1] == |a| % 256 && s[0] == |b| / 256 && s[1] == |b| % 256;
    assert |a| == |b|;
    assert a == s[2..2 + |a|] && restA == s[2 + |a|..];
    assert b == s[2..2 + |b|] && restB == s[2 + |b|..];
  }

  // -------------------------------------------------------------- one endpoint

  datatype End = End(txKey: bytes, rxKey: bytes, txN: nat, rxN: nat)

  /** The counters are 64 bits wide. */
  function Next(n: nat): (r: nat)
    ensures r < TWO_64
  {
    (n + 1) % TWO_64
  }

  function Ciphertext(c: Crypto, key: bytes, n: nat, payload: bytes): (ct: bytes)
  {
    c.seal(key, Nonce(n), [], payload)
  }

  /** The payload a frame opens to at this end, if it is accepted into a buffer of `room` octets. */
  function Accepts(c: Crypto, e: End, frame: bytes, room: nat): (r: Option<bytes>)
  {
    if !(TAG_LEN <= |frame| <= MAX_FRAME) || room < |frame| - TAG_LEN then None
    else c.open_(e.rxKey, Nonce(e.rxN), [], frame)
  }

  /** The session object of either end; both directions only ever advance their own counter. */
  class Session {
    var txKey: bytes
    var rxKey: bytes
    var txN: nat
    var rxN: nat
    var established: bool
    /** The device tests the caller's buffer against the payload; the client only against the tag. */
    const device: bool
    /** Every key and nonce this end has encrypted with. */
    ghost var uses: seq<Pattern.Use>

    ghost function Val(): (e: End)
      reads this
    {
      End(txKey, rxKey, txN, rxN)
    }

    /** The state both handshakes end in. */
    constructor (tx: bytes, rx: bytes, device: bool)
      ensures Val() == End(tx, rx, 0, 0) && established && this.device == device && uses == []
    {
      txKey, rxKey, txN, rxN, established, uses := tx, rx, 0, 0, true, [];
      this.device := device;
    }

    /** session_send and cantil_session_send: the frame to put on the wire. */
    method Send(c: Crypto, payload: bytes) returns (frame: Option<bytes>)
      requires Lawful(c)
      modifies this`txN, this`uses
      ensures frame.Some? <==> established && |payload| <= MAX_PAYLOAD
      ensures frame.Some? ==>
              && Val() == old(Val()).(txN := Next(old(txN)))
              && |Ciphertext(c, txKey, old(txN), payload)| <= MAX_FRAME
              && frame.value == FrameBytes(Ciphertext(c, txKey, old(txN), payload))
              && uses == old(uses) + [Pattern.Use(txKey, old(txN))]
      ensures frame.None? ==> Val() == old(Val()) && uses == old(uses)
    {
      if !established || |payload| > MAX_PAYLOAD {
        return None;
      }
      var ct := c.seal(txKey, Nonce(txN), [], payload);
      uses := uses + [Pattern.Use(txKey, txN)];
      txN := (txN + 1) % TWO_64;
      return Some(FrameBytes(ct));
    }

    /** session_recv and cantil_session_recv_to. */
    method Recv(c: Crypto, t: Transport, room: nat, polls: nat) returns (payload: Option<bytes>, ghost frame: Option<bytes>)
      requires Lawful(c)
      modifies this`rxN, t`pending, t`calls
      ensures !established || (!device && room < TAG_LEN) ==> frame.None? && t.pending == old(t.pending)
      ensures frame.Some? ==> NextIs(old(t.pending), MAX_FRAME, frame.value)
                              && old(t.pending) == FrameBytes(frame.value) + t.pending
      ensures established && (device || room >= TAG_LEN) && old(t.Steady()) ==>
              forall b :: NextIs(old(t.pending), MAX_FRAME, b) ==> frame == Some(b)
      ensures device && payload.Some? ==> |payload.value| <= room
      ensures payload == if frame.None? then None
                         else Accepts(c, old(Val()), frame.value, if device then room else MAX_PAYLOAD)
      ensures Val() == if payload.Some? then old(Val()).(rxN := Next(old(rxN))) else old(Val())
    {
      frame := None;
      if !established || (!device && room < TAG_LEN) {
        return None, None;
      }
      var ct := RecvFrame(t, MAX_FRAME, polls);
      if ct.None? {
        return None, None;
      }
      frame := ct;
      if |ct.value| < TAG_LEN || (device && room < |ct.value| - TAG_LEN) {
        return None, frame;
      }
      payload := c.open_(rxKey, Nonce(rxN), [], ct.value);
      if payload.Some? {
        rxN := (rxN + 1) % TWO_64;
      }
    }
  }

  // ------------------------------------------------------------- whole runs

  /** Both ends, with what each has sent and what each has accepted. */
  datatype Sys = Sys(client: End, device: End,
                     sentByClient: seq<bytes>, sentByDevice: seq<bytes>,
                     gotByClient: seq<bytes>, gotByDevice: seq<bytes>,
                     usedByClient: seq<Pattern.Use>, usedByDevice: seq<Pattern.Use>)

  /** The network may hand either end any frame at all: old, altered, out of order or invented. */
  datatype Event =
    | ClientSends(payload: bytes)
    | DeviceSends(payload: bytes)
    | ClientHears(frame: bytes)
    | DeviceHears(frame: bytes, room: nat)

  function Step(c: Crypto, s: Sys, ev: Event): (r: Sys)
  {
    match ev
    case ClientSends(p) =>
      if |p| > MAX_PAYLOAD then s
      else s.(client := s.client.(txN := Next(s.client.txN)), sentByClient := s.sentByClient + [p],
              usedByClient := s.usedByClient + [Pattern.Use(s.client.txKey, s.client.txN)])
    case DeviceSends(p) =>
      if |p| > MAX_PAYLOAD then s
      else s.(device := s.device.(txN := Next(s.device.txN)), sentByDevice := s.sentByDevice + [p],
              usedByDevice := s.usedByDevice + [Pattern.Use(s.device.txKey, s.device.txN)])
    case ClientHears(f) =>
      var p := Accepts(c, s.client, f, MAX_PAYLOAD);
      if p.None? then s
      else s.(client := s.client.(rxN := Next(s.client.rxN)), gotByClient := s.gotByClient + [p.value])
    case DeviceHears(f, room) =>
      var p := Accepts(c, s.device, f, room);
      if p.None? then s
      else s.(device := s.device.(rxN := Next(s.device.rxN)), gotByDevice := s.gotByDevice + [p.value])
  }

  /** Someone has sealed this payload under this key and these nonce octets. */
  ghost predicate Sealed(s: Sys, key: bytes, nonce: bytes, payload: bytes)
  {
    || (key == s.client.txKey && SealedIn(s.sentByClient, nonce, payload))
    || (key == s.device.txKey && SealedIn(s.sentByDevice, nonce, payload))
  }

  /** Message `i` of a direction is sealed under nonce `i`. */
  ghost predicate SealedIn(sent: seq<bytes>, nonce: bytes, payload: bytes)
  {
    exists i :: 0 <= i < |sent| && nonce == Nonce(i) && payload == sent[i]
  }

  /** Ideal AEAD: the network cannot come up with a frame that opens unless it was sealed. */
  ghost predicate Unforged(c: Crypto, s: Sys, ev: Event)
  {
    match ev
    case ClientSends(_) => true
    case DeviceSends(_) => true
    case ClientHears(f) =>
      var p := c.open_(s.client.rxKey, Nonce(s.client.rxN), [], f);
      p.Some? ==> Sealed(s, s.client.rxKey, Nonce(s.client.rxN), p.value)
    case DeviceHears(f, _) =>
      var p := c.open_(s.device.rxKey, Nonce(s.device.rxN), [], f);
      p.Some? ==> Sealed(s, s.device.rxKey, Nonce(s.device.rxN), p.value)
  }

  function Run(c: Crypto, s: Sys, evs: seq<Event>): (r: Sys)
    decreases |evs|
  {
    if evs == [] then s else Run(c, Step(c, s, evs[0]), evs[1..])
  }

  ghost predicate RunUnforged(c: Crypto, s: Sys, evs: seq<Event>)
    decreases |evs|
  {
    evs == [] || (Unforged(c, s, evs[0]) && RunUnforged(c, Step(c, s, evs[0]), evs[1..]))
  }

  /** How handshakes leave two ends: counters at zero, nothing sent. */
  predicate Started(s: Sys)
  {
    && s.client.txN == 0 && s.client.rxN == 0 && s.device.txN == 0 && s.device.rxN == 0
    && s.sentByClient == [] && s.sentByDevice == [] && s.gotByClient == [] && s.gotByDevice == []
    && s.usedByClient == [] && s.usedByDevice == []
  }

  /** And the two ends of one handshake: with crossed keys, distinct per direction. */
  predicate Fresh(s: Sys)
  {
    && Started(s)
    && s.client.txKey == s.device.rxKey && s.client.rxKey == s.device.txKey && s.client.txKey != s.device.txKey
  }

  predicate Inv(s: Sys)
  {
    && s.client.txKey == s.device.rxKey && s.client.rxKey == s.device.txKey && s.client.txKey != s.device.txKey
    && s.gotByDevice <= s.sentByClient && s.gotByClient <= s.sentByDevice
    && Counts(s.client.txN, |s.sentByClient|) && Counts(s.device.txN, |s.sentByDevice|)
    && Counts(s.device.rxN, |s.gotByDevice|) && Counts(s.client.rxN, |s.gotByClient|)
  }

  /** A counter that has not yet wrapped equals the number of messages. */
  predicate Counts(counter: nat, messages: nat)
  {
    messages < TWO_64 ==> counter == messages
  }

  /** Fewer than 2^64 messages have been sent each way. */
  predicate Short(s: Sys)
  {
    |s.sentByClient| < TWO_64 && |s.sentByDevice| < TWO_64
  }

  lemma NextCounts(counter: nat, n: nat)
    requires Counts(counter, n)
    ensures Counts(Next(counter), n + 1)
  {
  }

  /** Only the first payload not yet accepted is sealed under the receiver's current nonce. */
  lemma OnlyTheNext(sent: seq<bytes>, got: nat, payload: bytes)
    requires got <= |sent| < TWO_64 && SealedIn(sent, Nonce(got), payload)
    ensures got < |sent| && payload == sent[got]
  {
    var i :| 0 <= i < |sent| && Nonce(got) == Nonce(i) && payload == sent[i];
    NonceInjective(got, i);
  }

  lemma StepKeeps(c: Crypto, s: Sys, ev: Event)
    requires Inv(s) && Short(s) && Unforged(c, s, ev)
    ensures Inv(Step(c, s, ev))
  {
    match ev
    case ClientSends(p) => NextCounts(s.client.txN, |s.sentByClient|);
    case DeviceSends(p) => NextCounts(s.device.txN, |s.sentByDevice|);
    case ClientHears(f) =>
      if Accepts(c, s.client, f, MAX_PAYLOAD).Some? {
        OnlyTheNext(s.sentByDevice, |s.gotByClient|, Accepts(c, s.client, f, MAX_PAYLOAD).value);
        NextCounts(s.client.rxN, |s.gotByClient|);
      }
    case DeviceHears(f, room) =>
      if Accepts(c, s.device, f, room).Some? {
        OnlyTheNext(s.sentByClient, |s.gotByDevice|, Accepts(c, s.device, f, room).value);
        NextCounts(s.device.rxN, |s.gotByDevice|);
      }
  }

  lemma {:induction false} SentOnlyGrows(c: Crypto, s: Sys, evs: seq<Event>)
    ensures |s.sentByClient| <= |Run(c, s, evs).sentByClient| && |s.sentByDevice| <= |Run(c, s, evs).sentByDevice|
    decreases |evs|
  {
    if evs != [] {
      SentOnlyGrows(c, Step(c, s, evs[0]), evs[1..]);
    }
  }

  lemma {:induction false} RunKeeps(c: Crypto, s: Sys, evs: seq<Event>)
    requires Inv(s) && RunUnforged(c, s, evs) && Short(Run(c, s, evs))
    ensures Inv(Run(c, s, evs))
    decreases |evs|
  {
    if evs != [] {
      SentOnlyGrows(c, s, evs);
      StepKeeps(c, s, evs[0]);
      RunKeeps(c, Step(c, s, evs[0]), evs[1..]);
    }
  }

  /**
   Over every run and every network: what each end has accepted is a prefix of
   what the other has sent. Nothing is reordered, repeated, altered or invented.
   */
  lemma AcceptedIsPrefix(c: Crypto, s: Sys, evs: seq<Event>)
    requires Fresh(s) && RunUnforged(c, s, evs) && Short(Run(c, s, evs))
    ensures var r := Run(c, s, evs); r.gotByDevice <= r.sentByClient && r.gotByClient <= r.sentByDevice
  {
    RunKeeps(c, s, evs);
  }

  // ------------------------------------------------------------ nonces used

  /** One end's encryptions so far: its key with the counters 0, 1, and so on. */
  predicate UsesInOrder(e: End, used: seq<Pattern.Use>)
  {
    && Counts(e.txN, |used|)
    && forall i :: 0 <= i < |used| && i < TWO_64 ==> used[i] == Pattern.Use(e.txKey, i)
  }

  predicate UsesKept(s: Sys)
  {
    && UsesInOrder(s.client, s.usedByClient) && |s.usedByClient| == |s.sentByClient|
    && UsesInOrder(s.device, s.usedByDevice) && |s.usedByDevice| == |s.sentByDevice|
  }

  lemma OneMoreUse(e: End, used: seq<Pattern.Use>)
    requires UsesInOrder(e, used)
    ensures UsesInOrder(e.(txN := Next(e.txN)), used + [Pattern.Use(e.txKey, e.txN)])
  {
    NextCounts(e.txN, |used|);
  }

  lemma StepUses(c: Crypto, s: Sys, ev: Event)
    requires UsesKept(s)
    ensures var r := Step(c, s, ev);
            UsesKept(r) && r.client.txKey == s.client.txKey && r.device.txKey == s.device.txKey
  {
    OneMoreUse(s.client, s.usedByClient);
    OneMoreUse(s.device, s.usedByDevice);
  }

  /** Whatever the network does, and whatever keys they hold, both ends count their nonces up from zero. */
  lemma {:induction false} RunUses(c: Crypto, s: Sys, evs: seq<Event>)
    requires UsesKept(s)
    ensures var r := Run(c, s, evs);
            UsesKept(r) && r.client.txKey == s.client.txKey && r.device.txKey == s.device.txKey
    decreases |evs|
  {
    hide Step, UsesKept;
    if evs != [] {
      StepUses(c, s, evs[0]);
      RunUses(c, Step(c, s, evs[0]), evs[1..]);
    }
  }

  lemma Opens(c: Crypto, e: End, n: nat, p: bytes)
    requires Lawful(c) && e.rxN == n && |p| <= MAX_PAYLOAD
    ensures Accepts(c, e, Ciphertext(c, e.rxKey, n, p), MAX_PAYLOAD) == Some(p)
  {
  }

  /** And nothing stands in the way of delivery: the next frame in line is accepted and is the next payload. */
  lemma NextFrameArrives(c: Crypto, s: Sys, p: bytes)
    requires Lawful(c) && Inv(s) && Short(s) && |p| <= MAX_PAYLOAD
    ensures |s.gotByDevice| < |s.sentByClient| && p == s.sentByClient[|s.gotByDevice|] ==>
            var f := Ciphertext(c, s.client.txKey, |s.gotByDevice|, p);
            Step(c, s, DeviceHears(f, MAX_PAYLOAD)).gotByDevice == s.gotByDevice + [p]
    ensures |s.gotByClient| < |s.sentByDevice| && p == s.sentByDevice[|s.gotByClient|] ==>
            var f := Ciphertext(c, s.device.txKey, |s.gotByClient|, p);
            Step(c, s, ClientHears(f)).gotByClient == s.gotByClient + [p]
  {
    Opens(c, s.device, s.device.rxN, p);
    Opens(c, s.client, s.client.rxN, p);
  }
}
