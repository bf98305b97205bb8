/**
 Which keys and nonces the two ends encrypt under, in any run against any
 network, and that no pair is ever used twice.
 */
module NoiseNonces {
  import opened Octets
  import opened NoiseCrypto
  import opened NoisePattern
  import opened NoiseHandshake
  import opened KeySchedule
  import Channel

  /** The inputs mixed in: ee, es, se, and the empty input of Split. */
  type Inputs = seq<bytes>

  function NoiseKdf(c: Crypto): (f: Kdf<bytes>)
  {
    Kdf((ck: bytes, ikm: bytes) => (ClientHkdf2(c, ck, ikm).first, ClientHkdf2(c, ck, ikm).second), PROTOCOL_NAME)
  }

  /** AEAD uses as key and nonce counter pairs. */
  function Pairs(u: seq<Use>): (r: seq<Pair<bytes>>)
    ensures |r| == |u| && forall i :: 0 <= i < |u| ==> r[i] == Pair(u[i].key, u[i].nonce)
  {
    if u == [] then [] else Pairs(u[..|u| - 1]) + [Pair(u[|u| - 1].key, u[|u| - 1].nonce)]
  }

  lemma ScheduleUnrolled(c: Crypto, ikms: Inputs)
    requires |ikms| == 4
    ensures var f := NoiseKdf(c);
            && CipherKey(f, ikms, 1) == ClientHkdf2(c, PROTOCOL_NAME, ikms[0]).second
            && Ck(f, ikms, 1) == ClientHkdf2(c, PROTOCOL_NAME, ikms[0]).first
            && CipherKey(f, ikms, 2) == ClientHkdf2(c, Ck(f, ikms, 1), ikms[1]).second
            && Ck(f, ikms, 2) == ClientHkdf2(c, Ck(f, ikms, 1), ikms[1]).first
            && CipherKey(f, ikms, 3) == ClientHkdf2(c, Ck(f, ikms, 2), ikms[2]).second
            && Ck(f, ikms, 3) == ClientHkdf2(c, Ck(f, ikms, 2), ikms[2]).first
            && CipherKey(f, ikms, 4) == ClientHkdf2(c, Ck(f, ikms, 3), ikms[3]).second
            && Ck(f, ikms, 4) == ClientHkdf2(c, Ck(f, ikms, 3), ikms[3]).first
  {
    assert Ck(NoiseKdf(c), ikms, 0) == PROTOCOL_NAME;
  }

  /** The keys of message 2 as the device writes it, whatever arrived as message 1. */
  lemma DeviceMsg2Keys(c: Crypto, p: Party, chain: bytes)
    requires Lawful(c) && !p.initiator && p.re.Some? && WriteMessage(c, p, MSG2, chain).Some?
    ensures var w := WriteMessage(c, p, MSG2, chain).value;
            var ee, es := c.dh(p.e, p.re.value), c.dh(p.s, p.re.value);
            ee.Some? && es.Some? &&
            var k1 := ClientHkdf2(c, p.sym.ck, ee.value);
            var k2 := ClientHkdf2(c, k1.first, es.value);
            w.uses == [Use(k1.second, 0), Use(k2.second, 0)] && w.party.sym.ck == k2.first
  {
    WriteMsg2Unrolled(c, p, chain);
  }

  /** The two transport keys: the device sends under the last cipher key, the client under the last chaining key. */
  lemma TransportKeys(c: Crypto, sym: Sym, ikms: Inputs)
    requires |ikms| == 4 && ikms[3] == [] && sym.ck == Ck(NoiseKdf(c), ikms, 3)
    ensures SplitKeys(c, sym).second == CipherKey(NoiseKdf(c), ikms, 4)
    ensures SplitKeys(c, sym).first == Ck(NoiseKdf(c), ikms, 4)
  {
    ScheduleUnrolled(c, ikms);
  }

  /** Reading message 2 leaves the counter at one under the second cipher key, whatever was received. */
  lemma ClientAfterMsg2(c: Crypto, p: Party, msg2: bytes)
    requires Lawful(c) && p.initiator && p.eSent && p.sym.ck == PROTOCOL_NAME && |msg2| >= 96
    requires ReadMessage(c, p, MSG2, msg2).Some?
    ensures var r := ReadMessage(c, p, MSG2, msg2).value.party;
            && r.re.Some? && r.rs.Some? && r.initiator && r.s == p.s
            && c.dh(p.e, r.re.value).Some? && c.dh(p.e, r.rs.value).Some?
            && r.sym.hasKey && r.sym.n == 1
            && var k1 := ClientHkdf2(c, PROTOCOL_NAME, c.dh(p.e, r.re.value).value).first;
               var kp := ClientHkdf2(c, k1, c.dh(p.e, r.rs.value).value);
               r.sym.ck == kp.first && r.sym.k == kp.second
  {
    ReadMsg2Tokens(c, p, msg2);
  }

  /** The keys of message 3 as the client writes it. */
  lemma ClientMsg3Keys(c: Crypto, p: Party, payload: bytes)
    requires Lawful(c) && p.initiator && p.re.Some? && p.sym.hasKey && WriteMessage(c, p, MSG3, payload).Some?
    ensures var w := WriteMessage(c, p, MSG3, payload).value;
            var se := c.dh(p.s, p.re.value);
            se.Some? &&
            var k3 := ClientHkdf2(c, p.sym.ck, se.value);
            w.uses == [Use(p.sym.k, p.sym.n), Use(k3.second, 0)] && w.party.sym.ck == k3.first
  {
    WriteMsg3Unrolled(c, p, payload);
  }

  /** Reading message 3 is the third step of the device's key schedule, whatever was received. */
  lemma DeviceAfterMsg3(c: Crypto, p: Party, msg3: bytes)
    requires Lawful(c) && !p.initiator && p.eSent && p.sym.hasKey && |msg3| >= 64
    requires ReadMessage(c, p, MSG3, msg3).Some?
    ensures var r := ReadMessage(c, p, MSG3, msg3).value.party;
            && r.rs.Some? && c.dh(p.e, r.rs.value).Some?
            && r.sym.ck == ClientHkdf2(c, p.sym.ck, c.dh(p.e, r.rs.value).value).first
  {
    ReadMsg3Tokens(c, p, msg3);
  }

  // ------------------------------------------------- one end, against any network

  /** A device's handshake: its keys, its chain, and whatever arrives as messages 1 and 3. */
  datatype DeviceRun = DeviceRun(s: bytes, e: bytes, chain: bytes, msg1: bytes, msg3: bytes)

  /** The party after message 1. */
  function DeviceParty(c: Crypto, d: DeviceRun): (p: Option<Received>)
  {
    if |d.msg1| != 32 then None else ReadMessage(c, NewParty(c, d.s, d.e, false), MSG1, d.msg1)
  }

  /** Message 2, if the device gets that far. */
  function DeviceWrites(c: Crypto, d: DeviceRun): (w: Option<Written>)
  {
    match DeviceParty(c, d) case None => None case Some(r) => WriteMessage(c, r.party, MSG2, d.chain)
  }

  /** Message 3 as read, if the device gets that far. */
  function DeviceEnds(c: Crypto, d: DeviceRun): (r: Option<Received>)
  {
    match DeviceWrites(c, d)
    case None => None
    case Some(w) => if |d.msg3| < 64 then None else ReadMessage(c, w.party, MSG3, d.msg3)
  }

  /** A client's handshake: its keys, its payload, and whatever arrives as message 2. */
  datatype ClientRun = ClientRun(s: bytes, e: bytes, payload: bytes, msg2: bytes)

  /** Message 2 as read, if the client gets that far. */
  function ClientReads(c: Crypto, d: ClientRun): (r: Option<Received>)
  {
    match WriteMessage(c, NewParty(c, d.s, d.e, true), MSG1, [])
    case None => None
    case Some(w) => if |d.msg2| < 96 || |d.msg2| > CLIENT_MSG_MAX then None else ReadMessage(c, w.party, MSG2, d.msg2)
  }

  /** Message 3, if the client gets that far. */
  function ClientEnds(c: Crypto, d: ClientRun): (w: Option<Written>)
  {
    match ClientReads(c, d) case None => None case Some(r) => WriteMessage(c, r.party, MSG3, d.payload)
  }

  /** What the device encrypts in its handshake: message 2, or its first half when the second key cannot be agreed. */
  function DeviceUses(c: Crypto, d: DeviceRun): (u: seq<Use>)
  {
    if DeviceWrites(c, d).Some? then DeviceWrites(c, d).value.uses
    else if |d.msg1| == 32 && c.dh(d.e, d.msg1).Some?
    then [Use(ClientHkdf2(c, PROTOCOL_NAME, c.dh(d.e, d.msg1).value).second, 0)] else []
  }

  /** What the client encrypts in its handshake: message 3, or its first half. */
  function ClientUses(c: Crypto, d: ClientRun): (u: seq<Use>)
  {
    if ClientEnds(c, d).Some? then ClientEnds(c, d).value.uses
    else if ClientReads(c, d).Some? then [Use(ClientReads(c, d).value.party.sym.k, ClientReads(c, d).value.party.sym.n)]
    else []
  }

  /** What a run mixes into its chaining key, as far as it gets. */
  predicate DeviceMixes(c: Crypto, d: DeviceRun, ikms: Inputs)
  {
    if DeviceUses(c, d) == [] then ikms == []
    else if DeviceWrites(c, d).None? then |ikms| == 1 && c.dh(d.e, d.msg1) == Some(ikms[0])
    else
      && |ikms| == (if DeviceEnds(c, d).None? then 2 else 4)
      && c.dh(d.e, d.msg1) == Some(ikms[0]) && c.dh(d.s, d.msg1) == Some(ikms[1])
      && (|ikms| == 4 ==> && ikms[3] == [] && DeviceEnds(c, d).value.party.rs.Some?
                          && c.dh(d.e, DeviceEnds(c, d).value.party.rs.value) == Some(ikms[2]))
  }

  predicate ClientMixes(c: Crypto, d: ClientRun, ikms: Inputs)
  {
    if ClientReads(c, d).None? then ikms == []
    else
      var r := ClientReads(c, d).value.party;
      && |ikms| == (if ClientEnds(c, d).None? then 2 else 4) && r.re.Some? && r.rs.Some?
      && c.dh(d.e, r.re.value) == Some(ikms[0]) && c.dh(d.e, r.rs.value) == Some(ikms[1])
      && (|ikms| == 4 ==> ikms[3] == [] && c.dh(d.s, r.re.value) == Some(ikms[2]))
  }

  /** The state in which the device writes message 2. */
  lemma DevicePartyIs(c: Crypto, d: DeviceRun)
    requires |d.msg1| == 32
    ensures DeviceParty(c, d).Some?
    ensures var p := DeviceParty(c, d).value.party;
            !p.initiator && p.re == Some(d.msg1) && p.s == d.s && p.e == d.e && p.sym.ck == PROTOCOL_NAME
  {
    Msg1Unrolled(c, NewParty(c, d.s, d.e, false), d.msg1);
  }

  lemma AfterMsg2(c: Crypto, p: Party, chain: bytes)
    requires Lawful(c) && !p.initiator && p.re.Some? && WriteMessage(c, p, MSG2, chain).Some?
    ensures var q := WriteMessage(c, p, MSG2, chain).value.party;
            q.eSent && q.sym.hasKey && !q.initiator && q.e == p.e
  {
    WriteMsg2Unrolled(c, p, chain);
  }

  /** The schedule, two and three steps along. */
  lemma ScheduleSteps(c: Crypto, ikms: Inputs)
    ensures var f := NoiseKdf(c);
            && (|ikms| >= 1 ==> CipherKey(f, ikms, 1) == ClientHkdf2(c, PROTOCOL_NAME, ikms[0]).second)
            && (|ikms| >= 2 ==>
                  && CipherKey(f, ikms, 2) == ClientHkdf2(c, ClientHkdf2(c, PROTOCOL_NAME, ikms[0]).first, ikms[1]).second
                  && Ck(f, ikms, 2) == ClientHkdf2(c, ClientHkdf2(c, PROTOCOL_NAME, ikms[0]).first, ikms[1]).first)
            && (|ikms| >= 3 ==> Ck(f, ikms, 3) == ClientHkdf2(c, Ck(f, ikms, 2), ikms[2]).first)
  {
    if |ikms| >= 1 {
      assert Ck(NoiseKdf(c), ikms, 0) == PROTOCOL_NAME;
      assert Ck(NoiseKdf(c), ikms, 1) == ClientHkdf2(c, PROTOCOL_NAME, ikms[0]).first;
    }
  }

  /** Whatever arrives, the device encrypts under exactly these pairs, and its chaining key is the schedule's. */
  lemma DeviceRunUses(c: Crypto, d: DeviceRun) returns (ikms: Inputs)
    requires Lawful(c)
    ensures DeviceMixes(c, d, ikms) && DeviceStage(ikms, 0)
    ensures Pairs(DeviceUses(c, d)) == DevicePairs(NoiseKdf(c), ikms, 0)
    ensures DeviceEnds(c, d).Some? <==> |ikms| == 4
    ensures |ikms| == 4 ==> ikms[3] == []
    ensures DeviceEnds(c, d).Some? ==> DeviceEnds(c, d).value.party.sym.ck == Ck(NoiseKdf(c), ikms, 3)
  {
    hide WriteMessage, ReadMessage, ClientHkdf2;
    ikms := [];
    if DeviceWrites(c, d).None? && DeviceUses(c, d) != [] {
      ikms := [c.dh(d.e, d.msg1).value];
      ScheduleSteps(c, ikms);
    }
    if DeviceWrites(c, d).Some? {
      DevicePartyIs(c, d);
      var p := DeviceParty(c, d).value.party;
      DeviceMsg2Keys(c, p, d.chain);
      AfterMsg2(c, p, d.chain);
      ikms := [c.dh(d.e, d.msg1).value, c.dh(d.s, d.msg1).value];
      if DeviceEnds(c, d).Some? {
        var q := DeviceWrites(c, d).value.party;
        DeviceAfterMsg3(c, q, d.msg3);
        ikms := ikms + [c.dh(d.e, DeviceEnds(c, d).value.party.rs.value).value, []];
      }
      ScheduleSteps(c, ikms);
    }
  }

  /** The state in which the client reads message 2. */
  lemma ClientPartyIs(c: Crypto, d: ClientRun)
    ensures var w := WriteMessage(c, NewParty(c, d.s, d.e, true), MSG1, []);
            w.Some? && var p := w.value.party;
            p.initiator && p.eSent && p.s == d.s && p.e == d.e && p.sym.ck == PROTOCOL_NAME && w.value.uses == []
  {
    Msg1Unrolled(c, NewParty(c, d.s, d.e, true), []);
  }

  /** Whatever arrives, the client encrypts under exactly these pairs, and its chaining key is the schedule's. */
  lemma ClientRunUses(c: Crypto, d: ClientRun) returns (ikms: Inputs)
    requires Lawful(c)
    ensures ClientMixes(c, d, ikms) && ClientStage(ikms, 0)
    ensures Pairs(ClientUses(c, d)) == ClientPairs(NoiseKdf(c), ikms, 0)
    ensures ClientEnds(c, d).Some? <==> |ikms| == 4
    ensures |ikms| == 4 ==> ikms[3] == []
    ensures ClientEnds(c, d).Some? ==> ClientEnds(c, d).value.party.sym.ck == Ck(NoiseKdf(c), ikms, 3)
  {
    hide WriteMessage, ReadMessage, ClientHkdf2;
    ikms := [];
    ClientPartyIs(c, d);
    if ClientReads(c, d).Some? {
      var p := WriteMessage(c, NewParty(c, d.s, d.e, true), MSG1, []).value.party;
      ClientAfterMsg2(c, p, d.msg2);
      var r := ClientReads(c, d).value.party;
      ikms := [c.dh(d.e, r.re.value).value, c.dh(d.e, r.rs.value).value];
      if ClientEnds(c, d).Some? {
        ClientMsg3Keys(c, r, d.payload);
        ikms := ikms + [c.dh(d.s, r.re.value).value, []];
        ScheduleUnrolled(c, ikms);
      }
      ScheduleSteps(c, ikms);
    }
  }

  // -------------------------------------------------------------- the theorem

  /** The same AEAD key with the same twelve nonce octets. */
  predicate Clash(a: Use, b: Use)
  {
    a.key == b.key && Nonce(a.nonce) == Nonce(b.nonce)
  }

  /** Two ends after their handshakes, of one session or of two: each holds the keys its own handshake gave it. */
  predicate Holds(c: Crypto, dev: DeviceRun, cli: ClientRun, s: Channel.Sys)
  {
    && Channel.Started(s)
    && (DeviceEnds(c, dev).Some? ==> s.device.txKey == SplitKeys(c, DeviceEnds(c, dev).value.party.sym).second)
    && (ClientEnds(c, cli).Some? ==> s.client.txKey == SplitKeys(c, ClientEnds(c, cli).value.party.sym).first)
  }

  /** Everything the two ends encrypt: the handshake messages they write and the transport messages they send. */
  function AllUses(c: Crypto, dev: DeviceRun, cli: ClientRun, r: Channel.Sys): (u: seq<Use>)
  {
    DeviceUses(c, dev) + r.usedByDevice + (ClientUses(c, cli) + r.usedByClient)
  }

  lemma {:induction false} PairsOfSum(a: seq<Use>, b: seq<Use>)
    ensures Pairs(a + b) == Pairs(a) + Pairs(b)
  {
  }

  /** Counted transport uses, as pairs. */
  lemma {:induction false} TransportPairs(e: Channel.End, used: seq<Use>)
    requires Channel.UsesInOrder(e, used) && |used| <= TWO_64
    ensures Pairs(used) == Counted(e.txKey, |used|)
  {
  }

  lemma {:induction false} DeviceAllUses(c: Crypto, dev: DeviceRun, r: Channel.Sys, ikms: Inputs)
    requires DeviceStage(ikms, |r.usedByDevice|) && Channel.UsesInOrder(r.device, r.usedByDevice) && |r.usedByDevice| <= TWO_64
    requires Pairs(DeviceUses(c, dev)) == DevicePairs(NoiseKdf(c), ikms, 0)
    requires |ikms| == 4 ==> r.device.txKey == CipherKey(NoiseKdf(c), ikms, 4)
    ensures Pairs(DeviceUses(c, dev) + r.usedByDevice) == DevicePairs(NoiseKdf(c), ikms, |r.usedByDevice|)
  {
    hide DeviceUses, NoiseKdf, Ck, CipherKey;
    PairsOfSum(DeviceUses(c, dev), r.usedByDevice);
    TransportPairs(r.device, r.usedByDevice);
  }

  lemma {:induction false} ClientAllUses(c: Crypto, cli: ClientRun, r: Channel.Sys, ikms: Inputs)
    requires ClientStage(ikms, |r.usedByClient|) && Channel.UsesInOrder(r.client, r.usedByClient) && |r.usedByClient| <= TWO_64
    requires Pairs(ClientUses(c, cli)) == ClientPairs(NoiseKdf(c), ikms, 0)
    requires |ikms| == 4 ==> r.client.txKey == Ck(NoiseKdf(c), ikms, 4)
    ensures Pairs(ClientUses(c, cli) + r.usedByClient) == ClientPairs(NoiseKdf(c), ikms, |r.usedByClient|)
  {
    hide ClientUses, NoiseKdf, Ck, CipherKey;
    PairsOfSum(ClientUses(c, cli), r.usedByClient);
    TransportPairs(r.client, r.usedByClient);
  }

  lemma {:induction false} NoClash(u: seq<Use>, i: nat, j: nat)
    requires AllDistinct(Pairs(u)) && i < j < |u| && u[i].nonce < TWO_64 && u[j].nonce < TWO_64
    ensures !Clash(u[i], u[j])
  {
    assert Pairs(u)[i] != Pairs(u)[j];
    if Clash(u[i], u[j]) {
      NonceInjective(u[i].nonce, u[j].nonce);
    }
  }

  /** Everything the device encrypts, as pairs of its key schedule. */
  lemma {:induction false} DeviceSide(c: Crypto, dev: DeviceRun, r: Channel.Sys) returns (ikms: Inputs)
    requires Lawful(c) && Channel.UsesInOrder(r.device, r.usedByDevice) && |r.usedByDevice| <= TWO_64
    requires DeviceEnds(c, dev).Some? ==> r.device.txKey == SplitKeys(c, DeviceEnds(c, dev).value.party.sym).second
    requires DeviceEnds(c, dev).None? ==> r.usedByDevice == []
    ensures DeviceMixes(c, dev, ikms) && DeviceStage(ikms, |r.usedByDevice|)
    ensures Pairs(DeviceUses(c, dev) + r.usedByDevice) == DevicePairs(NoiseKdf(c), ikms, |r.usedByDevice|)
  {
    hide DeviceUses, DeviceEnds, DeviceMixes, NoiseKdf, Ck, CipherKey, DevicePairs, SplitKeys, Pairs;
    ikms := DeviceRunUses(c, dev);
    if DeviceEnds(c, dev).Some? {
      TransportKeys(c, DeviceEnds(c, dev).value.party.sym, ikms);
    }
    DeviceAllUses(c, dev, r, ikms);
  }

  lemma {:induction false} ClientSide(c: Crypto, cli: ClientRun, r: Channel.Sys) returns (ikms: Inputs)
    requires Lawful(c) && Channel.UsesInOrder(r.client, r.usedByClient) && |r.usedByClient| <= TWO_64
    requires ClientEnds(c, cli).Some? ==> r.client.txKey == SplitKeys(c, ClientEnds(c, cli).value.party.sym).first
    requires ClientEnds(c, cli).None? ==> r.usedByClient == []
    ensures ClientMixes(c, cli, ikms) && ClientStage(ikms, |r.usedByClient|)
    ensures Pairs(ClientUses(c, cli) + r.usedByClient) == ClientPairs(NoiseKdf(c), ikms, |r.usedByClient|)
  {
    hide ClientUses, ClientEnds, ClientMixes, NoiseKdf, Ck, CipherKey, ClientPairs, SplitKeys, Pairs;
    ikms := ClientRunUses(c, cli);
    if ClientEnds(c, cli).Some? {
      TransportKeys(c, ClientEnds(c, cli).value.party.sym, ikms);
    }
    ClientAllUses(c, cli, r, ikms);
  }

  /** All the counters are below 2^64. */
  lemma {:induction false} SmallNonces(f: Kdf<bytes>, di: Inputs, ci: Inputs, m: nat, n: nat, u: seq<Use>)
    requires DeviceStage(di, m) && ClientStage(ci, n) && m <= TWO_64 && n <= TWO_64
    requires Pairs(u) == DevicePairs(f, di, m) + ClientPairs(f, ci, n)
    ensures forall i :: 0 <= i < |u| ==> u[i].nonce < TWO_64
  {
    hide CipherKey, Ck, Pairs;
    var a, b := DevicePairs(f, di, m), ClientPairs(f, ci, n);
    assert forall i :: 0 <= i < |a| ==> a[i].nonce < TWO_64;
    assert forall i :: 0 <= i < |b| ==> b[i].nonce < TWO_64;
    hide DevicePairs, ClientPairs;
    forall i | 0 <= i < |u| ensures u[i].nonce < TWO_64 {
      assert (a + b)[i].nonce == u[i].nonce;
    }
  }

  /**
   No AEAD encryption of either end, in the handshake or in up to 2^64
   transport messages each way, repeats a key and nonce of its own or of the
   other end: whatever the network delivers to either, however far each gets,
   and whether or not they talk to each other. `di` and `ci` are what their
   runs mix into the chaining keys.
   */
  lemma {:induction false} NoNonceReuse(c: Crypto, dev: DeviceRun, cli: ClientRun, s: Channel.Sys, evs: seq<Channel.Event>,
                                        i: nat, j: nat) returns (di: Inputs, ci: Inputs)
    requires Lawful(c) && Holds(c, dev, cli, s)
    requires var r := Channel.Run(c, s, evs);
             && |r.usedByDevice| <= TWO_64 && |r.usedByClient| <= TWO_64
             && (DeviceEnds(c, dev).None? ==> r.usedByDevice == [])
             && (ClientEnds(c, cli).None? ==> r.usedByClient == [])
             && i < j < |AllUses(c, dev, cli, r)|
    ensures DeviceMixes(c, dev, di) && ClientMixes(c, cli, ci)
    ensures var f := NoiseKdf(c);
            NoCollision(f, Calls(f, di) + Calls(f, ci)) ==>
            var u := AllUses(c, dev, cli, Channel.Run(c, s, evs)); !Clash(u[i], u[j])
  {
    hide Channel.Run, DeviceUses, ClientUses, DeviceEnds, ClientEnds, DeviceMixes, ClientMixes, NoiseKdf, NoCollision, Calls,
         DevicePairs, ClientPairs, SplitKeys, Pairs, Clash, AllDistinct;
    var r := Channel.Run(c, s, evs);
    Channel.RunUses(c, s, evs);
    di := DeviceSide(c, dev, r);
    ci := ClientSide(c, cli, r);
    var a, b := DeviceUses(c, dev) + r.usedByDevice, ClientUses(c, cli) + r.usedByClient;
    PairsOfSum(a, b);
    SmallNonces(NoiseKdf(c), di, ci, |r.usedByDevice|, |r.usedByClient|, a + b);
    if NoCollision(NoiseKdf(c), Calls(NoiseKdf(c), di) + Calls(NoiseKdf(c), ci)) {
      PairsDistinct(NoiseKdf(c), di, ci, |r.usedByDevice|, |r.usedByClient|);
      NoClash(a + b, i, j);
    }
  }
}
