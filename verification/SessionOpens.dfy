/** Whole sessions: the handshakes of both ends as code, the channel they open, and the chains they carry. */
module SessionOpens {
  import opened Octets
  import opened NoiseCrypto
  import opened NoisePattern
  import opened NoiseHandshake
  import opened NoiseNonces
  import opened KeySchedule
  import opened Transcript
  import Channel
  import Chain = ChainPayload
  import CborEmit
  import CborWritten

  // ------------------------------------------------------------ what is encrypted

  /**
   session_open on whatever arrives: what it has encrypted is what its run
   writes; it opens a session exactly when it accepts message 3, within its
   buffers and from the client expected, if one is; and that session sends under the run's key from counter zero.
   */
  method DeviceOpen(c: Crypto, d: DeviceRun, expected: Option<bytes>) returns (session: Option<Channel.Session>, ghost uses: seq<Use>)
    requires Lawful(c) && |d.chain| <= CHAIN_PT_MAX
    ensures uses == DeviceUses(c, d)
    ensures session.Some? <==>
            && DeviceEnds(c, d).Some? && |d.msg3| <= HS_MSG_MAX
            && var r := DeviceEnds(c, d).value;
               && r.party.rs.Some? && |r.party.rs.value| <= 32 && |r.rest| <= CHAIN_PT_MAX
               && (expected.None? || expected == r.party.rs)
    ensures session.Some? ==>
            && fresh(session.value) && session.value.device && session.value.uses == [] && DeviceEnds(c, d).Some?
            && var k := SplitKeys(c, DeviceEnds(c, d).value.party.sym);
               session.value.Val() == Channel.End(k.second, k.first, 0, 0)
  {
    hide ReadMessage, WriteMessage, SplitKeys;
    session := None;
    var sym := new SymState(c, true);
    var ok := DeviceRead(c, sym, d.s, d.e, d.msg1);
    uses := sym.uses;
    if !ok { return; }
    DevicePartyIs(c, d);
    ghost var p := DeviceParty(c, d).value.party;
    var msg2 := DeviceReply(c, sym, d.s, d.e, d.msg1, d.chain, p);
    uses := sym.uses;
    if msg2.None? { return; }
    AfterMsg2(c, p, d.chain);
    if DeviceEnds(c, d).Some? {
      DeviceAfterMsg3(c, DeviceWrites(c, d).value.party, d.msg3);
    }
    var peer := DeviceFinish(c, sym, d.e, d.msg3, expected, DeviceWrites(c, d).value.party);
    if peer.None? { return; }
    var k := sym.Split(c);
    var s := new Channel.Session(k.second, k.first, true);
    session := Some(s);
  }

  /** cantil_session_open on whatever arrives, likewise. */
  method ClientOpen(c: Crypto, d: ClientRun) returns (session: Option<Channel.Session>, ghost uses: seq<Use>)
    requires Lawful(c)
    ensures uses == ClientUses(c, d)
    ensures session.Some? <==> ClientEnds(c, d).Some?
    ensures session.Some? ==>
            && fresh(session.value) && !session.value.device && session.value.uses == []
            && var k := SplitKeys(c, ClientEnds(c, d).value.party.sym);
               session.value.Val() == Channel.End(k.first, k.second, 0, 0)
  {
    hide ReadMessage, WriteMessage, SplitKeys;
    session, uses := None, [];
    var sym := new SymState(c, false);
    var msg1 := ClientHello(c, sym, d.s, d.e);
    ClientPartyIs(c, d);
    ghost var p := WriteMessage(c, NewParty(c, d.s, d.e, true), MSG1, []).value.party;
    var hello := ClientRead(c, sym, d.e, d.msg2, p);
    if hello.None? { return; }
    ClientAfterMsg2(c, p, d.msg2);
    var msg3 := ClientReply(c, sym, d.s, hello.value.re, d.payload, ClientReads(c, d).value.party);
    uses := sym.uses;
    if msg3.None? { return; }
    var k := sym.Split(c);
    var s := new Channel.Session(k.first, k.second, false);
    session := Some(s);
  }

  // ------------------------------------------------------------------ the channel

  /** Both ends as their handshakes leave them. */
  function Opened(k: KeyPair): (s: Channel.Sys)
  {
    Channel.Sys(Channel.End(k.first, k.second, 0, 0), Channel.End(k.second, k.first, 0, 0), [], [], [], [], [], [])
  }

  /** What an honest run mixes into the chaining key. */
  predicate RunMixes(c: Crypto, sI: bytes, eI: bytes, sR: bytes, eR: bytes, ikms: Inputs)
  {
    && |ikms| == 4 && ikms[3] == [] && c.dh(eI, c.pub(eR)) == Some(ikms[0])
    && c.dh(eI, c.pub(sR)) == Some(ikms[1]) && c.dh(sI, c.pub(eR)) == Some(ikms[2])
  }

  /** Where an honest run stands in the key schedule when its client has written message 3. */
  lemma RunSchedule(c: Crypto, run: Run, sI: bytes, eI: bytes, sR: bytes, eR: bytes, chain: bytes, payload: bytes)
    returns (ikms: Inputs)
    requires Lawful(c) && IsRun(c, run, sI, eI, sR, eR, chain, payload)
    ensures RunMixes(c, sI, eI, sR, eR, ikms) && run.m3.party.sym.ck == Ck(NoiseKdf(c), ikms, 3)
  {
    hide ReadMessage, WriteMessage, ClientHkdf2;
    Msg2Length(c, run, sI, eI, sR, eR, chain, payload);
    RunKeys(c, run, sI, eI, sR, eR, chain, payload);
    ClientPartyIs(c, ClientRun(sI, eI, payload, run.m2.msg));
    ClientAfterMsg2(c, run.m1.party, run.m2.msg);
    ClientMsg3Keys(c, run.r2.party, payload);
    ikms := [c.dh(eI, c.pub(eR)).value, c.dh(eI, c.pub(sR)).value, c.dh(sI, c.pub(eR)).value, []];
    ScheduleUnrolled(c, ikms);
  }

  /** The keys an honest run splits off are crossed between the ends and differ by direction: the channel starts fresh. */
  lemma ChannelStartsFresh(c: Crypto, run: Run, sI: bytes, eI: bytes, sR: bytes, eR: bytes, chain: bytes, payload: bytes)
    returns (ikms: Inputs)
    requires Lawful(c) && IsRun(c, run, sI, eI, sR, eR, chain, payload)
    ensures RunMixes(c, sI, eI, sR, eR, ikms)
    ensures SplitKeys(c, run.m3.party.sym) == SplitKeys(c, run.r3.party.sym)
    ensures NoCollision(NoiseKdf(c), Calls(NoiseKdf(c), ikms)) ==> Channel.Fresh(Opened(SplitKeys(c, run.m3.party.sym)))
  {
    hide ReadMessage, WriteMessage, Mirror, NoiseKdf, Ck, CipherKey, SplitKeys, NoCollision;
    RunAgrees(c, run, sI, eI, sR, eR, chain, payload);
    ikms := RunSchedule(c, run, sI, eI, sR, eR, chain, payload);
    TransportKeys(c, run.m3.party.sym, ikms);
    if NoCollision(NoiseKdf(c), Calls(NoiseKdf(c), ikms)) {
      ChainKeyIsNoCipherKey(NoiseKdf(c), ikms, ikms, Calls(NoiseKdf(c), ikms), 4, 4);
    }
  }

  /** So over every run of the session it opens, on every network, each end has accepted a prefix of what the other sent. */
  lemma SessionDelivers(c: Crypto, run: Run, sI: bytes, eI: bytes, sR: bytes, eR: bytes, chain: bytes, payload: bytes,
                        evs: seq<Channel.Event>) returns (ikms: Inputs)
    requires Lawful(c) && IsRun(c, run, sI, eI, sR, eR, chain, payload)
    requires Channel.RunUnforged(c, Opened(SplitKeys(c, run.m3.party.sym)), evs)
    requires Channel.Short(Channel.Run(c, Opened(SplitKeys(c, run.m3.party.sym)), evs))
    ensures RunMixes(c, sI, eI, sR, eR, ikms)
    ensures NoCollision(NoiseKdf(c), Calls(NoiseKdf(c), ikms)) ==>
            var r := Channel.Run(c, Opened(SplitKeys(c, run.m3.party.sym)), evs);
            r.gotByDevice <= r.sentByClient && r.gotByClient <= r.sentByDevice
  {
    hide Channel.Run, Channel.RunUnforged, IsRun, SplitKeys, NoiseKdf, NoCollision, Opened;
    ikms := ChannelStartsFresh(c, run, sI, eI, sR, eR, chain, payload);
    if NoCollision(NoiseKdf(c), Calls(NoiseKdf(c), ikms)) {
      Channel.AcceptedIsPrefix(c, Opened(SplitKeys(c, run.m3.party.sym)), evs);
    }
  }

  /** What the device of a completed handshake mixed in is what the honest run mixes. */
  lemma SameInputs(c: Crypto, d: DeviceRun, e: ClientRun, ikms: Inputs)
    requires Lawful(c) && MetAll(c, d, e) && DeviceEnds(c, d).Some? && RunMixes(c, e.s, e.e, d.s, d.e, ikms)
    requires DeviceEnds(c, d).value.party.rs == Some(c.pub(e.s))
    ensures DeviceInputs(c, d) == ikms
  {
    hide DeviceEnds, DeviceWrites, ClientEnds;
    var di := DeviceInputs(c, d);
    DeviceOpening(c, d);
    assert DeviceUses(c, d) != [] by { DeviceWriting(c, d); }
    assert c.dh(d.e, c.pub(e.e)) == c.dh(e.e, c.pub(d.e)) && c.dh(d.s, c.pub(e.e)) == c.dh(e.e, c.pub(d.s));
    assert c.dh(d.e, c.pub(e.s)) == c.dh(e.s, c.pub(d.e));
    assert di == [di[0], di[1], di[2], di[3]] && ikms == [ikms[0], ikms[1], ikms[2], ikms[3]];
  }

  lemma IdealDevice(c: Crypto, w: World, i: nat)
    requires Lawful(c) && Ideal(c, w) && i < |w.devices|
    ensures NoCollision(NoiseKdf(c), Calls(NoiseKdf(c), DeviceInputs(c, w.devices[i])))
  {
    hide NoiseKdf, Calls, NoHashCollision, DeviceInputs, ClientInputs, ClientCovered;
    var calls, inputs :| IdealOn(c, w, calls, inputs);
    assert DeviceCovered(c, w.devices[i], calls, inputs);
  }

  /**
   From any network to the application: a device that accepts message 3 shares its keys with a
   client that had the same conversation, each holds the other's static key and payload, and over every
   run of their session, on every network, each has accepted a prefix of what the other sent.
   */
  lemma AuthenticSession(c: Crypto, w: World, i: nat, evs: seq<Channel.Event>) returns (j: nat)
    requires Lawful(c) && Ideal(c, w) && i < |w.devices|
    requires DeviceEnds(c, w.devices[i]).Some? && DeviceHearsGenuine(c, w, w.devices[i])
    requires var s := Opened(SplitKeys(c, DeviceEnds(c, w.devices[i]).value.party.sym));
             Channel.RunUnforged(c, s, evs) && Channel.Short(Channel.Run(c, s, evs))
    ensures j < |w.clients| && MetAll(c, w.devices[i], w.clients[j])
    ensures var d, e := w.devices[i], w.clients[j];
            && SplitKeys(c, ClientEnds(c, e).value.party.sym) == SplitKeys(c, DeviceEnds(c, d).value.party.sym)
            && DeviceEnds(c, d).value.party.rs == Some(c.pub(e.s)) && DeviceEnds(c, d).value.rest == e.payload
            && ClientReads(c, e).value.party.rs == Some(c.pub(d.s)) && ClientReads(c, e).value.rest == d.chain
            && var r := Channel.Run(c, Opened(SplitKeys(c, DeviceEnds(c, d).value.party.sym)), evs);
               r.gotByDevice <= r.sentByClient && r.gotByClient <= r.sentByDevice
  {
    hide DeviceEnds, ClientEnds, ClientReads, DeviceWrites, Channel.Run, Channel.RunUnforged, IsRun, SplitKeys, NoiseKdf, NoCollision,
         Opened, Ideal, DeviceHearsGenuine, RunMixes;
    j := DeviceBinds(c, w, i);
    var d, e := w.devices[i], w.clients[j];
    var run := MetIsRun(c, d, e);
    RunAgrees(c, run, e.s, e.e, d.s, d.e, d.chain, e.payload);
    var ikms := SessionDelivers(c, run, e.s, e.e, d.s, d.e, d.chain, e.payload, evs);
    SameInputs(c, d, e, ikms);
    IdealDevice(c, w, i);
  }

  // ------------------------------------------------------------------- the chains

  /** The client's buffer for its own chain. */
  const CLIENT_CBOR_MAX := 3000

  /** What a caller hands the client: a certificate and the concatenated certificates of its issuers. */
  datatype Identity = Identity(leaf: Chain.Cert, issuers: Chain.Cert)

  predicate Given(id: Option<Identity>)
  {
    id.Some? && id.value.leaf != []
  }

  /** The certificates a client sends: none without a certificate. */
  ghost function Mine(id: Option<Identity>): (certs: seq<Chain.Cert>)
    requires id.Some? ==> |id.value.issuers| < TWO_32 - 1
    ensures |certs| < TWO_32
  {
    if Given(id) then Chain.ClientCerts(id.value.leaf, id.value.issuers) else []
  }

  /** Their payload: the empty map without a certificate. */
  ghost function MinePayload(id: Option<Identity>): (payload: bytes)
    requires id.Some? ==> |id.value.issuers| < TWO_32 - 1
  {
    if Given(id) then Chain.ChainBytes(Mine(id)) else [0xA0]
  }

  /** cantil_session_open builds its payload, or gives up where it does not fit. */
  method ClientPayload(id: Option<Identity>) returns (payload: Option<bytes>)
    requires id.Some? ==> |id.value.issuers| < TWO_32 - 1
    ensures payload == if |MinePayload(id)| <= CLIENT_CBOR_MAX then Some(MinePayload(id)) else None
    ensures id.None? || id.value.leaf == [] ==> payload == Some([0xA0])
  {
    if id.None? || |id.value.leaf| == 0 {
      return Some([0xA0]);
    }
    var buf := new byte[CLIENT_CBOR_MAX](_ => 0);
    var rc, len := Chain.BuildClientChain(buf, CLIENT_CBOR_MAX, id.value.leaf, id.value.issuers);
    if rc != 0 {
      return None;
    }
    assert buf[..len] == buf[..][..len] == MinePayload(id);
    return Some(buf[..len]);
  }

  /** The device makes no chain of the empty map. */
  lemma EmptyMapStored(sizeT: nat)
    requires CborWritten.IsSizeT(sizeT)
    ensures Chain.TakeChain([0xA0], sizeT, Chain.DEVICE_MAX_CERTS, Chain.DEVICE_CHAIN_MAX) == Chain.Stored([], false)
  {
  }

  /** What the device stores of a payload that fits its buffer. */
  lemma MineStored(id: Option<Identity>, sizeT: nat)
    requires CborWritten.IsSizeT(sizeT) && (id.Some? ==> |id.value.issuers| < TWO_32 - 1)
    requires |MinePayload(id)| <= CHAIN_PT_MAX
    ensures |Mine(id)| <= Chain.DEVICE_MAX_CERTS
            <==> Chain.TakeChain(MinePayload(id), sizeT, Chain.DEVICE_MAX_CERTS, Chain.DEVICE_CHAIN_MAX)
                 == Chain.Stored(Mine(id), false)
  {
    hide Chain.TakeChain, Chain.ChainBytes;
    if Given(id) {
      Chain.ClientChainStored(Mine(id), sizeT);
    } else {
      EmptyMapStored(sizeT);
    }
  }

  /**
   An honest handshake with an identity at each end. The client opens a session, with the device's
   chain stored whole, exactly when its own payload fits its buffer of 3000 octets; otherwise it sends
   no message 3. The device opens one exactly when that payload fits its own buffer of 2048, and stores
   the client's chain whole exactly when it then has at most four certificates.
   */
  method ExchangeChains(c: Crypto, sI: bytes, eI: bytes, sR: bytes, eR: bytes, id: Option<Identity>,
                        theirs: seq<Chain.Cert>, sizeT: nat)
    returns (client: Option<Chain.Stored>, device: Option<Chain.Stored>)
    requires Lawful(c) && CborWritten.IsSizeT(sizeT) && (id.Some? ==> |id.value.issuers| < TWO_32 - 1)
    requires |theirs| <= Chain.DEVICE_MAX_CERTS && |Chain.ChainBytes(theirs)| <= CHAIN_PT_MAX
    ensures var ok := c.dh(eI, c.pub(eR)).Some? && c.dh(eI, c.pub(sR)).Some? && c.dh(sI, c.pub(eR)).Some?;
            var size := |MinePayload(id)|;
            && client == (if ok && size <= CLIENT_CBOR_MAX then Some(Chain.Stored(theirs, false)) else None)
            && (device.Some? <==> ok && size <= CHAIN_PT_MAX)
            && (device == Some(Chain.Stored(Mine(id), false))
                <==> ok && size <= CHAIN_PT_MAX && |Mine(id)| <= Chain.DEVICE_MAX_CERTS)
  {
    client, device := None, None;
    var toDevice := ClientPayload(id);
    if toDevice.None? { return; }
    var ck, dk := HonestRun(c, sI, eI, sR, eR, Chain.ChainBytes(theirs), toDevice.value, None);
    if ck.None? { return; }
    Chain.DeviceChainArrives(theirs, sizeT);
    client := Some(Chain.TakeChain(ck.value.payload, sizeT, Chain.CLIENT_MAX_CERTS, Chain.CLIENT_CHAIN_MAX));
    if dk.None? { return; }
    MineStored(id, sizeT);
    device := Some(Chain.TakeChain(dk.value.payload, sizeT, Chain.DEVICE_MAX_CERTS, Chain.DEVICE_CHAIN_MAX));
  }

  lemma OneCertPayload(cert: Chain.Cert)
    requires 256 <= |cert| < 0x1_0000
    ensures |Chain.ChainBytes([cert])| == |cert| + 6
  {
    assert [cert][1..] == [];
    assert Chain.CertsBytes([cert]) == CborEmit.BStr(cert) + [];
  }

  /** One certificate of 2046 octets is within the device's store, and its payload is not within the device's buffer. */
  lemma CertTooLongByItsHead(cert: Chain.Cert)
    requires |cert| == 2046
    ensures |cert| <= Chain.DEVICE_CHAIN_MAX && CHAIN_PT_MAX < |Chain.ChainBytes([cert])| <= CLIENT_CBOR_MAX
  {
    OneCertPayload(cert);
  }

  /** With one of 3000 octets the client does not get that far. */
  lemma CertTooLongForClient(cert: Chain.Cert)
    requires |cert| == 3000
    ensures |MinePayload(Some(Identity(cert, [])))| > CLIENT_CBOR_MAX
  {
    var id := Some(Identity(cert, []));
    assert Chain.ClientSplit([]) == [];
    assert Mine(id) == [cert];
    OneCertPayload(cert);
  }
}
