/**
 Transcript binding: the handshake hash goes into every AEAD call, so an end
 that accepts a message has had the very conversation its peer has had.
 */
module Transcript {
  import opened Octets
  import opened NoiseCrypto
  import opened NoisePattern
  import opened NoiseHandshake
  import opened NoiseNonces
  import opened KeySchedule

  // ------------------------------------------------------------------ the hash

  /** The handshake hash after absorbing these strings, starting from the protocol name. */
  function Absorb(c: Crypto, xs: seq<bytes>): (h: bytes)
  {
    if xs == [] then PROTOCOL_NAME else c.hash(Absorb(c, xs[..|xs| - 1]) + xs[|xs| - 1])
  }

  /** What is hashed on the way. */
  ghost function Hashed(c: Crypto, xs: seq<bytes>): (d: set<bytes>)
  {
    set i | 0 <= i < |xs| :: Absorb(c, xs[..i]) + xs[i]
  }

  /** On these inputs the hash has no collision. */
  ghost predicate NoHashCollision(c: Crypto, d: set<bytes>)
  {
    forall x, y :: x in d && y in d && c.hash(x) == c.hash(y) ==> x == y
  }

  lemma AbsorbSnoc(c: Crypto, xs: seq<bytes>, x: bytes)
    ensures Absorb(c, xs + [x]) == c.hash(Absorb(c, xs) + x)
  {
    assert (xs + [x])[..|xs|] == xs;
  }

  lemma AbsorbLength(c: Crypto, xs: seq<bytes>)
    requires Lawful(c)
    ensures |Absorb(c, xs)| == 32
  {
  }

  lemma HashedPrefix(c: Crypto, xs: seq<bytes>)
    requires xs != []
    ensures Hashed(c, xs[..|xs| - 1]) <= Hashed(c, xs)
    ensures Absorb(c, xs[..|xs| - 1]) + xs[|xs| - 1] in Hashed(c, xs)
  {
    var ys := xs[..|xs| - 1];
    forall x | x in Hashed(c, ys)
      ensures x in Hashed(c, xs)
    {
      var i :| 0 <= i < |ys| && x == Absorb(c, ys[..i]) + ys[i];
      assert ys[..i] == xs[..i];
    }
  }

  lemma AbsorbLast(c: Crypto, xs: seq<bytes>)
    requires Lawful(c) && xs != []
    ensures Absorb(c, xs) == c.hash(Absorb(c, xs[..|xs| - 1]) + xs[|xs| - 1])
    ensures |Absorb(c, xs[..|xs| - 1])| == 32
  {
    AbsorbLength(c, xs[..|xs| - 1]);
  }

  lemma SameParts(h: bytes, x: bytes, h': bytes, x': bytes)
    requires |h| == |h'| && h + x == h' + x'
    ensures h == h' && x == x'
  {
    assert h == (h + x)[..|h|] && h' == (h' + x')[..|h'|];
    assert x == (h + x)[|h|..] && x' == (h' + x')[|h'|..];
  }

  lemma SameHashInput(c: Crypto, d: set<bytes>, a: bytes, b: bytes)
    requires NoHashCollision(c, d) && a in d && b in d && c.hash(a) == c.hash(b)
    ensures a == b
  {
  }

  /** Equal hashes of equally many strings mean equal strings. */
  lemma {:induction false} SameTranscript(c: Crypto, xs: seq<bytes>, ys: seq<bytes>, d: set<bytes>)
    requires Lawful(c) && |xs| == |ys| && Hashed(c, xs) <= d && Hashed(c, ys) <= d && NoHashCollision(c, d)
    requires Absorb(c, xs) == Absorb(c, ys)
    ensures xs == ys
    decreases |xs|
  {
    hide Lawful, Absorb, Hashed, NoHashCollision;
    if xs != [] {
      var n := |xs| - 1;
      HashedPrefix(c, xs);
      HashedPrefix(c, ys);
      AbsorbLast(c, xs);
      AbsorbLast(c, ys);
      SameHashInput(c, d, Absorb(c, xs[..n]) + xs[n], Absorb(c, ys[..n]) + ys[n]);
      SameParts(Absorb(c, xs[..n]), xs[n], Absorb(c, ys[..n]), ys[n]);
      SameTranscript(c, xs[..n], ys[..n], d);
      assert xs == xs[..n] + [xs[n]] && ys == ys[..n] + [ys[n]];
    }
  }

  /** What both ends absorb with message 1. */
  function After1(m1: bytes): (xs: seq<bytes>)
  {
    [[], m1, []]
  }

  /** And with message 2: an ephemeral key, a sealed static key and a sealed payload. */
  function After2(m1: bytes, m2: bytes): (xs: seq<bytes>)
    requires |m2| >= 96
  {
    After1(m1) + [m2[..32], m2[32..80], m2[80..]]
  }

  // ------------------------------------------------------------- what is sealed

  /** One AEAD encryption. */
  datatype Seal = Seal(key: bytes, nonce: bytes, ad: bytes, pt: bytes)

  function Sealing(c: Crypto, x: Seal): (ct: bytes)
  {
    c.seal(x.key, x.nonce, x.ad, x.pt)
  }

  lemma DeviceInputsExist(c: Crypto, d: DeviceRun)
    requires Lawful(c)
    ensures exists ikms :: DeviceMixes(c, d, ikms)
  {
    var ikms := DeviceRunUses(c, d);
  }

  lemma ClientInputsExist(c: Crypto, d: ClientRun)
    requires Lawful(c)
    ensures exists ikms :: ClientMixes(c, d, ikms)
  {
    var ikms := ClientRunUses(c, d);
  }

  /** What the device's run mixes into its chaining key. */
  ghost function DeviceInputs(c: Crypto, d: DeviceRun): (ikms: Inputs)
    requires Lawful(c)
    ensures DeviceMixes(c, d, ikms)
  {
    DeviceInputsExist(c, d);
    var ikms :| DeviceMixes(c, d, ikms);
    ikms
  }

  ghost function ClientInputs(c: Crypto, d: ClientRun): (ikms: Inputs)
    requires Lawful(c)
    ensures ClientMixes(c, d, ikms)
  {
    ClientInputsExist(c, d);
    var ikms :| ClientMixes(c, d, ikms);
    ikms
  }

  /** Everything the device seals in its handshake. */
  ghost function DeviceSeals(c: Crypto, d: DeviceRun): (r: seq<Seal>)
    requires Lawful(c)
  {
    var f, ikms, xs := NoiseKdf(c), DeviceInputs(c, d), After1(d.msg1) + [c.pub(d.e)];
    if |ikms| == 0 then []
    else
      var a := Seal(CipherKey(f, ikms, 1), Nonce(0), Absorb(c, xs), c.pub(d.s));
      if |ikms| == 1 then [a]
      else [a, Seal(CipherKey(f, ikms, 2), Nonce(0), Absorb(c, xs + [Sealing(c, a)]), d.chain)]
  }

  /** Everything the client seals in its handshake. */
  ghost function ClientSeals(c: Crypto, d: ClientRun): (r: seq<Seal>)
    requires Lawful(c)
  {
    var f, ikms := NoiseKdf(c), ClientInputs(c, d);
    if |ikms| == 0 || |d.msg2| < 96 then []
    else
      var xs := After2(c.pub(d.e), d.msg2);
      var a := Seal(CipherKey(f, ikms, 2), Nonce(1), Absorb(c, xs), c.pub(d.s));
      if |ikms| == 2 then [a]
      else [a, Seal(CipherKey(f, ikms, 3), Nonce(0), Absorb(c, xs + [Sealing(c, a)]), d.payload)]
  }

  /** Key and nonce of a use as the AEAD takes them. */
  predicate Matching(u: seq<Use>, x: seq<Seal>)
  {
    |u| == |x| && forall i :: 0 <= i < |u| ==> u[i].key == x[i].key && Nonce(u[i].nonce) == x[i].nonce
  }

  // ------------------------------------------------------- the ends' transcripts

  lemma AbsorbNone(c: Crypto)
    ensures Absorb(c, []) == PROTOCOL_NAME
  {
  }

  lemma After1Hash(c: Crypto, m1: bytes, sym: Sym)
    requires sym == NoisePattern.MixHash(c, NoisePattern.MixHash(c, InitSym(c), m1), [])
    ensures sym.h == Absorb(c, After1(m1))
  {
    hide Absorb;
    var none: seq<bytes> := [];
    AbsorbNone(c);
    AbsorbSnoc(c, none, []);
    AbsorbSnoc(c, [[]], m1);
    AbsorbSnoc(c, [[], m1], []);
    assert none + [[]] == [[]] && [[]] + [m1] == [[], m1] && [[], m1] + [[]] == After1(m1);
  }

  lemma DeviceSym1(c: Crypto, d: DeviceRun)
    requires |d.msg1| == 32
    ensures DeviceParty(c, d).Some? && DeviceParty(c, d).value.party.sym.h == Absorb(c, After1(d.msg1))
  {
    Msg1Unrolled(c, NewParty(c, d.s, d.e, false), d.msg1);
    After1Hash(c, d.msg1, DeviceParty(c, d).value.party.sym);
  }

  lemma ClientSym1(c: Crypto, d: ClientRun)
    ensures var w := WriteMessage(c, NewParty(c, d.s, d.e, true), MSG1, []);
            w.Some? && w.value.msg == c.pub(d.e) && w.value.party.sym.h == Absorb(c, After1(c.pub(d.e)))
  {
    Msg1Unrolled(c, NewParty(c, d.s, d.e, true), []);
    var w := WriteMessage(c, NewParty(c, d.s, d.e, true), MSG1, []).value;
    assert c.pub(d.e) + [] == c.pub(d.e);
    After1Hash(c, c.pub(d.e), w.party.sym);
  }

  /** One keyed encryption: the hash is its associated data and absorbs its ciphertext. */
  lemma EncryptAbsorbs(c: Crypto, s: Sym, xs: seq<bytes>, pt: bytes)
    requires s.hasKey && s.h == Absorb(c, xs)
    ensures var r := NoisePattern.EncryptAndHash(c, s, pt);
            && r.ct == Sealing(c, Seal(s.k, Nonce(s.n), Absorb(c, xs), pt))
            && r.sym == s.(h := Absorb(c, xs + [r.ct]), n := s.n + 1)
  {
    AbsorbSnoc(c, xs, NoisePattern.EncryptAndHash(c, s, pt).ct);
  }

  lemma DecryptAbsorbs(c: Crypto, s: Sym, xs: seq<bytes>, ct: bytes)
    requires s.hasKey && s.h == Absorb(c, xs) && NoisePattern.DecryptAndHash(c, s, ct).Some?
    ensures c.open_(s.k, Nonce(s.n), Absorb(c, xs), ct).Some?
    ensures NoisePattern.DecryptAndHash(c, s, ct).value.sym == s.(h := Absorb(c, xs + [ct]), n := s.n + 1)
  {
    AbsorbSnoc(c, xs, ct);
  }

  /** The octets of message 2 in a row. */
  lemma Message2(a: bytes, b: bytes, x: bytes, m: bytes)
    requires |a| == 32 && |b| == 48 && m == a + b + x
    ensures m[..32] == a && m[32..80] == b && m[80..] == x
  {
  }

  /** Message 2 as the device writes it, and the state that leaves. */
  lemma DeviceWriting(c: Crypto, d: DeviceRun)
    requires Lawful(c) && DeviceWrites(c, d).Some?
    ensures var w, x := DeviceWrites(c, d).value, DeviceSeals(c, d);
            && |DeviceInputs(c, d)| >= 2 && |x| == 2 && |w.msg| >= 96
            && w.msg[..32] == c.pub(d.e) && w.msg[32..80] == Sealing(c, x[0]) && w.msg[80..] == Sealing(c, x[1])
            && w.party.sym.h == Absorb(c, After2(d.msg1, w.msg))
            && w.party.sym.k == CipherKey(NoiseKdf(c), DeviceInputs(c, d), 2) && w.party.sym.n == 1 && w.party.sym.hasKey
            && w.party.sym.ck == Ck(NoiseKdf(c), DeviceInputs(c, d), 2)
            && Matching(w.uses, x)
  {
    hide WriteMessage, ReadMessage, ClientHkdf2, Absorb, NoiseKdf, CipherKey, Ck;
    DevicePartyIs(c, d);
    DeviceSym1(c, d);
    var p := DeviceParty(c, d).value.party;
    WriteMsg2Unrolled(c, p, d.chain);
    var ikms := DeviceInputs(c, d);
    ScheduleSteps(c, ikms);
    var xs := After1(d.msg1) + [c.pub(d.e)];
    AbsorbSnoc(c, After1(d.msg1), c.pub(d.e));
    var s2 := NoisePattern.MixKey(c, NoisePattern.MixHash(c, p.sym, c.pub(p.e)), ikms[0]);
    EncryptAbsorbs(c, s2, xs, c.pub(d.s));
    var e1 := NoisePattern.EncryptAndHash(c, s2, c.pub(d.s));
    var s3 := NoisePattern.MixKey(c, e1.sym, ikms[1]);
    EncryptAbsorbs(c, s3, xs + [e1.ct], d.chain);
    var e2 := NoisePattern.EncryptAndHash(c, s3, d.chain);
    var w := DeviceWrites(c, d).value;
    Message2(c.pub(d.e), e1.ct, e2.ct, w.msg);
    assert After2(d.msg1, w.msg) == xs + [e1.ct] + [e2.ct];
  }

  /** What the device opens when it accepts message 3. */
  lemma DeviceOpening(c: Crypto, d: DeviceRun)
    requires Lawful(c) && DeviceEnds(c, d).Some?
    ensures DeviceWrites(c, d).Some? && |DeviceWrites(c, d).value.msg| >= 96
    ensures |DeviceInputs(c, d)| == 4 && |d.msg3| >= 64
    ensures var xs := After2(d.msg1, DeviceWrites(c, d).value.msg);
            c.open_(CipherKey(NoiseKdf(c), DeviceInputs(c, d), 3), Nonce(0), Absorb(c, xs + [d.msg3[..48]]), d.msg3[48..]).Some?
  {
    hide WriteMessage, ReadTokens, ClientHkdf2, Absorb, NoiseKdf;
    DeviceWriting(c, d);
    DevicePartyIs(c, d);
    var p, q := DeviceParty(c, d).value.party, DeviceWrites(c, d).value.party;
    AfterMsg2(c, p, d.chain);
    var ikms, xs := DeviceInputs(c, d), After2(d.msg1, DeviceWrites(c, d).value.msg);
    ReadMsg3Tokens(c, q, d.msg3);
    DecryptAbsorbs(c, q.sym, xs, d.msg3[..48]);
    var o := NoisePattern.DecryptAndHash(c, q.sym, d.msg3[..48]).value;
    ThirdKey(c, ikms);
    DecryptAbsorbs(c, NoisePattern.MixKey(c, o.sym, ikms[2]), xs + [d.msg3[..48]], d.msg3[48..]);
  }

  lemma ThirdKey(c: Crypto, ikms: Inputs)
    requires |ikms| == 4
    ensures CipherKey(NoiseKdf(c), ikms, 3) == ClientHkdf2(c, Ck(NoiseKdf(c), ikms, 2), ikms[2]).second
  {
    ScheduleUnrolled(c, ikms);
  }

  /** What the client opens when it accepts message 2, and the state that leaves. */
  lemma ClientOpening(c: Crypto, d: ClientRun)
    requires Lawful(c) && ClientReads(c, d).Some?
    ensures |ClientInputs(c, d)| >= 2 && |d.msg2| >= 96
    ensures var m1, ikms := c.pub(d.e), ClientInputs(c, d);
            && c.open_(CipherKey(NoiseKdf(c), ikms, 2), Nonce(0), Absorb(c, After1(m1) + [d.msg2[..32], d.msg2[32..80]]),
                       d.msg2[80..]).Some?
            && var s := ClientReads(c, d).value.party.sym;
               && s.h == Absorb(c, After2(m1, d.msg2)) && s.k == CipherKey(NoiseKdf(c), ikms, 2) && s.n == 1 && s.hasKey
               && s.ck == Ck(NoiseKdf(c), ikms, 2)
  {
    hide WriteMessage, ReadTokens, ClientHkdf2, Absorb, NoiseKdf, CipherKey, Ck;
    ClientPartyIs(c, d);
    ClientSym1(c, d);
    var p := WriteMessage(c, NewParty(c, d.s, d.e, true), MSG1, []).value.party;
    ReadMsg2Tokens(c, p, d.msg2);
    var ikms, m1, m := ClientInputs(c, d), c.pub(d.e), d.msg2;
    ScheduleSteps(c, ikms);
    var xs := After1(m1) + [m[..32]];
    AbsorbSnoc(c, After1(m1), m[..32]);
    var s2 := NoisePattern.MixKey(c, NoisePattern.MixHash(c, p.sym, m[..32]), ikms[0]);
    DecryptAbsorbs(c, s2, xs, m[32..80]);
    var o := NoisePattern.DecryptAndHash(c, s2, m[32..80]).value;
    DecryptAbsorbs(c, NoisePattern.MixKey(c, o.sym, ikms[1]), xs + [m[32..80]], m[80..]);
    assert xs + [m[32..80]] == After1(m1) + [m[..32], m[32..80]];
    assert After2(m1, m) == xs + [m[32..80]] + [m[80..]];
  }

  /** Message 3 as the client writes it. */
  lemma ClientWriting(c: Crypto, d: ClientRun)
    requires Lawful(c) && ClientReads(c, d).Some?
    ensures |ClientSeals(c, d)| == if ClientEnds(c, d).Some? then 2 else 1
    ensures Matching(ClientUses(c, d), ClientSeals(c, d))
    ensures ClientEnds(c, d).Some? ==>
            var m, x := ClientEnds(c, d).value.msg, ClientSeals(c, d);
            |m| >= 48 && m[..48] == Sealing(c, x[0]) && m[48..] == Sealing(c, x[1])
  {
    hide WriteMessage, ReadMessage, ClientHkdf2, Absorb, NoiseKdf, CipherKey, Ck;
    ClientOpening(c, d);
    var ikms, r, xs := ClientInputs(c, d), ClientReads(c, d).value.party, After2(c.pub(d.e), d.msg2);
    ClientPartyIs(c, d);
    ClientAfterMsg2(c, WriteMessage(c, NewParty(c, d.s, d.e, true), MSG1, []).value.party, d.msg2);
    if ClientEnds(c, d).Some? {
      ThirdKey(c, ikms);
      WriteMsg3Unrolled(c, r, d.payload);
      EncryptAbsorbs(c, r.sym, xs, c.pub(d.s));
      var e1 := NoisePattern.EncryptAndHash(c, r.sym, c.pub(d.s));
      EncryptAbsorbs(c, NoisePattern.MixKey(c, e1.sym, ikms[2]), xs + [e1.ct], d.payload);
      var m := ClientEnds(c, d).value.msg;
      assert m[..48] == e1.ct;
    }
  }

  /** The two lists leave nothing out: they are the encryptions both handshakes are recorded to make. */
  lemma SealsAreUses(c: Crypto, d: DeviceRun, e: ClientRun)
    requires Lawful(c)
    ensures Matching(DeviceUses(c, d), DeviceSeals(c, d)) && Matching(ClientUses(c, e), ClientSeals(c, e))
  {
    hide WriteMessage, ReadMessage, ClientHkdf2, Absorb, NoiseKdf, CipherKey, Ck;
    if DeviceWrites(c, d).Some? {
      DeviceWriting(c, d);
    } else {
      ScheduleSteps(c, DeviceInputs(c, d));
    }
    if ClientReads(c, e).Some? {
      ClientWriting(c, e);
    }
  }

  // ----------------------------------------------------------------- the world

  /** Any number of handshakes of any devices and clients, each fed by the network. */
  datatype World = World(devices: seq<DeviceRun>, clients: seq<ClientRun>)

  ghost predicate InWorld(c: Crypto, w: World, x: Seal)
    requires Lawful(c)
  {
    || (exists i :: 0 <= i < |w.devices| && x in DeviceSeals(c, w.devices[i]))
    || (exists i :: 0 <= i < |w.clients| && x in ClientSeals(c, w.clients[i]))
  }

  /** What an end has absorbed before it opens or seals the last part of message 3. */
  ghost function DeviceHeard(c: Crypto, d: DeviceRun): (xs: seq<bytes>)
  {
    if DeviceWrites(c, d).None? || |DeviceWrites(c, d).value.msg| < 96 then []
    else After2(d.msg1, DeviceWrites(c, d).value.msg) + if |d.msg3| < 48 then [] else [d.msg3[..48]]
  }

  ghost function ClientHeard(c: Crypto, d: ClientRun): (xs: seq<bytes>)
  {
    if |d.msg2| < 96 then []
    else
      After2(c.pub(d.e), d.msg2)
      + if ClientEnds(c, d).None? || |ClientEnds(c, d).value.msg| < 48 then [] else [ClientEnds(c, d).value.msg[..48]]
  }

  /** No collision of the key derivation or the hash among the calls of these handshakes. */
  ghost predicate Ideal(c: Crypto, w: World)
    requires Lawful(c)
  {
    exists calls, inputs :: IdealOn(c, w, calls, inputs)
  }

  ghost predicate IdealOn(c: Crypto, w: World, calls: set<(bytes, bytes)>, inputs: set<bytes>)
    requires Lawful(c)
  {
    && NoCollision(NoiseKdf(c), calls) && NoHashCollision(c, inputs)
    && (forall i :: 0 <= i < |w.devices| ==> DeviceCovered(c, w.devices[i], calls, inputs))
    && (forall i :: 0 <= i < |w.clients| ==> ClientCovered(c, w.clients[i], calls, inputs))
  }

  ghost predicate DeviceCovered(c: Crypto, d: DeviceRun, calls: set<(bytes, bytes)>, inputs: set<bytes>)
    requires Lawful(c)
  {
    Calls(NoiseKdf(c), DeviceInputs(c, d)) <= calls && Hashed(c, DeviceHeard(c, d)) <= inputs
  }

  ghost predicate ClientCovered(c: Crypto, d: ClientRun, calls: set<(bytes, bytes)>, inputs: set<bytes>)
    requires Lawful(c)
  {
    Calls(NoiseKdf(c), ClientInputs(c, d)) <= calls && Hashed(c, ClientHeard(c, d)) <= inputs
  }

  /**
   Ideal AEAD: what opens was sealed under the same key, nonce and associated data, in one of
   these handshakes or in transport, where there is no associated data; not by the network.
   */
  ghost predicate Genuine(c: Crypto, w: World, key: bytes, nonce: bytes, ad: bytes, ct: bytes)
    requires Lawful(c)
  {
    c.open_(key, nonce, ad, ct).Some? ==>
      exists x :: (InWorld(c, w, x) || x.ad == []) && x.key == key && x.nonce == nonce && x.ad == ad && Sealing(c, x) == ct
  }

  /** The last part of message 3, as the device opens it. */
  ghost predicate DeviceHearsGenuine(c: Crypto, w: World, d: DeviceRun)
    requires Lawful(c)
  {
    |DeviceInputs(c, d)| == 4 && |d.msg3| >= 48 ==>
      Genuine(c, w, CipherKey(NoiseKdf(c), DeviceInputs(c, d), 3), Nonce(0), Absorb(c, DeviceHeard(c, d)), d.msg3[48..])
  }

  /** The last part of message 2, as the client opens it. */
  ghost predicate ClientHearsGenuine(c: Crypto, w: World, d: ClientRun)
    requires Lawful(c)
  {
    |ClientInputs(c, d)| >= 2 && |d.msg2| >= 96 ==>
      Genuine(c, w, CipherKey(NoiseKdf(c), ClientInputs(c, d), 2), Nonce(0),
              Absorb(c, After1(c.pub(d.e)) + [d.msg2[..32], d.msg2[32..80]]), d.msg2[80..])
  }

  /** Messages 1 and 2 of the two handshakes are the same: each end received what the other sent. */
  predicate Met(c: Crypto, d: DeviceRun, e: ClientRun)
  {
    d.msg1 == c.pub(e.e) && DeviceWrites(c, d).Some? && e.msg2 == DeviceWrites(c, d).value.msg
  }

  /** And message 3. */
  predicate MetAll(c: Crypto, d: DeviceRun, e: ClientRun)
  {
    Met(c, d, e) && ClientEnds(c, e).Some? && d.msg3 == ClientEnds(c, e).value.msg
  }

  // -------------------------------------------------------------- the theorems

  lemma ZeroIsNotOne()
    ensures Nonce(0) != Nonce(1)
  {
    if Nonce(0) == Nonce(1) {
      NonceInjective(0, 1);
    }
  }

  /** A device seals under its first cipher key, then under its second. */
  lemma DeviceSealKeys(c: Crypto, d: DeviceRun, x: Seal)
    requires Lawful(c) && x in DeviceSeals(c, d)
    ensures var s, ikms := DeviceSeals(c, d), DeviceInputs(c, d);
            || (|ikms| >= 1 && x.key == CipherKey(NoiseKdf(c), ikms, 1))
            || (|ikms| >= 2 && x.key == CipherKey(NoiseKdf(c), ikms, 2) && |s| == 2 && x == s[1])
  {
    hide NoiseKdf, CipherKey, Absorb, DeviceInputs, Nonce;
  }

  /** A client seals under its second cipher key and the counter one, then under its third and the counter zero. */
  lemma ClientSealKeys(c: Crypto, d: ClientRun, x: Seal)
    requires Lawful(c) && x in ClientSeals(c, d)
    ensures var s, ikms := ClientSeals(c, d), ClientInputs(c, d);
            || (|ikms| >= 2 && x.key == CipherKey(NoiseKdf(c), ikms, 2) && x.nonce == Nonce(1))
            || (|ikms| == 4 && x.key == CipherKey(NoiseKdf(c), ikms, 3) && |s| == 2 && x == s[1])
  {
    hide NoiseKdf, CipherKey, Absorb, DeviceInputs, Nonce;
  }

  lemma DeviceNotThird(c: Crypto, d: DeviceRun, calls: set<(bytes, bytes)>, ikms: Inputs, x: Seal)
    requires Lawful(c) && x in DeviceSeals(c, d) && Calls(NoiseKdf(c), DeviceInputs(c, d)) <= calls
    requires |ikms| == 4 && Calls(NoiseKdf(c), ikms) <= calls && NoCollision(NoiseKdf(c), calls)
    ensures x.key != CipherKey(NoiseKdf(c), ikms, 3)
  {
    hide *;
    DeviceSealKeys(c, d, x);
    var di := DeviceInputs(c, d);
    if |di| >= 1 { CipherKeysDiffer(NoiseKdf(c), di, ikms, calls, 1, 3); }
    if |di| >= 2 { CipherKeysDiffer(NoiseKdf(c), di, ikms, calls, 2, 3); }
  }

  lemma ClientThird(c: Crypto, d: ClientRun, calls: set<(bytes, bytes)>, ikms: Inputs, x: Seal)
    requires Lawful(c) && x in ClientSeals(c, d) && Calls(NoiseKdf(c), ClientInputs(c, d)) <= calls
    requires |ikms| == 4 && Calls(NoiseKdf(c), ikms) <= calls && NoCollision(NoiseKdf(c), calls)
    requires x.key == CipherKey(NoiseKdf(c), ikms, 3)
    ensures |ClientSeals(c, d)| == 2 && x == ClientSeals(c, d)[1]
  {
    hide *;
    ClientSealKeys(c, d, x);
    var ci := ClientInputs(c, d);
    if |ci| >= 2 { CipherKeysDiffer(NoiseKdf(c), ci, ikms, calls, 2, 3); }
  }

  lemma ClientNotSecond(c: Crypto, d: ClientRun, calls: set<(bytes, bytes)>, ikms: Inputs, x: Seal)
    requires Lawful(c) && x in ClientSeals(c, d) && Calls(NoiseKdf(c), ClientInputs(c, d)) <= calls
    requires |ikms| >= 2 && Calls(NoiseKdf(c), ikms) <= calls && NoCollision(NoiseKdf(c), calls)
    ensures x.key != CipherKey(NoiseKdf(c), ikms, 2) || x.nonce != Nonce(0)
  {
    hide *;
    ClientSealKeys(c, d, x);
    ZeroIsNotOne();
    var ci := ClientInputs(c, d);
    if |ci| == 4 { CipherKeysDiffer(NoiseKdf(c), ci, ikms, calls, 3, 2); }
  }

  lemma DeviceSecond(c: Crypto, d: DeviceRun, calls: set<(bytes, bytes)>, ikms: Inputs, x: Seal)
    requires Lawful(c) && x in DeviceSeals(c, d) && Calls(NoiseKdf(c), DeviceInputs(c, d)) <= calls
    requires |ikms| >= 2 && Calls(NoiseKdf(c), ikms) <= calls && NoCollision(NoiseKdf(c), calls)
    requires x.key == CipherKey(NoiseKdf(c), ikms, 2)
    ensures |DeviceSeals(c, d)| == 2 && x == DeviceSeals(c, d)[1]
  {
    hide *;
    DeviceSealKeys(c, d, x);
    var di := DeviceInputs(c, d);
    if |di| >= 1 { CipherKeysDiffer(NoiseKdf(c), di, ikms, calls, 1, 2); }
  }

  /** A handshake's seal under a third cipher key is a client's last. */
  lemma ThirdKeySeal(c: Crypto, w: World, calls: set<(bytes, bytes)>, inputs: set<bytes>, ikms: Inputs, x: Seal) returns (j: nat)
    requires Lawful(c) && IdealOn(c, w, calls, inputs) && InWorld(c, w, x)
    requires |ikms| == 4 && Calls(NoiseKdf(c), ikms) <= calls && x.key == CipherKey(NoiseKdf(c), ikms, 3)
    ensures j < |w.clients| && |ClientSeals(c, w.clients[j])| == 2 && x == ClientSeals(c, w.clients[j])[1]
  {
    hide Lawful, NoCollision, NoHashCollision, NoiseKdf, CipherKey, Calls, Hashed, DeviceSeals, ClientSeals, DeviceInputs, ClientInputs;
    if i :| 0 <= i < |w.devices| && x in DeviceSeals(c, w.devices[i]) {
      assert DeviceCovered(c, w.devices[i], calls, inputs);
      DeviceNotThird(c, w.devices[i], calls, ikms, x);
      assert false;
    }
    j :| 0 <= j < |w.clients| && x in ClientSeals(c, w.clients[j]);
    assert ClientCovered(c, w.clients[j], calls, inputs);
    ClientThird(c, w.clients[j], calls, ikms, x);
  }

  /** One under a second cipher key and the counter zero is a device's last. */
  lemma SecondKeySeal(c: Crypto, w: World, calls: set<(bytes, bytes)>, inputs: set<bytes>, ikms: Inputs, x: Seal) returns (j: nat)
    requires Lawful(c) && IdealOn(c, w, calls, inputs) && InWorld(c, w, x)
    requires |ikms| >= 2 && Calls(NoiseKdf(c), ikms) <= calls && x.key == CipherKey(NoiseKdf(c), ikms, 2) && x.nonce == Nonce(0)
    ensures j < |w.devices| && |DeviceSeals(c, w.devices[j])| == 2 && x == DeviceSeals(c, w.devices[j])[1]
  {
    hide Lawful, NoCollision, NoHashCollision, NoiseKdf, CipherKey, Calls, Hashed, DeviceSeals, ClientSeals, DeviceInputs, ClientInputs,
         Nonce;
    if i :| 0 <= i < |w.clients| && x in ClientSeals(c, w.clients[i]) {
      assert ClientCovered(c, w.clients[i], calls, inputs);
      ClientNotSecond(c, w.clients[i], calls, ikms, x);
      assert false;
    }
    j :| 0 <= j < |w.devices| && x in DeviceSeals(c, w.devices[j]);
    assert DeviceCovered(c, w.devices[j], calls, inputs);
    DeviceSecond(c, w.devices[j], calls, ikms, x);
  }

  /** A client that has sealed twice has written message 3, and the seals' associated data are its transcript. */
  lemma ClientSealedTwice(c: Crypto, e: ClientRun)
    requires Lawful(c) && |ClientSeals(c, e)| == 2
    ensures ClientEnds(c, e).Some? && |e.msg2| >= 96 && |ClientEnds(c, e).value.msg| >= 48
    ensures ClientEnds(c, e).value.msg[48..] == Sealing(c, ClientSeals(c, e)[1])
    ensures ClientSeals(c, e)[1].ad == Absorb(c, ClientHeard(c, e))
    ensures ClientHeard(c, e) == After2(c.pub(e.e), e.msg2) + [ClientEnds(c, e).value.msg[..48]]
  {
    hide WriteMessage, ReadMessage, ClientHkdf2, Absorb, NoiseKdf, CipherKey, Ck;
    ClientWriting(c, e);
  }

  /** A device that has sealed twice has written message 2. */
  lemma DeviceSealedTwice(c: Crypto, d: DeviceRun)
    requires Lawful(c) && |DeviceSeals(c, d)| == 2
    ensures DeviceWrites(c, d).Some? && |DeviceWrites(c, d).value.msg| >= 96
    ensures var m := DeviceWrites(c, d).value.msg;
            && m[80..] == Sealing(c, DeviceSeals(c, d)[1])
            && DeviceSeals(c, d)[1].ad == Absorb(c, After1(d.msg1) + [m[..32], m[32..80]])
  {
    hide WriteMessage, ReadMessage, ClientHkdf2, Absorb, NoiseKdf, CipherKey, Ck;
    DeviceWriting(c, d);
    var m := DeviceWrites(c, d).value.msg;
    assert After1(d.msg1) + [c.pub(d.e)] + [m[32..80]] == After1(d.msg1) + [m[..32], m[32..80]];
  }

  /** Equal transcripts up to the last part of message 3: equal messages. */
  lemma SameMessages(m1: bytes, m2: bytes, x: bytes, m1': bytes, m2': bytes, x': bytes)
    requires |m2| >= 96 && |m2'| >= 96 && After2(m1, m2) + [x] == After2(m1', m2') + [x']
    ensures m1 == m1' && m2 == m2' && x == x'
  {
    var a, b := After2(m1, m2) + [x], After2(m1', m2') + [x'];
    assert a[1] == b[1] && a[3] == b[3] && a[4] == b[4] && a[5] == b[5] && a[6] == b[6];
    assert m2 == m2[..32] + m2[32..80] + m2[80..] && m2' == m2'[..32] + m2'[32..80] + m2'[80..];
  }

  lemma NotEmpty(c: Crypto, xs: seq<bytes>)
    requires Lawful(c)
    ensures Absorb(c, xs) != []
  {
    AbsorbLength(c, xs);
  }

  /**
   Against any network and among any number of handshakes: when the device accepts message 3,
   some client has written that very message after the very same messages 1 and 2.
   */
  lemma DeviceBinds(c: Crypto, w: World, i: nat) returns (j: nat)
    requires Lawful(c) && Ideal(c, w) && i < |w.devices|
    requires DeviceEnds(c, w.devices[i]).Some? && DeviceHearsGenuine(c, w, w.devices[i])
    ensures j < |w.clients| && MetAll(c, w.devices[i], w.clients[j])
  {
    hide DeviceEnds, DeviceWrites, ClientEnds, Absorb, NoiseKdf, CipherKey, NoCollision, NoHashCollision, Calls, Hashed, InWorld,
         DeviceSeals, ClientSeals, DeviceInputs, ClientInputs, Nonce, After2;
    var d := w.devices[i];
    var calls, inputs :| IdealOn(c, w, calls, inputs);
    assert DeviceCovered(c, d, calls, inputs);
    DeviceOpening(c, d);
    var ikms, m2 := DeviceInputs(c, d), DeviceWrites(c, d).value.msg;
    var ad := Absorb(c, DeviceHeard(c, d));
    NotEmpty(c, DeviceHeard(c, d));
    var x :| (InWorld(c, w, x) || x.ad == []) && x.key == CipherKey(NoiseKdf(c), ikms, 3) && x.nonce == Nonce(0)
             && x.ad == ad && Sealing(c, x) == d.msg3[48..];
    j := ThirdKeySeal(c, w, calls, inputs, ikms, x);
    var e := w.clients[j];
    assert ClientCovered(c, e, calls, inputs);
    ClientSealedTwice(c, e);
    var m3 := ClientEnds(c, e).value.msg;
    LengthAfter2(d.msg1, m2);
    LengthAfter2(c.pub(e.e), e.msg2);
    SameTranscript(c, DeviceHeard(c, d), ClientHeard(c, e), inputs);
    SameMessages(d.msg1, m2, d.msg3[..48], c.pub(e.e), e.msg2, m3[..48]);
    assert d.msg3 == d.msg3[..48] + d.msg3[48..] && m3 == m3[..48] + m3[48..];
  }

  lemma LengthAfter2(m1: bytes, m2: bytes)
    requires |m2| >= 96
    ensures |After2(m1, m2)| == 6
  {
  }

  /** And when the client accepts message 2, some device has written it in answer to this client's message 1. */
  lemma ClientBinds(c: Crypto, w: World, i: nat) returns (j: nat)
    requires Lawful(c) && Ideal(c, w) && i < |w.clients|
    requires ClientReads(c, w.clients[i]).Some? && ClientHearsGenuine(c, w, w.clients[i])
    ensures j < |w.devices| && Met(c, w.devices[j], w.clients[i])
  {
    hide DeviceEnds, DeviceWrites, ClientEnds, ClientReads, Absorb, NoiseKdf, CipherKey, NoCollision, NoHashCollision, Calls, Hashed,
         InWorld, DeviceSeals, ClientSeals, DeviceInputs, ClientInputs, Nonce;
    var e := w.clients[i];
    var calls, inputs :| IdealOn(c, w, calls, inputs);
    assert ClientCovered(c, e, calls, inputs);
    ClientOpening(c, e);
    var ikms, m1 := ClientInputs(c, e), c.pub(e.e);
    var xs := After1(m1) + [e.msg2[..32], e.msg2[32..80]];
    NotEmpty(c, xs);
    var x :| (InWorld(c, w, x) || x.ad == []) && x.key == CipherKey(NoiseKdf(c), ikms, 2) && x.nonce == Nonce(0)
             && x.ad == Absorb(c, xs) && Sealing(c, x) == e.msg2[80..];
    j := SecondKeySeal(c, w, calls, inputs, ikms, x);
    var d := w.devices[j];
    assert DeviceCovered(c, d, calls, inputs);
    DeviceSealedTwice(c, d);
    var m2 := DeviceWrites(c, d).value.msg;
    var ys := After1(d.msg1) + [m2[..32], m2[32..80]];
    HashedSome(c, DeviceHeard(c, d), ys);
    HashedSome(c, ClientHeard(c, e), xs);
    SameTranscript(c, xs, ys, inputs);
    assert xs[1] == m1 && ys[1] == d.msg1 && xs[3] == ys[3] && xs[4] == ys[4];
    assert m2 == m2[..32] + m2[32..80] + m2[80..] && e.msg2 == e.msg2[..32] + e.msg2[32..80] + e.msg2[80..];
  }

  lemma HashedSome(c: Crypto, xs: seq<bytes>, ys: seq<bytes>)
    requires ys <= xs
    ensures Hashed(c, ys) <= Hashed(c, xs)
  {
    forall x | x in Hashed(c, ys)
      ensures x in Hashed(c, xs)
    {
      var i :| 0 <= i < |ys| && x == Absorb(c, ys[..i]) + ys[i];
      assert ys[..i] == xs[..i] && ys[i] == xs[i];
    }
  }

  lemma Msg2Length(c: Crypto, run: Run, sI: bytes, eI: bytes, sR: bytes, eR: bytes, chain: bytes, payload: bytes)
    requires Lawful(c) && IsRun(c, run, sI, eI, sR, eR, chain, payload)
    ensures |run.m2.msg| == 96 + |chain|
  {
    hide ReadMessage;
    Msg1Unrolled(c, NewParty(c, sI, eI, true), []);
    DevicePartyIs(c, DeviceRun(sR, eR, chain, run.m1.msg, []));
    WriteMsg2Unrolled(c, run.r1.party, chain);
  }

  /** The client of a run ends up with the device's true public keys. */
  lemma RunKeys(c: Crypto, run: Run, sI: bytes, eI: bytes, sR: bytes, eR: bytes, chain: bytes, payload: bytes)
    requires Lawful(c) && IsRun(c, run, sI, eI, sR, eR, chain, payload)
    ensures run.r2.party.re == Some(c.pub(eR)) && run.r2.party.rs == Some(c.pub(sR))
  {
    var i, r := NewParty(c, sI, eI, true), NewParty(c, sR, eR, false);
    MessageAgrees(c, i, r, MSG1, []);
    MessageAgrees(c, run.r1.party, run.m1.party, MSG2, chain);
    Msg1Unrolled(c, i, []);
    DevicePartyIs(c, DeviceRun(sR, eR, chain, run.m1.msg, []));
    WriteMsg2Unrolled(c, run.r1.party, chain);
  }

  lemma RunStatics(c: Crypto, run: Run, sI: bytes, eI: bytes, sR: bytes, eR: bytes, chain: bytes, payload: bytes)
    requires Lawful(c) && IsRun(c, run, sI, eI, sR, eR, chain, payload)
    ensures run.r2.party.rs == Some(c.pub(sR)) && run.r3.party.rs == Some(c.pub(sI))
  {
    hide ReadMessage, WriteMessage;
    Msg2Length(c, run, sI, eI, sR, eR, chain, payload);
    RunKeys(c, run, sI, eI, sR, eR, chain, payload);
    ClientPartyIs(c, ClientRun(sI, eI, payload, run.m2.msg));
    ClientAfterMsg2(c, run.m1.party, run.m2.msg);
    WriteMsg3Unrolled(c, run.r2.party, payload);
    RunAgrees(c, run, sI, eI, sR, eR, chain, payload);
  }

  /** Two handshakes with the same messages are one honest run: each end has the other's static key and payload. */
  lemma MetIsRun(c: Crypto, d: DeviceRun, e: ClientRun) returns (run: Run)
    requires Lawful(c) && MetAll(c, d, e) && DeviceEnds(c, d).Some?
    ensures IsRun(c, run, e.s, e.e, d.s, d.e, d.chain, e.payload)
    ensures run.m3 == ClientEnds(c, e).value && run.r3 == DeviceEnds(c, d).value && run.r2 == ClientReads(c, e).value
    ensures run.r2.party.rs == Some(c.pub(d.s)) && run.r2.rest == d.chain
    ensures run.r3.party.rs == Some(c.pub(e.s)) && run.r3.rest == e.payload
  {
    hide WriteMessage, ReadMessage, ReadTokens, WriteTokens;
    ClientSym1(c, e);
    var m1 := WriteMessage(c, NewParty(c, e.s, e.e, true), MSG1, []).value;
    run := Run(m1, DeviceParty(c, d).value, DeviceWrites(c, d).value, ClientReads(c, e).value, ClientEnds(c, e).value,
               DeviceEnds(c, d).value);
    RunAgrees(c, run, e.s, e.e, d.s, d.e, d.chain, e.payload);
    RunStatics(c, run, e.s, e.e, d.s, d.e, d.chain, e.payload);
  }
}
