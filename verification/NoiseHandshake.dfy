/**
 The two hand-written ends of Noise_XX: the device as responder, the client as
 initiator. Each updates one symmetric state in place, line by line as the
 source does, and is proved to do what the generic interpreter does for the
 tokens of its message.
 */
module NoiseHandshake {
  import opened Octets
  import opened NoiseCrypto
  import opened NoisePattern

  const CHAIN_PT_MAX := 2048
  /** SESSION_HS_MSG_MAX: the device's one handshake message buffer. */
  const HS_MSG_MAX := 32 + 48 + 2048 + 16

  /** MAX_FRAME_PAYLOAD: the client's buffer for message 2. */
  const CLIENT_MSG_MAX := 4096

  const MSG1: seq<Token> := [E]
  const MSG2: seq<Token> := [E, EE, S, ES]
  const MSG3: seq<Token> := [S, SE]

  /** struct sym_state of either end; `device` selects the device's HKDF and its buffer tests. */
  class SymState {
    var h: bytes
    var ck: bytes
    var k: bytes
    var n: nat
    var hasKey: bool
    const device: bool
    /** Every key and nonce this end has encrypted with. */
    ghost var uses: seq<Use>

    ghost function Val(): (s: Sym)
      reads this
    {
      Sym(h, ck, k, n, hasKey)
    }

    /** sym_init and the empty prologue. */
    constructor (c: Crypto, device: bool)
      ensures Val() == InitSym(c) && uses == [] && this.device == device
    {
      h, ck, k, n, hasKey := c.hash(PROTOCOL_NAME + []), PROTOCOL_NAME, Zeros(32), 0, false;
      this.device := device;
      uses := [];
    }

    method MixHash(c: Crypto, data: bytes)
      modifies this`h
      ensures Val() == NoisePattern.MixHash(c, old(Val()), data)
    {
      h := c.hash(h + data);
    }

    method MixKey(c: Crypto, ikm: bytes)
      requires Lawful(c)
      modifies this`ck, this`k, this`n, this`hasKey
      ensures Val() == NoisePattern.MixKey(c, old(Val()), ikm)
    {
      var kp := if device then DeviceHkdf2(c, ck, ikm) else ClientHkdf2(c, ck, ikm);
      HkdfFormsAgree(c, ck, ikm);
      ck, k, n, hasKey := kp.first, kp.second, 0, true;
    }

    /** EncryptAndHash into a buffer of `room` octets; only the device tests the room when keyed. */
    method EncryptAndHash(c: Crypto, pt: bytes, room: nat) returns (ct: Option<bytes>)
      requires Lawful(c)
      modifies this
      ensures var x := NoisePattern.EncryptAndHash(c, old(Val()), pt);
              if (!old(hasKey) && room < |pt|) || (old(hasKey) && device && room < |pt| + TAG_LEN)
              then ct == None && Val() == old(Val()) && uses == old(uses)
              else ct == Some(x.ct) && Val() == x.sym && uses == old(uses) + x.uses
    {
      if !hasKey {
        if room < |pt| { return None; }
        MixHash(c, pt);
        return Some(pt);
      }
      if device && room < |pt| + TAG_LEN {
        return None;
      }
      var sealed := c.seal(k, Nonce(n), h, pt);
      uses := uses + [Use(k, n)];
      n := n + 1;
      MixHash(c, sealed);
      return Some(sealed);
    }

    /** DecryptAndHash into a buffer of `room` octets; a failure leaves the state alone. */
    method DecryptAndHash(c: Crypto, ct: bytes, room: nat) returns (pt: Option<bytes>)
      requires Lawful(c)
      modifies this`h, this`n
      ensures var x := NoisePattern.DecryptAndHash(c, old(Val()), ct);
              if x.None? || ((device || !hasKey) && |x.value.pt| > room) then pt == None && Val() == old(Val())
              else pt == Some(x.value.pt) && Val() == x.value.sym
    {
      if !hasKey {
        if room < |ct| { return None; }
        MixHash(c, ct);
        return Some(ct);
      }
      if device && (|ct| < TAG_LEN || room < |ct| - TAG_LEN) {
        return None;
      }
      pt := c.open_(k, Nonce(n), h, ct);
      if pt.None? { return; }
      n := n + 1;
      MixHash(c, ct);
    }

    method Split(c: Crypto) returns (r: KeyPair)
      requires Lawful(c)
      ensures r == SplitKeys(c, Val())
    {
      r := if device then DeviceHkdf2(c, ck, []) else ClientHkdf2(c, ck, []);
      HkdfFormsAgree(c, ck, []);
    }
  }

  function NewParty(c: Crypto, s: bytes, e: bytes, initiator: bool): (p: Party)
  {
    Party(InitSym(c), s, e, false, false, None, None, initiator)
  }

  // ----------------------------------------------- the patterns, token by token

  lemma WriteStep(c: Crypto, p: Party, t: Token, ts: seq<Token>, w: Written, w': Written)
    requires WriteToken(c, p, t) == Some(w) && WriteTokens(c, w.party, ts) == Some(w')
    ensures WriteTokens(c, p, [t] + ts) == Some(Written(w'.party, w.msg + w'.msg, w.uses + w'.uses))
  {
    assert ([t] + ts)[1..] == ts;
  }

  /** A Diffie-Hellman token adds nothing to the message. */
  lemma WriteDh(c: Crypto, p: Party, t: Token, ts: seq<Token>)
    requires t.EE? || t.ES? || t.SE?
    ensures var ikm := DhFor(c, p, t);
            WriteTokens(c, p, [t] + ts) ==
            if ikm.None? then None else WriteTokens(c, p.(sym := NoisePattern.MixKey(c, p.sym, ikm.value)), ts)
  {
    assert ([t] + ts)[1..] == ts;
    var ikm := DhFor(c, p, t);
    if ikm.Some? {
      var w' := WriteTokens(c, p.(sym := NoisePattern.MixKey(c, p.sym, ikm.value)), ts);
      if w'.Some? {
        assert [] + w'.value.msg == w'.value.msg && [] + w'.value.uses == w'.value.uses;
      }
    }
  }

  lemma WriteOne(c: Crypto, p: Party, t: Token)
    ensures WriteTokens(c, p, [t]) == WriteToken(c, p, t)
  {
    assert [t][1..] == [];
    var w := WriteToken(c, p, t);
    if w.Some? {
      assert WriteTokens(c, w.value.party, []) == Some(Written(w.value.party, [], []));
      assert w.value.msg + [] == w.value.msg && w.value.uses + [] == w.value.uses;
    }
  }

  /** Tokens e, ee, s, es of a responder that holds the initiator's ephemeral key. */
  lemma WriteMsg2Tokens(c: Crypto, p: Party)
    requires !p.initiator && p.re.Some?
    ensures var s1 := NoisePattern.MixHash(c, p.sym, c.pub(p.e));
            var ee, es := c.dh(p.e, p.re.value), c.dh(p.s, p.re.value);
            var w := WriteTokens(c, p, MSG2);
            if ee.None? || es.None? then w == None
            else
              var x := NoisePattern.EncryptAndHash(c, NoisePattern.MixKey(c, s1, ee.value), c.pub(p.s));
              w == Some(Written(p.(sym := NoisePattern.MixKey(c, x.sym, es.value), eSent := true, sSent := true),
                                c.pub(p.e) + x.ct, x.uses))
  {
    assert MSG2 == [E] + [EE, S, ES] && [EE, S, ES] == [EE] + [S, ES] && [S, ES] == [S] + [ES] && [ES] == [ES] + [];
    assert MSG2[1..] == [EE, S, ES] && [S, ES][1..] == [ES];
    var p1 := p.(sym := NoisePattern.MixHash(c, p.sym, c.pub(p.e)), eSent := true);
    WriteDh(c, p1, EE, [S, ES]);
    var ee, es := c.dh(p.e, p.re.value), c.dh(p.s, p.re.value);
    if ee.Some? {
      var p2 := p1.(sym := NoisePattern.MixKey(c, p1.sym, ee.value));
      var x := NoisePattern.EncryptAndHash(c, p2.sym, c.pub(p.s));
      var p3 := p2.(sym := x.sym, sSent := true);
      WriteOne(c, p3, ES);
      if es.Some? {
        var p4 := p3.(sym := NoisePattern.MixKey(c, p3.sym, es.value));
        WriteStep(c, p2, S, [ES], Written(p3, x.ct, x.uses), Written(p4, [], []));
        assert x.ct + [] == x.ct && x.uses + [] == x.uses;
        WriteStep(c, p, E, [EE, S, ES], Written(p1, c.pub(p.e), []), Written(p4, x.ct, x.uses));
        assert [] + x.uses == x.uses;
      } else {
        assert WriteTokens(c, p2, [S, ES]) == None;
      }
    }
  }

  lemma WriteMsg2Unrolled(c: Crypto, p: Party, payload: bytes)
    requires !p.initiator && p.re.Some?
    ensures var s1 := NoisePattern.MixHash(c, p.sym, c.pub(p.e));
            var ee, es := c.dh(p.e, p.re.value), c.dh(p.s, p.re.value);
            var w := WriteMessage(c, p, MSG2, payload);
            if ee.None? || es.None? then w == None
            else
              var x := NoisePattern.EncryptAndHash(c, NoisePattern.MixKey(c, s1, ee.value), c.pub(p.s));
              var y := NoisePattern.EncryptAndHash(c, NoisePattern.MixKey(c, x.sym, es.value), payload);
              w == Some(Written(p.(sym := y.sym, eSent := true, sSent := true),
                                c.pub(p.e) + x.ct + y.ct, x.uses + y.uses))
  {
    WriteMsg2Tokens(c, p);
  }

  lemma WriteMsg3Unrolled(c: Crypto, p: Party, payload: bytes)
    requires p.initiator && p.re.Some?
    ensures var x := NoisePattern.EncryptAndHash(c, p.sym, c.pub(p.s));
            var se := c.dh(p.s, p.re.value);
            var w := WriteMessage(c, p, MSG3, payload);
            if se.None? then w == None
            else
              var y := NoisePattern.EncryptAndHash(c, NoisePattern.MixKey(c, x.sym, se.value), payload);
              w == Some(Written(p.(sym := y.sym, sSent := true), x.ct + y.ct, x.uses + y.uses))
  {
    assert MSG3 == [S] + [SE] && MSG3[1..] == [SE];
    var x := NoisePattern.EncryptAndHash(c, p.sym, c.pub(p.s));
    var p1 := p.(sym := x.sym, sSent := true);
    WriteOne(c, p1, SE);
    var se := c.dh(p.s, p.re.value);
    if se.Some? {
      var p2 := p1.(sym := NoisePattern.MixKey(c, p1.sym, se.value));
      WriteStep(c, p, S, [SE], Written(p1, x.ct, x.uses), Written(p2, [], []));
      assert x.ct + [] == x.ct && x.uses + [] == x.uses;
    } else {
      assert WriteTokens(c, p, MSG3) == None;
    }
  }

  lemma ReadMsg2Tokens(c: Crypto, p: Party, msg: bytes)
    requires p.initiator && p.eSent && |msg| >= 96
    ensures var re := msg[..32];
            var ee := c.dh(p.e, re);
            var t := ReadTokens(c, p, MSG2, msg);
            if ee.None? then t == None
            else
              var s2 := NoisePattern.MixKey(c, NoisePattern.MixHash(c, p.sym, re), ee.value);
              var o := NoisePattern.DecryptAndHash(c, s2, msg[32..80]);
              if o.None? || c.dh(p.e, o.value.pt).None? then t == None
              else t == Some(Received(p.(sym := NoisePattern.MixKey(c, o.value.sym, c.dh(p.e, o.value.pt).value),
                                         re := Some(re), rs := Some(o.value.pt)), msg[80..]))
  {
    assert MSG2[1..] == [EE, S, ES] && [EE, S, ES][1..] == [S, ES] && [S, ES][1..] == [ES] && [ES][1..] == [];
    var re := msg[..32];
    var p1 := p.(sym := NoisePattern.MixHash(c, p.sym, re), re := Some(re));
    var rest := msg[32..];
    assert rest[..48] == msg[32..80] && rest[48..] == msg[80..];
    assert ReadTokens(c, p, MSG2, msg) == ReadTokens(c, p1, [EE, S, ES], rest);
    var ee := c.dh(p.e, re);
    if ee.Some? {
      var p2 := p1.(sym := NoisePattern.MixKey(c, p1.sym, ee.value));
      assert ReadTokens(c, p1, [EE, S, ES], rest) == ReadTokens(c, p2, [S, ES], rest);
      var o := NoisePattern.DecryptAndHash(c, p2.sym, rest[..48]);
      if o.Some? {
        var p3 := p2.(sym := o.value.sym, rs := Some(o.value.pt));
        assert ReadTokens(c, p2, [S, ES], rest) == ReadTokens(c, p3, [ES], msg[80..]);
        var es := c.dh(p.e, o.value.pt);
        if es.Some? {
          var p4 := p3.(sym := NoisePattern.MixKey(c, p3.sym, es.value));
          assert ReadTokens(c, p3, [ES], msg[80..]) == ReadTokens(c, p4, [], msg[80..]);
        }
      }
    }
  }

  lemma ReadMsg3Tokens(c: Crypto, p: Party, msg: bytes)
    requires !p.initiator && p.eSent && p.sym.hasKey && |msg| >= 64
    ensures var t := ReadTokens(c, p, MSG3, msg);
            var o := NoisePattern.DecryptAndHash(c, p.sym, msg[..48]);
            if o.None? || c.dh(p.e, o.value.pt).None? then t == None
            else t == Some(Received(p.(sym := NoisePattern.MixKey(c, o.value.sym, c.dh(p.e, o.value.pt).value),
                                       rs := Some(o.value.pt)), msg[48..]))
  {
    assert MSG3[1..] == [SE] && [SE][1..] == [];
    var o := NoisePattern.DecryptAndHash(c, p.sym, msg[..48]);
    if o.Some? {
      var p1 := p.(sym := o.value.sym, rs := Some(o.value.pt));
      assert ReadTokens(c, p, MSG3, msg) == ReadTokens(c, p1, [SE], msg[48..]);
      var se := c.dh(p.e, o.value.pt);
      if se.Some? {
        var p2 := p1.(sym := NoisePattern.MixKey(c, p1.sym, se.value));
        assert ReadTokens(c, p1, [SE], msg[48..]) == ReadTokens(c, p2, [], msg[48..]);
      }
    }
  }

  lemma Msg1Unrolled(c: Crypto, p: Party, msg: bytes)
    ensures WriteMessage(c, p, MSG1, []) ==
            var x := NoisePattern.EncryptAndHash(c, NoisePattern.MixHash(c, p.sym, c.pub(p.e)), []);
            Some(Written(p.(sym := x.sym, eSent := true), c.pub(p.e) + x.ct, x.uses))
    ensures |msg| == 32 ==>
            ReadTokens(c, p, MSG1, msg)
            == Some(Received(p.(sym := NoisePattern.MixHash(c, p.sym, msg), re := Some(msg)), []))
  {
    WriteOne(c, p, E);
    var x := NoisePattern.EncryptAndHash(c, NoisePattern.MixHash(c, p.sym, c.pub(p.e)), []);
    assert [] + x.uses == x.uses;
    if |msg| == 32 {
      assert MSG1[1..] == [];
      assert msg[..32] == msg && msg[32..] == [];
    }
  }

  // --------------------------------------------------------- the device's half

  /** The room the device's bound test sees: `sizeof` of a pointer less the position, in 32-bit size_t. */
  function PointerRoom(pos: nat): (r: nat)
    requires 4 <= pos <= 80
  {
    TWO_32 + 4 - pos
  }

  /** session_open: message 1, an initiator's ephemeral key of exactly 32 octets. */
  method DeviceRead(c: Crypto, sym: SymState, sPriv: bytes, ePriv: bytes, msg1: bytes) returns (ok: bool)
    requires Lawful(c) && sym.device && sym.Val() == InitSym(c) && sym.uses == []
    modifies sym
    ensures sym.uses == []
    ensures ok <==> |msg1| == 32
    ensures ok ==> var r := ReadMessage(c, NewParty(c, sPriv, ePriv, false), MSG1, msg1);
                   r.Some? && r.value.rest == [] && sym.Val() == r.value.party.sym && r.value.party.re == Some(msg1)
                   && SameKeys(NewParty(c, sPriv, ePriv, false), r.value.party)
  {
    if |msg1| != 32 {
      return false;
    }
    Msg1Unrolled(c, NewParty(c, sPriv, ePriv, false), msg1);
    sym.MixHash(c, msg1);
    sym.MixHash(c, []);
    return true;
  }

  /** session_open: message 2, with the identity chain as its payload. It always fits the message buffer. */
  method DeviceReply(c: Crypto, sym: SymState, sPriv: bytes, ePriv: bytes, re: bytes, chain: bytes, ghost p: Party)
    returns (msg2: Option<bytes>)
    requires Lawful(c) && sym.device && sym.Val() == p.sym && |chain| <= CHAIN_PT_MAX
    requires !p.initiator && p.s == sPriv && p.e == ePriv && p.re == Some(re)
    modifies sym
    ensures var w := WriteMessage(c, p, MSG2, chain);
            && (msg2.Some? <==> w.Some?)
            && (w.Some? ==> && msg2.value == w.value.msg && sym.Val() == w.value.party.sym
                            && sym.uses == old(sym.uses) + w.value.uses)
    ensures msg2.Some? ==> |msg2.value| == 96 + |chain| <= HS_MSG_MAX
    ensures msg2.None? ==>
            var ee := c.dh(ePriv, re);
            sym.uses == old(sym.uses) + if ee.None? then [] else [Use(ClientHkdf2(c, p.sym.ck, ee.value).second, 0)]
  {
    WriteMsg2Unrolled(c, p, chain);
    var ePub, sPub := c.pub(ePriv), c.pub(sPriv);
    sym.MixHash(c, ePub);
    var ee := c.dh(ePriv, re);
    if ee.None? { return None; }
    sym.MixKey(c, ee.value);
    var encS := sym.EncryptAndHash(c, sPub, PointerRoom(32));
    var es := c.dh(sPriv, re);
    if es.None? { return None; }
    sym.MixKey(c, es.value);
    var encChain := sym.EncryptAndHash(c, chain, PointerRoom(80));
    return Some(ePub + encS.value + encChain.value);
  }

  datatype Peer = Peer(remote: bytes, payload: bytes)

  /** session_open from message 3 on: the initiator's key and payload, or a failure. */
  method DeviceFinish(c: Crypto, sym: SymState, ePriv: bytes, msg3: bytes, expected: Option<bytes>, ghost p: Party)
    returns (r: Option<Peer>)
    requires Lawful(c) && sym.device && sym.Val() == p.sym && p.sym.hasKey
    requires !p.initiator && p.e == ePriv && p.eSent
    modifies sym
    ensures sym.uses == old(sym.uses)
    ensures var t := ReadMessage(c, p, MSG3, msg3);
            r.Some? <==> && 64 <= |msg3| <= HS_MSG_MAX && t.Some? && |t.value.rest| <= CHAIN_PT_MAX
                         && |t.value.party.rs.value| <= 32
                         && (expected.None? || expected == t.value.party.rs)
    ensures var t := ReadMessage(c, p, MSG3, msg3);
            r.Some? ==> sym.Val() == t.value.party.sym && r.value == Peer(t.value.party.rs.value, t.value.rest)
  {
    if |msg3| < 64 || |msg3| > HS_MSG_MAX {
      return None;
    }
    ReadMsg3Tokens(c, p, msg3);
    var remote := sym.DecryptAndHash(c, msg3[..48], 32);
    if remote.None? { return None; }
    if expected.Some? && remote.value != expected.value {
      return None;
    }
    var se := c.dh(ePriv, remote.value);
    if se.None? { return None; }
    sym.MixKey(c, se.value);
    var payload := sym.DecryptAndHash(c, msg3[48..], CHAIN_PT_MAX);
    if payload.None? { return None; }
    return Some(Peer(remote.value, payload.value));
  }

  // --------------------------------------------------------- the client's half

  /** cantil_session_open up to message 1. */
  method ClientHello(c: Crypto, sym: SymState, sPriv: bytes, ePriv: bytes) returns (msg1: bytes)
    requires Lawful(c) && !sym.device && sym.Val() == InitSym(c) && sym.uses == []
    modifies sym
    ensures var w := WriteMessage(c, NewParty(c, sPriv, ePriv, true), MSG1, []);
            w.Some? && msg1 == w.value.msg && |msg1| == 32 && sym.Val() == w.value.party.sym
            && sym.uses == w.value.uses == [] && w.value.party.eSent
  {
    Msg1Unrolled(c, NewParty(c, sPriv, ePriv, true), []);
    var ePub := c.pub(ePriv);
    sym.MixHash(c, ePub);
    sym.MixHash(c, []);
    assert ePub + [] == ePub;
    return ePub;
  }

  datatype Hello = Hello(re: bytes, rs: bytes, payload: bytes)

  /** cantil_session_open: the tokens of message 2, which must be at least 96 octets long. */
  method ClientReadTokens(c: Crypto, sym: SymState, ePriv: bytes, msg2: bytes, ghost p: Party)
    returns (r: Option<Hello>)
    requires Lawful(c) && !sym.device && sym.Val() == p.sym && p.initiator && p.e == ePriv && p.eSent && |msg2| >= 96
    modifies sym
    ensures sym.uses == old(sym.uses)
    ensures var t := ReadTokens(c, p, MSG2, msg2);
            && (r.Some? <==> t.Some?)
            && (r.Some? ==> && sym.Val() == t.value.party.sym && sym.hasKey && t.value.rest == msg2[80..]
                            && t.value.party.re == Some(r.value.re) && t.value.party.rs == Some(r.value.rs))
  {
    ReadMsg2Tokens(c, p, msg2);
    var re := msg2[..32];
    sym.MixHash(c, re);
    var ee := c.dh(ePriv, re);
    if ee.None? { return None; }
    sym.MixKey(c, ee.value);
    var rs := sym.DecryptAndHash(c, msg2[32..80], 32);
    if rs.None? { return None; }
    var es := c.dh(ePriv, rs.value);
    if es.None? { return None; }
    sym.MixKey(c, es.value);
    return Some(Hello(re, rs.value, []));
  }

  /** cantil_session_open: message 2. */
  method ClientRead(c: Crypto, sym: SymState, ePriv: bytes, msg2: bytes, ghost p: Party) returns (r: Option<Hello>)
    requires Lawful(c) && !sym.device && sym.Val() == p.sym && p.initiator && p.e == ePriv && p.eSent
    modifies sym
    ensures sym.uses == old(sym.uses)
    ensures var t := ReadMessage(c, p, MSG2, msg2);
            && (r.Some? <==> 96 <= |msg2| <= CLIENT_MSG_MAX && t.Some?)
            && (r.Some? ==> && sym.Val() == t.value.party.sym
                            && t.value.party.re == Some(r.value.re) && t.value.party.rs == Some(r.value.rs)
                            && r.value.payload == t.value.rest)
  {
    if |msg2| < 96 || |msg2| > CLIENT_MSG_MAX {
      return None;
    }
    r := ClientReadTokens(c, sym, ePriv, msg2, p);
    if r.None? { return; }
    var payload := sym.DecryptAndHash(c, msg2[80..], CLIENT_MSG_MAX);
    if payload.None? { return None; }
    return Some(r.value.(payload := payload.value));
  }

  /** cantil_session_open: message 3, into a buffer allocated for it. */
  method ClientReply(c: Crypto, sym: SymState, sPriv: bytes, re: bytes, payload: bytes, ghost p: Party)
    returns (msg3: Option<bytes>)
    requires Lawful(c) && !sym.device && sym.Val() == p.sym && p.initiator && p.s == sPriv && p.re == Some(re)
    modifies sym
    ensures var w := WriteMessage(c, p, MSG3, payload);
            && (msg3.Some? <==> w.Some?)
            && (w.Some? ==> && msg3.value == w.value.msg && sym.Val() == w.value.party.sym
                            && sym.uses == old(sym.uses) + w.value.uses)
    ensures msg3.None? ==> sym.uses == old(sym.uses) + if p.sym.hasKey then [Use(p.sym.k, p.sym.n)] else []
  {
    WriteMsg3Unrolled(c, p, payload);
    var encS := sym.EncryptAndHash(c, c.pub(sPriv), 48);
    var se := c.dh(sPriv, re);
    if se.None? { return None; }
    sym.MixKey(c, se.value);
    var encPayload := sym.EncryptAndHash(c, payload, |payload| + TAG_LEN);
    return Some(encS.value + encPayload.value);
  }

  // ----------------------------------------------------------- an honest run

  datatype Keys = Keys(tx: bytes, rx: bytes, remote: bytes, payload: bytes)

  /** The states, messages and payloads of one honest run, as the interpreter produces them. */
  datatype Run = Run(m1: Written, r1: Received, m2: Written, r2: Received, m3: Written, r3: Received)

  ghost predicate IsRun(c: Crypto, run: Run, sI: bytes, eI: bytes, sR: bytes, eR: bytes, chain: bytes, payload: bytes)
  {
    && WriteMessage(c, NewParty(c, sI, eI, true), MSG1, []) == Some(run.m1)
    && ReadMessage(c, NewParty(c, sR, eR, false), MSG1, run.m1.msg) == Some(run.r1)
    && WriteMessage(c, run.r1.party, MSG2, chain) == Some(run.m2)
    && ReadMessage(c, run.m1.party, MSG2, run.m2.msg) == Some(run.r2)
    && WriteMessage(c, run.r2.party, MSG3, payload) == Some(run.m3)
    && ReadMessage(c, run.m2.party, MSG3, run.m3.msg) == Some(run.r3)
  }

  /** After every message of a run the two ends mirror each other; nothing is lost or altered. */
  lemma RunAgrees(c: Crypto, run: Run, sI: bytes, eI: bytes, sR: bytes, eR: bytes, chain: bytes, payload: bytes)
    requires Lawful(c) && IsRun(c, run, sI, eI, sR, eR, chain, payload)
    ensures Mirror(c, run.m1.party, run.r1.party) && run.r1.rest == []
    ensures Mirror(c, run.m2.party, run.r2.party) && run.r2.rest == chain
    ensures Mirror(c, run.m3.party, run.r3.party) && run.r3.rest == payload
    ensures run.m3.party.sym == run.r3.party.sym
    ensures SplitKeys(c, run.m3.party.sym) == SplitKeys(c, run.r3.party.sym)
  {
    MessageAgrees(c, NewParty(c, sI, eI, true), NewParty(c, sR, eR, false), MSG1, []);
    MessageAgrees(c, run.r1.party, run.m1.party, MSG2, chain);
    MessageAgrees(c, run.r2.party, run.m2.party, MSG3, payload);
  }

  /** Message 1 from client to device. */
  method Exchange1(c: Crypto, cs: SymState, ds: SymState, sI: bytes, eI: bytes, sR: bytes, eR: bytes)
    returns (msg1: bytes, ghost i: Party, ghost r: Party)
    requires Lawful(c) && cs != ds && !cs.device && ds.device
    requires cs.Val() == ds.Val() == InitSym(c) && cs.uses == ds.uses == []
    modifies cs, ds
    ensures Mirror(c, i, r) && cs.Val() == i.sym && ds.Val() == r.sym && msg1 == c.pub(eI)
    ensures SameKeys(i, NewParty(c, sI, eI, true)) && SameKeys(r, NewParty(c, sR, eR, false))
    ensures i.eSent && r.re == Some(msg1)
  {
    ghost var i0, r0 := NewParty(c, sI, eI, true), NewParty(c, sR, eR, false);
    msg1 := ClientHello(c, cs, sI, eI);
    i := WriteMessage(c, i0, MSG1, []).value.party;
    MessageAgrees(c, i0, r0, MSG1, []);
    var ok := DeviceRead(c, ds, sR, eR, msg1);
    r := ReadMessage(c, r0, MSG1, msg1).value.party;
  }

  /** Message 2 from device to client. */
  method Exchange2(c: Crypto, cs: SymState, ds: SymState, msg1: bytes, chain: bytes, ghost i1: Party, ghost r1: Party,
                   eI: bytes, sR: bytes, eR: bytes)
    returns (hello: Option<Hello>, ghost i: Party, ghost r: Party)
    requires Lawful(c) && cs != ds && !cs.device && ds.device && |chain| <= CHAIN_PT_MAX
    requires Mirror(c, i1, r1) && cs.Val() == i1.sym && ds.Val() == r1.sym
    requires i1.initiator && i1.eSent && i1.e == eI && r1.e == eR && r1.s == sR && r1.re == Some(msg1)
    modifies cs, ds
    ensures hello.Some? <==> c.dh(eR, msg1).Some? && c.dh(sR, msg1).Some?
    ensures hello.Some? ==>
            && Mirror(c, i, r) && cs.Val() == i.sym && ds.Val() == r.sym && SameKeys(i, i1) && SameKeys(r, r1)
            && r.eSent && r.sSent && i.sym.hasKey
            && hello == Some(Hello(c.pub(eR), c.pub(sR), chain))
  {
    i, r := i1, r1;
    WriteMsg2Unrolled(c, r1, chain);
    var msg2 := DeviceReply(c, ds, sR, eR, msg1, chain, r1);
    if msg2.None? { return None, i, r; }
    MessageAgrees(c, r1, i1, MSG2, chain);
    hello := ClientRead(c, cs, eI, msg2.value, i1);
    r := WriteMessage(c, r1, MSG2, chain).value.party;
    i := ReadMessage(c, i1, MSG2, msg2.value).value.party;
  }

  /** Message 3 from client to device. */
  method Exchange3(c: Crypto, cs: SymState, ds: SymState, re: bytes, payload: bytes, expected: Option<bytes>,
                   ghost i2: Party, ghost r2: Party, sI: bytes, eR: bytes)
    returns (sent: bool, peer: Option<Peer>)
    requires Lawful(c) && cs != ds && !cs.device && ds.device
    requires Mirror(c, i2, r2) && cs.Val() == i2.sym && ds.Val() == r2.sym && i2.sym.hasKey
    requires i2.initiator && i2.s == sI && i2.re == Some(re) && r2.e == eR && r2.eSent
    modifies cs, ds
    ensures sent <==> c.dh(sI, re).Some?
    ensures peer.Some? <==> sent && |payload| <= CHAIN_PT_MAX && (expected.None? || expected == Some(c.pub(sI)))
    ensures peer.Some? ==> peer == Some(Peer(c.pub(sI), payload)) && cs.Val() == ds.Val()
  {
    WriteMsg3Unrolled(c, i2, payload);
    var msg3 := ClientReply(c, cs, sI, re, payload, i2);
    if msg3.None? { return false, None; }
    MessageAgrees(c, i2, r2, MSG3, payload);
    Msg3Length(c, i2, payload);
    peer := DeviceFinish(c, ds, eR, msg3.value, expected, r2);
    return true, peer;
  }

  /**
   Both ends driven against each other over a network that delivers. The client
   finishes unless a Diffie-Hellman refuses; the device does if also the
   client's payload fits its buffer and its key is the one expected, if one is. Each that finishes holds the other's true
   static key and payload, and what one sends under, the other receives under.
   The payload is whatever the client's own buffer yields (see ExchangeChains).
   */
  method HonestRun(c: Crypto, sI: bytes, eI: bytes, sR: bytes, eR: bytes, chain: bytes, payload: bytes,
                   expected: Option<bytes>) returns (client: Option<Keys>, device: Option<Keys>)
    requires Lawful(c) && |chain| <= CHAIN_PT_MAX
    ensures var ok := c.dh(eI, c.pub(eR)).Some? && c.dh(eI, c.pub(sR)).Some? && c.dh(sI, c.pub(eR)).Some?;
            && (client.Some? <==> ok)
            && (device.Some? <==> ok && |payload| <= CHAIN_PT_MAX && (expected.None? || expected == Some(c.pub(sI))))
    ensures client.Some? ==> client.value.remote == c.pub(sR) && client.value.payload == chain
    ensures device.Some? ==> device.value.remote == c.pub(sI) && device.value.payload == payload
    ensures device.Some? ==> client.value.tx == device.value.rx && client.value.rx == device.value.tx
  {
    var cs := new SymState(c, false);
    var ds := new SymState(c, true);
    client, device := None, None;
    ghost var i1, r1, i2, r2;
    var msg1, hello;
    msg1, i1, r1 := Exchange1(c, cs, ds, sI, eI, sR, eR);
    assert c.dh(eR, msg1) == c.dh(eI, c.pub(eR)) && c.dh(sR, msg1) == c.dh(eI, c.pub(sR));
    hello, i2, r2 := Exchange2(c, cs, ds, msg1, chain, i1, r1, eI, sR, eR);
    if hello.None? { return; }
    var sent, peer := Exchange3(c, cs, ds, hello.value.re, payload, expected, i2, r2, sI, eR);
    if !sent { return; }
    var ck := cs.Split(c);
    client := Some(Keys(ck.first, ck.second, hello.value.rs, hello.value.payload));
    if peer.None? { return; }
    var dk := ds.Split(c);
    device := Some(Keys(dk.second, dk.first, peer.value.remote, peer.value.payload));
  }

  lemma Msg3Length(c: Crypto, p: Party, payload: bytes)
    requires Lawful(c) && p.initiator && p.re.Some? && p.sym.hasKey
    ensures var w := WriteMessage(c, p, MSG3, payload); w.Some? ==> |w.value.msg| == 64 + |payload|
  {
    WriteMsg3Unrolled(c, p, payload);
  }
}
