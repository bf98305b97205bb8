/**
 The Noise Protocol Framework's symmetric state (section 5.2) and a generic
 interpreter of its message patterns (section 5.3). This is the reference both
 hand-written ends are proved against; that the two roles of the interpreter
 agree is proved here for every list of tokens.
 */
module NoisePattern {
  import opened Octets
  import opened NoiseCrypto

  /** "Noise_XX_25519_ChaChaPoly_SHA256", exactly 32 octets. */
  const PROTOCOL_NAME: bytes := [
    0x4E, 0x6F, 0x69, 0x73, 0x65, 0x5F, 0x58, 0x58, 0x5F, 0x32, 0x35, 0x35, 0x31, 0x39, 0x5F, 0x43,
    0x68, 0x61, 0x43, 0x68, 0x61, 0x50, 0x6F, 0x6C, 0x79, 0x5F, 0x53, 0x48, 0x41, 0x32, 0x35, 0x36]

  datatype Sym = Sym(h: bytes, ck: bytes, k: bytes, n: nat, hasKey: bool)

  /** A key and nonce counter handed to the AEAD for encryption. */
  datatype Use = Use(key: bytes, nonce: nat)

  function Zeros(n: nat): (r: bytes)
    ensures |r| == n
  {
    seq(n, _ => 0)
  }

  /** Initialize with an empty prologue. */
  function InitSym(c: Crypto): (s: Sym)
  {
    MixHash(c, Sym(PROTOCOL_NAME, PROTOCOL_NAME, Zeros(32), 0, false), [])
  }

  function MixHash(c: Crypto, s: Sym, data: bytes): (r: Sym)
  {
    s.(h := c.hash(s.h + data))
  }

  function MixKey(c: Crypto, s: Sym, ikm: bytes): (r: Sym)
  {
    var kp := ClientHkdf2(c, s.ck, ikm);
    s.(ck := kp.first, k := kp.second, n := 0, hasKey := true)
  }

  datatype Sealed = Sealed(sym: Sym, ct: bytes, uses: seq<Use>)
  datatype Opened = Opened(sym: Sym, pt: bytes)

  function EncryptAndHash(c: Crypto, s: Sym, pt: bytes): (r: Sealed)
  {
    if !s.hasKey then Sealed(MixHash(c, s, pt), pt, [])
    else
      var ct := c.seal(s.k, Nonce(s.n), s.h, pt);
      Sealed(MixHash(c, s.(n := s.n + 1), ct), ct, [Use(s.k, s.n)])
  }

  function DecryptAndHash(c: Crypto, s: Sym, ct: bytes): (r: Option<Opened>)
  {
    if !s.hasKey then Some(Opened(MixHash(c, s, ct), ct))
    else
      match c.open_(s.k, Nonce(s.n), s.h, ct)
      case None => None
      case Some(pt) => Some(Opened(MixHash(c, s.(n := s.n + 1), ct), pt))
  }

  function SplitKeys(c: Crypto, s: Sym): (r: KeyPair)
  {
    ClientHkdf2(c, s.ck, [])
  }

  /** What one end encrypts and hashes, the other opens, and the states agree again. */
  lemma SealOpens(c: Crypto, s: Sym, pt: bytes)
    requires Lawful(c)
    ensures var e := EncryptAndHash(c, s, pt);
            DecryptAndHash(c, s, e.ct) == Some(Opened(e.sym, pt)) && |e.ct| == |pt| + if s.hasKey then TAG_LEN else 0
  {
  }

  // ----------------------------------------------------------------- patterns

  datatype Token = E | S | EE | ES | SE

  /** One end: its private keys, what it has sent, and what it has received. */
  datatype Party = Party(sym: Sym, s: bytes, e: bytes, eSent: bool, sSent: bool,
                         re: Option<bytes>, rs: Option<bytes>, initiator: bool)

  /** The Diffie-Hellman result a token calls for; undefined before both keys involved have been exchanged. */
  function DhFor(c: Crypto, p: Party, t: Token): (r: Option<bytes>)
  {
    if t == EE then (if p.eSent && p.re.Some? then c.dh(p.e, p.re.value) else None)
    else if (t == ES) == p.initiator then (if p.eSent && p.rs.Some? then c.dh(p.e, p.rs.value) else None)
    else (if p.sSent && p.re.Some? then c.dh(p.s, p.re.value) else None)
  }

  datatype Written = Written(party: Party, msg: bytes, uses: seq<Use>)
  datatype Received = Received(party: Party, rest: bytes)

  function WriteToken(c: Crypto, p: Party, t: Token): (r: Option<Written>)
  {
    match t
    case E => Some(Written(p.(sym := MixHash(c, p.sym, c.pub(p.e)), eSent := true), c.pub(p.e), []))
    case S =>
      var x := EncryptAndHash(c, p.sym, c.pub(p.s));
      Some(Written(p.(sym := x.sym, sSent := true), x.ct, x.uses))
    case _ =>
      match DhFor(c, p, t)
      case None => None
      case Some(ikm) => Some(Written(p.(sym := MixKey(c, p.sym, ikm)), [], []))
  }

  function ReadToken(c: Crypto, p: Party, t: Token, msg: bytes): (r: Option<Received>)
  {
    match t
    case E =>
      if |msg| < KEY_LEN then None
      else Some(Received(p.(sym := MixHash(c, p.sym, msg[..KEY_LEN]), re := Some(msg[..KEY_LEN])), msg[KEY_LEN..]))
    case S =>
      var n := KEY_LEN + if p.sym.hasKey then TAG_LEN else 0;
      if |msg| < n then None
      else
        var o := DecryptAndHash(c, p.sym, msg[..n]);
        if o.None? then None else Some(Received(p.(sym := o.value.sym, rs := Some(o.value.pt)), msg[n..]))
    case _ =>
      match DhFor(c, p, t)
      case None => None
      case Some(ikm) => Some(Received(p.(sym := MixKey(c, p.sym, ikm)), msg))
  }

  function WriteTokens(c: Crypto, p: Party, ts: seq<Token>): (r: Option<Written>)
    decreases |ts|
  {
    if ts == [] then Some(Written(p, [], []))
    else
      match WriteToken(c, p, ts[0])
      case None => None
      case Some(w) =>
        match WriteTokens(c, w.party, ts[1..])
        case None => None
        case Some(w') => Some(Written(w'.party, w.msg + w'.msg, w.uses + w'.uses))
  }

  function ReadTokens(c: Crypto, p: Party, ts: seq<Token>, msg: bytes): (r: Option<Received>)
    decreases |ts|
  {
    if ts == [] then Some(Received(p, msg))
    else
      match ReadToken(c, p, ts[0], msg)
      case None => None
      case Some(x) => ReadTokens(c, x.party, ts[1..], x.rest)
  }

  /** WriteMessage: the tokens, then the payload. */
  function WriteMessage(c: Crypto, p: Party, ts: seq<Token>, payload: bytes): (r: Option<Written>)
  {
    match WriteTokens(c, p, ts)
    case None => None
    case Some(w) =>
      var x := EncryptAndHash(c, w.party.sym, payload);
      Some(Written(w.party.(sym := x.sym), w.msg + x.ct, w.uses + x.uses))
  }

  /** ReadMessage: the tokens, then the payload, which is returned as the rest. */
  function ReadMessage(c: Crypto, p: Party, ts: seq<Token>, msg: bytes): (r: Option<Received>)
  {
    match ReadTokens(c, p, ts, msg)
    case None => None
    case Some(x) =>
      match DecryptAndHash(c, x.party.sym, x.rest)
      case None => None
      case Some(o) => Some(Received(x.party.(sym := o.sym), o.pt))
  }

  // ---------------------------------------------------------------- agreement

  /** Each end holds exactly the public keys the other has sent. */
  ghost predicate Knows(c: Crypto, a: Party, b: Party)
  {
    && a.re == (if b.eSent then Some(c.pub(b.e)) else None)
    && a.rs == (if b.sSent then Some(c.pub(b.s)) else None)
  }

  /** Opposite roles, equal symmetric states, true knowledge of each other's keys. */
  ghost predicate Mirror(c: Crypto, a: Party, b: Party)
  {
    a.initiator != b.initiator && a.sym == b.sym && Knows(c, a, b) && Knows(c, b, a)
  }

  lemma DhAgrees(c: Crypto, a: Party, b: Party, t: Token)
    requires Lawful(c) && Mirror(c, a, b) && (t.EE? || t.ES? || t.SE?)
    ensures DhFor(c, a, t) == DhFor(c, b, t)
  {
  }

  lemma TokenAgrees(c: Crypto, w: Party, r: Party, t: Token, tail: bytes)
    requires Lawful(c) && Mirror(c, w, r) && WriteToken(c, w, t).Some?
    ensures var x := WriteToken(c, w, t).value;
            var y := ReadToken(c, r, t, x.msg + tail);
            y.Some? && y.value.rest == tail && Mirror(c, x.party, y.value.party)
            && SameKeys(w, x.party) && SameKeys(r, y.value.party)
  {
    var x := WriteToken(c, w, t).value;
    var msg := x.msg + tail;
    if t.E? {
      assert msg[..KEY_LEN] == x.msg && msg[KEY_LEN..] == tail;
    } else if t.S? {
      SealOpens(c, w.sym, c.pub(w.s));
      assert msg[..|x.msg|] == x.msg && msg[|x.msg|..] == tail;
    } else {
      DhAgrees(c, w, r, t);
      assert msg == tail;
    }
  }

  ghost predicate SameKeys(a: Party, b: Party)
  {
    a.s == b.s && a.e == b.e && a.initiator == b.initiator
  }

  lemma {:induction false} TokensAgree(c: Crypto, w: Party, r: Party, ts: seq<Token>, tail: bytes)
    requires Lawful(c) && Mirror(c, w, r) && WriteTokens(c, w, ts).Some?
    ensures var x := WriteTokens(c, w, ts).value;
            var y := ReadTokens(c, r, ts, x.msg + tail);
            y.Some? && y.value.rest == tail && Mirror(c, x.party, y.value.party)
            && SameKeys(w, x.party) && SameKeys(r, y.value.party)
    decreases |ts|
  {
    if ts == [] {
      assert [] + tail == tail;
    } else {
      var x := WriteToken(c, w, ts[0]).value;
      var x' := WriteTokens(c, x.party, ts[1..]).value;
      TokenAgrees(c, w, r, ts[0], x'.msg + tail);
      assert x.msg + x'.msg + tail == x.msg + (x'.msg + tail);
      var y := ReadToken(c, r, ts[0], x.msg + (x'.msg + tail)).value;
      TokensAgree(c, x.party, y.party, ts[1..], tail);
    }
  }

  /**
   For every message pattern: whatever one end writes, the mirrored end reads,
   the payload arrives, and the two are mirrored again with equal states.
   */
  lemma MessageAgrees(c: Crypto, w: Party, r: Party, ts: seq<Token>, payload: bytes)
    requires Lawful(c) && Mirror(c, w, r) && WriteMessage(c, w, ts, payload).Some?
    ensures var x := WriteMessage(c, w, ts, payload).value;
            var y := ReadMessage(c, r, ts, x.msg);
            y.Some? && y.value.rest == payload && Mirror(c, x.party, y.value.party)
            && SameKeys(w, x.party) && SameKeys(r, y.value.party)
  {
    var x := WriteTokens(c, w, ts).value;
    var z := EncryptAndHash(c, x.party.sym, payload);
    TokensAgree(c, w, r, ts, z.ct);
    SealOpens(c, x.party.sym, payload);
  }
}
