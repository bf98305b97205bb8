/**
 The primitives of the Noise session, kept symbolic, and the two ways of
 deriving keys: chained HMAC on the client, RFC 5869 on the device.
 */
module NoiseCrypto {
  import opened Octets

  const KEY_LEN := 32
  const TAG_LEN := 16

  /** Hash, HMAC, AEAD and Diffie-Hellman as functions; `dh` may refuse a point. */
  datatype Crypto = Crypto(
    hash: bytes -> bytes,
    hmac: (bytes, bytes) -> bytes,
    seal: (bytes, bytes, bytes, bytes) -> bytes,
    open_: (bytes, bytes, bytes, bytes) -> Option<bytes>,
    pub: bytes -> bytes,
    dh: (bytes, bytes) -> Option<bytes>)

  /** The few laws needed: sizes, opening what was sealed, and commutative Diffie-Hellman. */
  ghost predicate Lawful(c: Crypto)
  {
    && (forall x :: |c.hash(x)| == 32)
    && (forall k, x :: |c.hmac(k, x)| == 32)
    && (forall k, n, ad, pt :: |c.seal(k, n, ad, pt)| == |pt| + TAG_LEN)
    && (forall k, n, ad, pt :: c.open_(k, n, ad, c.seal(k, n, ad, pt)) == Some(pt))
    && (forall k, n, ad, ct :: c.open_(k, n, ad, ct).Some? ==> |ct| == |c.open_(k, n, ad, ct).value| + TAG_LEN)
    && (forall a :: |c.pub(a)| == KEY_LEN)
    && (forall a, b :: c.dh(a, c.pub(b)) == c.dh(b, c.pub(a)))
  }

  // ------------------------------------------------------------------- nonces

  /** Four zero octets and the counter in eight octets, little-endian; a 64-bit counter. */
  function Nonce(n: nat): (s: bytes)
    ensures |s| == 12
  {
    [0, 0, 0, 0] + ToLE(n, 8)
  }

  lemma {:induction false} ToLEInjective(a: nat, b: nat, n: nat)
    requires a < Pow256(n) && b < Pow256(n) && ToLE(a, n) == ToLE(b, n)
    ensures a == b
  {
    if n > 0 {
      assert ToLE(a, n)[0] == ToLE(b, n)[0];
      assert ToLE(a, n)[1..] == ToLE(a / 256, n - 1) && ToLE(b, n)[1..] == ToLE(b / 256, n - 1);
      ToLEInjective(a / 256, b / 256, n - 1);
    }
  }

  /** Different counters below 2^64 give different nonces. */
  lemma NonceInjective(a: nat, b: nat)
    requires a < TWO_64 && b < TWO_64 && Nonce(a) == Nonce(b)
    ensures a == b
  {
    Pow256Values();
    assert Nonce(a)[4..] == ToLE(a, 8) && Nonce(b)[4..] == ToLE(b, 8);
    ToLEInjective(a, b, 8);
  }

  /** A nonce is four zero octets and the counter, least significant octet first. */
  lemma NonceOctets(n: nat)
    ensures Nonce(n)[..4] == [0, 0, 0, 0]
    ensures Nonce(n)[4] == n % 256 && Nonce(n)[5] == n / 256 % 256 && Nonce(n)[6] == n / 256 / 256 % 256
    ensures n < 0x100 ==> Nonce(n) == [0, 0, 0, 0, n, 0, 0, 0, 0, 0, 0, 0]
  {
    var a, b, c := ToLE(n, 8), ToLE(n / 256, 7), ToLE(n / 256 / 256, 6);
    assert a == [n % 256] + b && b == [n / 256 % 256] + c && c[0] == n / 256 / 256 % 256;
    if n < 0x100 {
      ZeroLE(7);
      assert b == [0, 0, 0, 0, 0, 0, 0];
    }
  }

  lemma {:induction false} ZeroLE(n: nat)
    ensures forall i :: 0 <= i < n ==> ToLE(0, n)[i] == 0
  {
    if n > 0 {
      ZeroLE(n - 1);
    }
  }

  // --------------------------------------------------------------------- HKDF

  datatype KeyPair = KeyPair(first: bytes, second: bytes)

  /** T(1) | T(2) | ... | T(i) of section 2.3 of RFC 5869, and T(i) itself. */
  function Expand(c: Crypto, prk: bytes, info: bytes, i: nat): (t: KeyPair)
    requires i < 256
  {
    if i == 0 then KeyPair([], [])
    else
      var prev := Expand(c, prk, info, i - 1);
      var ti := c.hmac(prk, prev.second + info + [i]);
      KeyPair(prev.first + ti, ti)
  }

  /** HKDF(salt, ikm, info, L) of RFC 5869. */
  function Hkdf(c: Crypto, ikm: bytes, salt: bytes, info: bytes, len: nat): (okm: bytes)
    requires len <= 255 * 32
  {
    var n := (len + 31) / 32;
    var all := Expand(c, c.hmac(salt, ikm), info, n).first;
    if len <= |all| then all[..len] else all
  }

  /** noise_crypto_hkdf2: 64 octets of RFC 5869 output cut in half. */
  function DeviceHkdf2(c: Crypto, ck: bytes, ikm: bytes): (r: KeyPair)
  {
    var okm := Hkdf(c, ikm, ck, [], 64);
    if |okm| == 64 then KeyPair(okm[..32], okm[32..]) else KeyPair([], [])
  }

  /** hkdf2: three HMACs in a chain, as section 4.3 of the Noise specification has it. */
  function ClientHkdf2(c: Crypto, ck: bytes, ikm: bytes): (r: KeyPair)
  {
    var temp := c.hmac(ck, ikm);
    var out1 := c.hmac(temp, [0x01]);
    KeyPair(out1, c.hmac(temp, out1 + [0x02]))
  }

  /** The two derivations agree on every chaining key and input. */
  lemma HkdfFormsAgree(c: Crypto, ck: bytes, ikm: bytes)
    requires Lawful(c)
    ensures DeviceHkdf2(c, ck, ikm) == ClientHkdf2(c, ck, ikm)
  {
    var prk := c.hmac(ck, ikm);
    var t0, t1, t2 := Expand(c, prk, [], 0), Expand(c, prk, [], 1), Expand(c, prk, [], 2);
    assert [] + [] + [1] == [1];
    assert t1.second == c.hmac(prk, [1]);
    assert t1.first == t1.second;
    assert t1.second + [] + [2] == t1.second + [2];
    assert t2.first == t1.second + t2.second;
    assert (64 + 31) / 32 == 2;
    assert t2.first[..64] == t2.first;
    assert t2.first[..32] == t1.second && t2.first[32..] == t2.second;
  }
}
