/**
 The metadata blob kept for every issued certificate: a packed little-endian
 record of 116 octets (version 2), or its first 108 octets (version 1).
 */
module IssuedMeta {
  import opened Octets

  const V1_SIZE := 108
  const V2_SIZE := 116

  const REVOKED: nat := 1
  const PROTECTED: nat := 2
  const EXPIRED: nat := 4

  datatype Meta = Meta(flags: byte, serialLen: byte, reason: byte, issuer: nat, notBefore: nat, notAfter: nat,
                       serial: bytes, cn: bytes, revokedAt: nat)

  predicate ValidMeta(m: Meta)
  {
    && m.issuer < TWO_32 && m.notBefore < TWO_64 && m.notAfter < TWO_64 && m.revokedAt < TWO_64
    && |m.serial| == 20 && |m.cn| == 64
  }

  predicate IsFlag(bit: nat)
  {
    bit == REVOKED || bit == PROTECTED || bit == EXPIRED
  }

  predicate Has(flags: byte, bit: nat)
    requires IsFlag(bit)
  {
    flags / bit % 2 == 1
  }

  /** `flags | bit`. */
  function With(flags: byte, bit: nat): (r: byte)
    requires IsFlag(bit)
    ensures forall b :: IsFlag(b) ==> (Has(r, b) <==> b == bit || Has(flags, b))
  {
    if Has(flags, bit) then flags
    else
      WithFits(flags, bit);
      flags + bit
  }

  lemma LowBits(q: nat, a: nat, b: nat, c: nat)
    requires a < 2 && b < 2 && c < 2
    ensures var f := 8 * q + 4 * a + 2 * b + c; f / 1 % 2 == c && f / 2 % 2 == b && f / 4 % 2 == a
  {
    var f := 8 * q + 4 * a + 2 * b + c;
    assert f == 2 * (4 * q + 2 * a + b) + c;
    assert f / 2 == 4 * q + 2 * a + b == 2 * (2 * q + a) + b;
    assert f == 4 * (2 * q + a) + (2 * b + c);
    assert f / 4 == 2 * q + a;
  }

  lemma Bits(f: nat) returns (q: nat, a: nat, b: nat, c: nat)
    ensures a < 2 && b < 2 && c < 2 && f == 8 * q + 4 * a + 2 * b + c
    ensures f / 1 % 2 == c && f / 2 % 2 == b && f / 4 % 2 == a
  {
    var half := f / 2;
    var quarter := half / 2;
    q := quarter / 2;
    a, b, c := quarter - 2 * q, half - 2 * quarter, f - 2 * half;
    LowBits(q, a, b, c);
  }

  lemma WithFits(flags: byte, bit: nat)
    requires IsFlag(bit) && !Has(flags, bit)
    ensures flags + bit < 256
    ensures forall b :: IsFlag(b) ==> ((flags + bit) / b % 2 == 1 <==> b == bit || Has(flags, b))
  {
    var q, a, b, c := Bits(flags);
    if bit == REVOKED {
      LowBits(q, a, b, 1);
    } else if bit == PROTECTED {
      LowBits(q, a, 1, c);
    } else {
      LowBits(q, 1, b, c);
    }
  }

  // ------------------------------------------------------------------ packing

  function FromLE(s: bytes): (v: nat)
  {
    if s == [] then 0 else s[0] + 256 * FromLE(s[1..])
  }

  lemma {:induction false} FromToLE(v: nat, n: nat)
    requires v < Pow256(n)
    ensures FromLE(ToLE(v, n)) == v
  {
    if n > 0 {
      FromToLE(v / 256, n - 1);
      assert ToLE(v, n)[1..] == ToLE(v / 256, n - 1);
    }
  }

  /** The record as written to storage. */
  function Pack(version: byte, m: Meta): (r: bytes)
    requires ValidMeta(m)
    ensures |r| == V2_SIZE
  {
    [version, m.flags, m.serialLen, m.reason] + ToLE(m.issuer, 4) + ToLE(m.notBefore, 8) + ToLE(m.notAfter, 8)
    + m.serial + m.cn + ToLE(m.revokedAt, 8)
  }

  /** The fields common to both versions. */
  function Fields(blob: bytes, reason: byte, revokedAt: nat): (m: Meta)
    requires |blob| >= V1_SIZE
  {
    Meta(blob[1], blob[2], reason, FromLE(blob[4..8]), FromLE(blob[8..16]), FromLE(blob[16..24]),
         blob[24..44], blob[44..108], revokedAt)
  }

  /** read_issued_meta: version 2 in full, version 1 with its reserved octet and its tail zeroed. */
  function Read(blob: bytes): (r: Option<Meta>)
  {
    if |blob| < 1 then None
    else if blob[0] == 2 then
      if |blob| < V2_SIZE then None else Some(Fields(blob, blob[3], FromLE(blob[108..116])))
    else if blob[0] == 1 then
      if |blob| < V1_SIZE then None else Some(Fields(blob, 0, 0))
    else None
  }

  lemma PackedFields(version: byte, m: Meta)
    requires ValidMeta(m)
    ensures var b := Pack(version, m);
            && b[0] == version && b[1] == m.flags && b[2] == m.serialLen && b[3] == m.reason
            && b[4..8] == ToLE(m.issuer, 4) && b[8..16] == ToLE(m.notBefore, 8) && b[16..24] == ToLE(m.notAfter, 8)
            && b[24..44] == m.serial && b[44..108] == m.cn && b[108..116] == ToLE(m.revokedAt, 8)
  {
  }

  /** A version 2 record reads back unchanged; a version 1 record loses reason and revocation time. */
  lemma ReadPack(m: Meta)
    requires ValidMeta(m)
    ensures Read(Pack(2, m)) == Some(m)
    ensures Read(Pack(1, m)) == Some(m.(reason := 0, revokedAt := 0))
  {
    PackedFields(1, m);
    PackedFields(2, m);
    Pow256Values();
    FromToLE(m.issuer, 4);
    FromToLE(m.notBefore, 8);
    FromToLE(m.notAfter, 8);
    FromToLE(m.revokedAt, 8);
  }
}
