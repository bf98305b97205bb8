/**
 The right-to-left DER writer and its one reader. The encodings of X.690
 (sections 8.1.3, 8.3.2 and 10.1) are given as functions, with a strict reader
 as their inverse; every writer is proved against them.
 */
module Der {
  import opened Octets

  const BUF_TOO_SMALL := -0x6C
  const INVALID_DATA := -0x68

  const TAG_INTEGER: byte := 0x02
  const TAG_BIT_STRING: byte := 0x03
  const TAG_OCTET_STRING: byte := 0x04
  const TAG_OID: byte := 0x06
  const TAG_UTC_TIME: byte := 0x17
  const TAG_GENERALIZED_TIME: byte := 0x18
  const TAG_SEQUENCE: byte := 0x30
  const TAG_CONTEXT_0: byte := 0xA0

  // ------------------------------------------------------------- encodings

  /** Octets the long form needs for a length. */
  function LenOctets(n: nat): (k: nat)
    ensures k <= 4
  {
    if n < 0x80 then 0 else if n <= 0xFF then 1 else if n <= 0xFFFF then 2 else if n <= 0xFF_FFFF then 3 else 4
  }

  function LenBytes(n: nat): (r: bytes)
    ensures |r| == 1 + LenOctets(n)
  {
    if n < 0x80 then [n] else [0x80 + LenOctets(n)] + ToBE(n, LenOctets(n))
  }

  function Tlv(tag: byte, content: bytes): (r: bytes)
    ensures |r| == 2 + LenOctets(|content|) + |content|
  {
    [tag] + LenBytes(|content|) + content
  }

  /** Big-endian octets of `v` without a leading zero octet (one octet for zero). */
  function MinBE(v: nat): (r: bytes)
    ensures |r| >= 1
  {
    if v < 256 then [v] else MinBE(v / 256) + [v % 256]
  }

  /** A zero octet in front keeps an INTEGER positive. */
  function Pad(s: bytes): (r: bytes)
    requires s != []
  {
    if s[0] >= 0x80 then [0] + s else s
  }

  function Strip(s: bytes): (r: bytes)
    requires s != []
    ensures r != [] && |r| <= |s|
  {
    if |s| > 1 && s[0] == 0 then Strip(s[1..]) else s
  }

  function DerInt(v: nat): (r: bytes)
  {
    Tlv(TAG_INTEGER, Pad(MinBE(v)))
  }

  function DerMpint(s: bytes): (r: bytes)
    requires s != []
  {
    Tlv(TAG_INTEGER, Pad(Strip(s)))
  }

  // ---------------------------------------------------------- strict reader

  datatype Element = Element(tag: byte, content: bytes, rest: bytes)

  /** The first element of `s`: definite length in the fewest octets, complete content. */
  function ReadTlv(s: bytes): (r: Option<Element>)
    ensures r.Some? ==> |r.value.rest| < |s|
  {
    if |s| < 2 then None
    else if s[1] < 0x80 then Cut(s, 2, s[1])
    else
      var k := s[1] - 0x80;
      if k == 0 || k > 4 || |s| < 2 + k then None
      else
        var n := FromBE(s[2..2 + k]);
        if LenOctets(n) != k then None else Cut(s, 2 + k, n)
  }

  function Cut(s: bytes, hdr: nat, n: nat): (r: Option<Element>)
    requires 2 <= hdr <= |s|
    ensures r.Some? ==> |r.value.rest| < |s|
  {
    if hdr + n > |s| then None else Some(Element(s[0], s[hdr..hdr + n], s[hdr + n..]))
  }

  lemma LenFits(n: nat)
    requires n < TWO_32
    ensures n < Pow256(LenOctets(n)) || LenOctets(n) == 0
  {
    Pow256Values();
  }

  lemma ReadTlvOf(tag: byte, content: bytes, rest: bytes)
    requires |content| < TWO_32
    ensures ReadTlv(Tlv(tag, content) + rest) == Some(Element(tag, content, rest))
  {
    var s := Tlv(tag, content) + rest;
    var n := |content|;
    var k := LenOctets(n);
    assert s == [tag] + LenBytes(n) + (content + rest);
    assert s[2 + k..] == content + rest;
    assert s[2 + k..2 + k + n] == content && s[2 + k + n..] == rest;
    if k > 0 {
      assert s[2..2 + k] == ToBE(n, k);
      LenFits(n);
      FromToBE(n, k);
    }
  }

  /** A DER INTEGER that is not negative: nonempty, sign bit clear, no superfluous zero octet. */
  function ReadInt(c: bytes): (r: Option<nat>)
  {
    if c == [] || c[0] >= 0x80 || (|c| > 1 && c[0] == 0 && c[1] < 0x80) then None else Some(FromBE(c))
  }

  lemma {:induction false} MinBEValue(v: nat)
    ensures FromBE(MinBE(v)) == v
    ensures |MinBE(v)| > 1 ==> MinBE(v)[0] != 0
  {
    if v < 256 {
      assert MinBE(v)[..0] == [];
    } else {
      MinBEValue(v / 256);
      var m := MinBE(v / 256);
      assert MinBE(v)[..|m|] == m;
      if |m| == 1 {
        assert m[..0] == [];
        assert FromBE(m) == FromBE([]) * 256 + m[0];
      }
    }
  }

  /** Two octet strings of one value without superfluous leading zeros are the same. */
  lemma NoLeadingZeroUnique(a: bytes, b: bytes)
    requires a != [] && b != [] && FromBE(a) == FromBE(b)
    requires |a| > 1 ==> a[0] != 0
    requires |b| > 1 ==> b[0] != 0
    ensures a == b
  {
    if |a| < |b| {
      LongerIsLarger(a, b);
    } else if |b| < |a| {
      LongerIsLarger(b, a);
    }
    FromBEInjective(a, b);
  }

  lemma LongerIsLarger(a: bytes, b: bytes)
    requires 0 < |a| < |b| && b[0] != 0
    ensures FromBE(a) < FromBE(b)
  {
    FromBEBound(a);
    FromBELow(b);
    Pow256Monotone(|a|, |b| - 1);
  }

  lemma {:induction false} StripValue(s: bytes)
    requires s != []
    ensures FromBE(Strip(s)) == FromBE(s)
    ensures |Strip(s)| > 1 ==> Strip(s)[0] != 0
  {
    if |s| > 1 && s[0] == 0 {
      StripValue(s[1..]);
      FromBELeadingZero(s[1..]);
      assert s == [0] + s[1..];
    }
  }

  lemma PadReads(s: bytes)
    requires s != [] && (|s| > 1 ==> s[0] != 0)
    ensures ReadInt(Pad(s)) == Some(FromBE(s))
  {
    FromBELeadingZero(s);
  }

  /** An INTEGER written from a number reads back to it, and no other content does. */
  lemma IntRoundTripMinimal(v: nat, c: bytes)
    ensures ReadInt(Pad(MinBE(v))) == Some(v)
    ensures ReadInt(c) == Some(v) ==> c == Pad(MinBE(v))
  {
    MinBEValue(v);
    PadReads(MinBE(v));
    if ReadInt(c) == Some(v) {
      if |c| > 1 && c[0] == 0 {
        assert c == [0] + c[1..];
        FromBELeadingZero(c[1..]);
        NoLeadingZeroUnique(c[1..], MinBE(v));
      } else {
        NoLeadingZeroUnique(c, MinBE(v));
      }
    }
  }

  /** An INTEGER written from a magnitude reads back to its value. */
  lemma MpintRoundTrip(s: bytes)
    requires s != []
    ensures ReadInt(Pad(Strip(s))) == Some(FromBE(s))
  {
    StripValue(s);
    PadReads(Strip(s));
  }

  // ---------------------------------------------------------------- writers

  /**
   What every writer guarantees: `piece` ends where the pointer stood, nothing
   to the right of it or left of `start` changes, and it fails exactly when
   there is no room.
   */
  ghost predicate Wrote(s: bytes, s': bytes, start: nat, p: nat, ret: int, p': nat, piece: bytes)
  {
    && start <= p' <= p <= |s| == |s'|
    && s'[p..] == s[p..]
    && s'[..start] == s[..start]
    && (ret >= 0 <==> |piece| <= p - start)
    && (ret >= 0 ==> ret == |piece| && p' == p - |piece| && s'[p'..p] == piece && s'[..p'] == s[..p'])
    && (ret < 0 ==> ret == BUF_TOO_SMALL)
  }

  /** Two writers in a row: the second piece lands to the left of the first. */
  lemma WroteThen(s0: bytes, s1: bytes, s2: bytes, start: nat, p0: nat, r1: int, p1: nat, a: bytes,
                  r2: int, p2: nat, b: bytes)
    requires Wrote(s0, s1, start, p0, r1, p1, a) && r1 >= 0
    requires Wrote(s1, s2, start, p1, r2, p2, b)
    ensures Wrote(s0, s2, start, p0, if r2 < 0 then r2 else r1 + r2, p2, b + a)
  {
    assert s2[p0..] == s2[p1..][p0 - p1..];
    assert s1[p0..] == s1[p1..][p0 - p1..];
    assert s2[p1..p0] == s2[p1..][..p0 - p1];
    assert s1[p1..p0] == s1[p1..][..p0 - p1];
    if r2 >= 0 {
      assert s2[p2..p0] == s2[p2..p1] + s2[p1..p0];
      assert s1[..p2] == s1[..p1][..p2];
      assert s0[..p2] == s0[..p1][..p2];
    }
  }

  /** cantil_der_raw. */
  method Raw(buf: array<byte>, p: nat, start: nat, data: bytes) returns (ret: int, p': nat)
    requires start <= p <= buf.Length
    modifies buf
    ensures Wrote(old(buf[..]), buf[..], start, p, ret, p', data)
  {
    if |data| > p - start {
      return BUF_TOO_SMALL, p;
    }
    p' := p - |data|;
    for i := 0 to |data|
      modifies buf
      invariant buf[p'..p' + i] == data[..i]
      invariant buf[..p'] == old(buf[..p']) && buf[p..] == old(buf[p..])
    {
      buf[p' + i] := data[i];
      assert buf[p'..p' + i + 1] == buf[p'..p' + i] + [data[i]];
      assert data[..i + 1] == data[..i] + [data[i]];
    }
    assert data[..|data|] == data;
    assert buf[..start] == buf[..p'][..start];
    ret := |data|;
  }

  /** cantil_der_tag: one octet. */
  method Tag(buf: array<byte>, p: nat, start: nat, tag: byte) returns (ret: int, p': nat)
    requires start <= p <= buf.Length
    modifies buf
    ensures Wrote(old(buf[..]), buf[..], start, p, ret, p', [tag])
  {
    if p <= start {
      return BUF_TOO_SMALL, p;
    }
    buf[p - 1] := tag;
    return 1, p - 1;
  }

  /** The 0x8N octet and the `k` big-endian octets behind it, least significant written first. */
  method LongLength(buf: array<byte>, p: nat, start: nat, len: nat, k: nat) returns (ret: int, p': nat)
    requires start <= p <= buf.Length && 1 <= k <= 4
    modifies buf
    ensures Wrote(old(buf[..]), buf[..], start, p, ret, p', [0x80 + k] + ToBE(len, k))
  {
    if p - start < k + 1 {
      return BUF_TOO_SMALL, p;
    }
    p' := p;
    var v := len;
    for i := 0 to k
      modifies buf
      invariant p' == p - i && v >= 0
      invariant ToBE(len, k) == ToBE(v, k - i) + buf[p'..p]
      invariant buf[..p'] == old(buf[..p']) && buf[p..] == old(buf[p..])
    {
      p' := p' - 1;
      buf[p'] := v % 256;
      assert buf[p'..p] == [buf[p']] + buf[p' + 1..p];
      assert ToBE(v, k - i) == ToBE(v / 256, k - i - 1) + [v % 256];
      v := v / 256;
    }
    p' := p' - 1;
    buf[p'] := 0x80 + k;
    assert buf[p'..p] == [buf[p']] + buf[p' + 1..p];
    assert buf[..start] == buf[..p'][..start];
    ret := k + 1;
  }

  /** cantil_der_len. A length of 2^32 or more would lose its high octets. */
  method Length(buf: array<byte>, p: nat, start: nat, len: nat) returns (ret: int, p': nat)
    requires start <= p <= buf.Length
    modifies buf
    ensures Wrote(old(buf[..]), buf[..], start, p, ret, p', LenBytes(len))
  {
    if len < 0x80 {
      if p <= start {
        return BUF_TOO_SMALL, p;
      }
      buf[p - 1] := len;
      return 1, p - 1;
    }
    if len <= 0xFF {
      ret, p' := LongLength(buf, p, start, len, 1);
    } else if len <= 0xFFFF {
      ret, p' := LongLength(buf, p, start, len, 2);
    } else if len <= 0xFF_FFFF {
      ret, p' := LongLength(buf, p, start, len, 3);
    } else {
      ret, p' := LongLength(buf, p, start, len, 4);
    }
  }

  /** The pattern every writer ends with: a length and a tag in front of `content`. */
  method Wrap(buf: array<byte>, p: nat, start: nat, tag: byte, ghost p0: nat, ghost s0: bytes, ghost content: bytes,
              len: nat) returns (ret: int, p': nat)
    requires start <= p <= buf.Length
    requires Wrote(s0, buf[..], start, p0, len, p, content)
    modifies buf
    ensures Wrote(s0, buf[..], start, p0, ret, p', Tlv(tag, content))
  {
    ghost var s1 := buf[..];
    ret, p' := Length(buf, p, start, len);
    WroteThen(s0, s1, buf[..], start, p0, len, p, content, ret, p', LenBytes(len));
    assert Tlv(tag, content) == [tag] + (LenBytes(len) + content);
    if ret < 0 { return; }
    var total := len + ret;
    ghost var s2, p2 := buf[..], p';
    ret, p' := Tag(buf, p', start, tag);
    WroteThen(s0, s2, buf[..], start, p0, total, p2, LenBytes(len) + content, ret, p', [tag]);
    if ret >= 0 { ret := total + ret; }
  }

  /** cantil_der_int: least significant octet first, then the sign octet, length and tag. */
  method Int(buf: array<byte>, p: nat, start: nat, val: nat) returns (ret: int, p': nat)
    requires start <= p <= buf.Length
    modifies buf
    ensures Wrote(old(buf[..]), buf[..], start, p, ret, p', DerInt(val))
  {
    ghost var s0 := buf[..];
    var v, len, more := val, 0, true;
    p' := p;
    while more
      invariant start <= p' == p - len && len >= 0 && v >= 0
      invariant more ==> MinBE(val) == MinBE(v) + buf[p'..p]
      invariant !more ==> MinBE(val) == buf[p'..p]
      invariant buf[..p'] == s0[..p'] && buf[p..] == s0[p..]
      decreases more, v
    {
      if p' <= start {
        assert buf[..start] == buf[..p'][..start];
        return BUF_TOO_SMALL, p';
      }
      p' := p' - 1;
      buf[p'] := v % 256;
      assert buf[p'..p] == [v % 256] + buf[p' + 1..p];
      len := len + 1;
      v := v / 256;
      more := v > 0;
    }
    assert buf[..start] == buf[..p'][..start];
    ghost var content := MinBE(val);
    assert Wrote(s0, buf[..], start, p, len, p', content);
    assert buf[p'] == content[0];
    hide MinBE;
    if buf[p'] >= 0x80 {
      ghost var s1, p1 := buf[..], p';
      if p' <= start {
        return BUF_TOO_SMALL, p';
      }
      p' := p' - 1;
      buf[p'] := 0;
      assert Wrote(s1, buf[..], start, p1, 1, p', [0]);
      WroteThen(s0, s1, buf[..], start, p, len, p1, content, 1, p', [0]);
      content := [0] + content;
      len := len + 1;
    }
    ret, p' := Wrap(buf, p', start, TAG_INTEGER, p, s0, content, len);
  }

  /** The magnitude cantil_der_mpint takes from a pointer and a length: a length of zero counts as one. */
  function Magnitude(mem: bytes, len: nat): (r: bytes)
    requires len <= |mem| && mem != []
    ensures r != []
  {
    if len == 0 then mem[..1] else mem[..len]
  }

  /** cantil_der_mpint; `mem` is what the pointer can read, at least one octet. */
  method Mpint(buf: array<byte>, p: nat, start: nat, mem: bytes, len: nat) returns (ret: int, p': nat)
    requires start <= p <= buf.Length && len <= |mem| && mem != []
    modifies buf
    ensures Wrote(old(buf[..]), buf[..], start, p, ret, p', DerMpint(Magnitude(mem, len)))
  {
    ghost var s0 := buf[..];
    var val := Magnitude(mem, len);
    var off := 0;
    while |val| - off > 1 && val[off] == 0
      invariant off < |val| && Strip(val) == Strip(val[off..])
    {
      assert val[off..][1..] == val[off + 1..];
      off := off + 1;
    }
    var m := val[off..];
    assert Strip(val) == m;
    ret, p' := Raw(buf, p, start, m);
    if ret < 0 { return; }
    var ilen := ret;
    ghost var content := m;
    if m[0] >= 0x80 {
      ghost var s1, p1 := buf[..], p';
      ret, p' := Tag(buf, p', start, 0);
      WroteThen(s0, s1, buf[..], start, p, ilen, p1, m, ret, p', [0]);
      if ret < 0 { return; }
      content := [0] + m;
      ilen := ilen + ret;
    }
    ret, p' := Wrap(buf, p', start, TAG_INTEGER, p, s0, content, ilen);
  }

  /** cantil_der_oid. */
  method Oid(buf: array<byte>, p: nat, start: nat, oid: bytes) returns (ret: int, p': nat)
    requires start <= p <= buf.Length
    modifies buf
    ensures Wrote(old(buf[..]), buf[..], start, p, ret, p', Tlv(TAG_OID, oid))
  {
    ghost var s0 := buf[..];
    ret, p' := Raw(buf, p, start, oid);
    if ret < 0 { return; }
    ret, p' := Wrap(buf, p', start, TAG_OID, p, s0, oid, |oid|);
  }

  // ------------------------------------------------------ the measuring reader

  /** The length of the element at the front of `p`; `w` is the size of size_t in octets. */
  function Measure(p: bytes, tag: byte, w: nat): (r: Option<nat>)
    ensures r.Some? ==> 2 <= r.value <= |p|
  {
    if |p| < 2 || p[0] != tag then None
    else if p[1] < 0x80 then (if p[1] > |p| - 2 then None else Some(2 + p[1]))
    else
      var n := p[1] - 0x80;
      if n == 0 || n > w || |p| < 2 + n then None
      else
        var len := FromBE(p[2..2 + n]);
        if len > |p| - (2 + n) then None else Some(2 + n + len)
  }

  /** cantil_der_tlv_len: the length octets are shifted together by a loop. */
  method TlvLen(p: bytes, tag: byte, w: nat) returns (r: Option<nat>)
    ensures r == Measure(p, tag, w)
  {
    if |p| < 2 || p[0] != tag {
      return None;
    }
    var hdr := 2;
    var len: nat := p[1];
    if len >= 0x80 {
      var n := len - 0x80;
      if n == 0 || n > w || |p| < 2 + n {
        return None;
      }
      len := 0;
      for i := 0 to n
        invariant len == FromBE(p[2..2 + i])
      {
        assert p[2..2 + i + 1][..i] == p[2..2 + i];
        len := len * 256 + p[2 + i];
      }
      hdr := 2 + n;
    }
    if len > |p| - hdr {
      return None;
    }
    return Some(hdr + len);
  }

  /** Anything the writer builds is measured exactly. */
  lemma MeasureOf(tag: byte, content: bytes, rest: bytes, w: nat)
    requires |content| < TWO_32 && w >= 4
    ensures Measure(Tlv(tag, content) + rest, tag, w) == Some(|Tlv(tag, content)|)
  {
    var s := Tlv(tag, content) + rest;
    var n, k := |content|, LenOctets(|content|);
    assert s == [tag] + LenBytes(n) + (content + rest);
    if k > 0 {
      assert s[2..2 + k] == ToBE(n, k);
      LenFits(n);
      FromToBE(n, k);
    }
  }

  /** Whatever the strict reader accepts, the measuring reader accepts with the same extent. */
  lemma StrictIsMeasured(s: bytes, w: nat)
    requires ReadTlv(s).Some? && w >= 4
    ensures Measure(s, s[0], w) == Some(|s| - |ReadTlv(s).value.rest|)
  {
  }

  /** `len` as X.690 writes lengths, minimal or not: one octet below 128, or a count of octets and then those. */
  predicate LengthOctets(hdr: bytes, len: nat, maxOctets: nat)
  {
    || (|hdr| == 1 && hdr[0] == len && len < 0x80)
    || (2 <= |hdr| <= 1 + maxOctets && hdr[0] == 0x7F + |hdr| && FromBE(hdr[1..]) == len)
  }

  /** What is measured is an element under that tag, whole, its length written in at most `w` octets; and any such is. */
  lemma MeasureExact(p: bytes, tag: byte, w: nat, n: nat)
    requires w < 0x80
    ensures Measure(p, tag, w) == Some(n) <==>
            exists hdr, content :: && LengthOctets(hdr, |content|, w) && n == 1 + |hdr| + |content| <= |p|
                                   && p[..n] == [tag] + hdr + content
  {
    hide Measure, LengthOctets;
    if Measure(p, tag, w) == Some(n) {
      var hdr, content := MeasureForth(p, tag, w, n);
    }
    if hdr, content :| && LengthOctets(hdr, |content|, w) && n == 1 + |hdr| + |content| <= |p|
                       && p[..n] == [tag] + hdr + content {
      MeasureBack(p, tag, w, hdr, content);
    }
  }

  lemma MeasureForth(p: bytes, tag: byte, w: nat, n: nat) returns (hdr: bytes, content: bytes)
    requires w < 0x80 && Measure(p, tag, w) == Some(n)
    ensures LengthOctets(hdr, |content|, w) && n == 1 + |hdr| + |content| <= |p| && p[..n] == [tag] + hdr + content
  {
    var k := if p[1] < 0x80 then 0 else p[1] - 0x80;
    hdr, content := p[1..2 + k], p[2 + k..n];
    assert hdr[1..] == p[2..2 + k];
  }

  lemma MeasureBack(p: bytes, tag: byte, w: nat, hdr: bytes, content: bytes)
    requires LengthOctets(hdr, |content|, w) && w < 0x80 && 1 + |hdr| + |content| <= |p|
    requires p[..1 + |hdr| + |content|] == [tag] + hdr + content
    ensures Measure(p, tag, w) == Some(1 + |hdr| + |content|)
  {
    var q := p[..1 + |hdr| + |content|];
    assert p[0] == q[0] == tag && p[1] == q[1] == hdr[0];
    if |hdr| >= 2 {
      assert p[2..1 + |hdr|] == q[2..1 + |hdr|] == hdr[1..];
    }
  }

  // -------------------------------------------------- splitting a chain blob

  /** A way of measuring the first element of a blob. */
  type Measurer = bytes -> Option<nat>

  function SequenceMeasurer(w: nat): (m: Measurer)
  {
    (b: bytes) => Measure(b, TAG_SEQUENCE, w)
  }

  /** At most `max` leading elements of a concatenation, up to the first one that does not measure. */
  function Split(blob: bytes, max: nat, m: Measurer): (parts: seq<bytes>)
    ensures |parts| <= max
    decreases max
  {
    if |blob| <= 1 || max == 0 then []
    else
      match m(blob)
      case None => []
      case Some(n) => if n > |blob| then [] else [blob[..n]] + Split(blob[n..], max - 1, m)
  }

  /** The parts stand in the blob in order, and it is left off only at the end, at the limit, or where nothing measures. */
  lemma {:induction false} SplitExact(blob: bytes, max: nat, m: Measurer)
    ensures var parts := Split(blob, max, m);
            && |Concat(parts)| <= |blob| && blob[..|Concat(parts)|] == Concat(parts)
            && var rest := blob[|Concat(parts)|..];
               |rest| <= 1 || |parts| == max || m(rest).None? || m(rest).value > |rest|
    decreases max
  {
    if |blob| > 1 && max > 0 && m(blob).Some? && m(blob).value <= |blob| {
      var n := m(blob).value;
      SplitExact(blob[n..], max - 1, m);
      var tail := Split(blob[n..], max - 1, m);
      var parts := Split(blob, max, m);
      assert parts == [blob[..n]] + tail && parts[1..] == tail;
      assert Concat(parts) == blob[..n] + Concat(tail);
      assert blob[|Concat(parts)|..] == blob[n..][|Concat(tail)|..];
    }
  }

  lemma SplitAdvance(blob: bytes, off: nat, n: nat, max: nat, parts: seq<bytes>, m: Measurer)
    requires off + 1 < |blob| && |parts| < max && off + n <= |blob| && m(blob[off..]) == Some(n)
    ensures parts + Split(blob[off..], max - |parts|, m)
         == parts + [blob[off..off + n]] + Split(blob[off + n..], max - |parts| - 1, m)
  {
    assert blob[off..][n..] == blob[off + n..];
    assert blob[off..][..n] == blob[off..off + n];
  }

  /** The loop that splits a stored issuer chain into certificates, over the reader it is given. */
  method SplitLoop(blob: bytes, max: nat, m: Measurer) returns (parts: seq<bytes>)
    ensures parts == Split(blob, max, m)
  {
    parts := [];
    var off := 0;
    assert blob[0..] == blob;
    while off + 1 < |blob| && |parts| < max
      invariant 0 <= off <= |blob| && |parts| <= max
      invariant Split(blob, max, m) == parts + Split(blob[off..], max - |parts|, m)
      decreases max - |parts|
    {
      var n := m(blob[off..]);
      if n.None? || off + n.value > |blob| {
        assert Split(blob[off..], max - |parts|, m) == [];
        return;
      }
      SplitAdvance(blob, off, n.value, max, parts, m);
      parts := parts + [blob[off..off + n.value]];
      off := off + n.value;
    }
    assert Split(blob[off..], max - |parts|, m) == [];
  }

  ghost predicate IsSequence(part: bytes)
  {
    exists c: bytes :: |c| < TWO_32 && part == Tlv(TAG_SEQUENCE, c)
  }

  /** `m` finds the end of `part` whatever follows it. */
  ghost predicate Measures(m: Measurer, part: bytes)
  {
    |part| >= 2 && forall rest: bytes :: m(part + rest) == Some(|part|)
  }

  lemma SequenceMeasures(part: bytes, w: nat)
    requires IsSequence(part) && w >= 4
    ensures Measures(SequenceMeasurer(w), part)
  {
    var c: bytes :| |c| < TWO_32 && part == Tlv(TAG_SEQUENCE, c);
    forall rest: bytes
      ensures SequenceMeasurer(w)(part + rest) == Some(|part|)
    {
      MeasureOf(TAG_SEQUENCE, c, rest, w);
    }
  }

  /** Concatenated elements split back into themselves, as far as the limit allows. */
  lemma {:induction false} SplitMeasured(parts: seq<bytes>, max: nat, m: Measurer)
    requires forall i :: 0 <= i < |parts| ==> Measures(m, parts[i])
    ensures Split(Concat(parts), max, m) == parts[..if |parts| <= max then |parts| else max]
    decreases max
  {
    if parts != [] && max > 0 {
      var rest := Concat(parts[1..]);
      assert Measures(m, parts[0]);
      assert m(parts[0] + rest) == Some(|parts[0]|);
      assert (parts[0] + rest)[..|parts[0]|] == parts[0] && (parts[0] + rest)[|parts[0]|..] == rest;
      SplitMeasured(parts[1..], max - 1, m);
      var n := if |parts| <= max then |parts| else max;
      assert parts[..n] == [parts[0]] + parts[1..][..n - 1];
    }
  }

  /** A concatenation of SEQUENCEs splits back into its parts. */
  lemma SplitConcat(parts: seq<bytes>, max: nat, w: nat)
    requires forall i :: 0 <= i < |parts| ==> IsSequence(parts[i])
    requires w >= 4
    ensures Split(Concat(parts), max, SequenceMeasurer(w)) == parts[..if |parts| <= max then |parts| else max]
  {
    forall i | 0 <= i < |parts|
      ensures Measures(SequenceMeasurer(w), parts[i])
    {
      SequenceMeasures(parts[i], w);
    }
    SplitMeasured(parts, max, SequenceMeasurer(w));
  }
}
