/** The CBOR emitters: they write into a caller's buffer and advance an offset. */
module CborEmit {
  import opened Octets
  import opened Cbor

  /** The emitters' error return. */
  const ENOMEM := -12

  /** What one emitter leaves behind: `piece` written at `off`, or nothing and an error. */
  ghost predicate Emitted(old_: bytes, new_: bytes, max: nat, off: nat, piece: bytes, rc: int, off': nat)
  {
    && |new_| == |old_|
    && max <= |old_|
    && (rc == 0 <==> off + |piece| <= max)
    && (rc == 0 ==> off' == off + |piece| && new_ == Splice(old_, off, piece))
    && (rc != 0 ==> rc == ENOMEM && off' == off && new_ == old_)
  }

  /** As Emitted, but a failing emitter may have advanced past a head it did write. */
  ghost predicate EmittedParts(old_: bytes, new_: bytes, max: nat, off: nat, piece: bytes, rc: int, off': nat)
  {
    && |new_| == |old_|
    && max <= |old_|
    && (rc == 0 <==> off + |piece| <= max)
    && (rc == 0 ==> off' == off + |piece| && new_ == Splice(old_, off, piece))
    && (rc != 0 ==> rc == ENOMEM && (off <= |old_| ==> new_[..off] == old_[..off]) && new_[max..] == old_[max..])
  }

  lemma ToBEOne(v: nat)
    ensures ToBE(v, 1) == [v % 256]
  {
    assert ToBE(v, 1) == ToBE(v / 256, 0) + [v % 256];
  }

  lemma ToBETwo(v: nat)
    ensures ToBE(v, 2) == [v / 0x100 % 256, v % 256]
  {
    ToBEOne(v / 256);
  }

  lemma ToBEFour(v: nat)
    ensures ToBE(v, 4) == [v / 0x100_0000 % 256, v / 0x1_0000 % 256, v / 0x100 % 256, v % 256]
  {
    ToBETwo(v / 0x1_0000);
    assert ToBE(v / 0x100, 3) == ToBE(v / 0x100 / 256, 2) + [v / 0x100 % 256];
    assert v / 0x100 / 256 == v / 0x1_0000;
    assert v / 0x1_0000 / 0x100 == v / 0x100_0000;
  }

  /** `v >> 8 * k`. */
  function Shr8(v: nat, k: nat): (r: nat)
  {
    if k == 0 then v else Shr8(v / 256, k - 1)
  }

  lemma {:induction false} ToBEIndex(v: nat, n: nat, i: nat)
    requires i < n
    ensures ToBE(v, n)[i] == Shr8(v, n - 1 - i) % 256
  {
    if i < n - 1 {
      ToBEIndex(v / 256, n - 1, i);
    }
  }

  lemma IsSplice(s: bytes, s': bytes, off: nat, data: bytes)
    requires |s'| == |s| && off + |data| <= |s|
    requires s'[..off] == s[..off] && s'[off..off + |data|] == data && s'[off + |data|..] == s[off + |data|..]
    ensures s' == Splice(s, off, data)
  {
  }

  /** The nine-octet head, argument written by a counting loop. */
  method PutWideHead(buf: array<byte>, off: nat, major: byte, val: nat)
    requires off + 9 <= buf.Length && IsMajor(major) && TWO_32 <= val < TWO_64
    modifies buf
    ensures buf[..] == Splice(old(buf[..]), off, Head(major, val))
  {
    ghost var h := Head(major, val);
    buf[off] := major + 27;
    for i := 0 to 8
      modifies buf
      invariant buf[off] == major + 27
      invariant buf[off + 1..off + 1 + i] == h[1..1 + i]
      invariant buf[..off] == old(buf[..off]) && buf[off + 9..] == old(buf[off + 9..])
    {
      ToBEIndex(val, 8, i);
      buf[off + 1 + i] := Shr8(val, 7 - i) % 256;
      assert buf[off + 1..off + 1 + i + 1] == buf[off + 1..off + 1 + i] + [buf[off + 1 + i]];
    }
    assert buf[off..off + 9] == [buf[off]] + buf[off + 1..off + 9];
    IsSplice(old(buf[..]), buf[..], off, h);
  }

  /** The heads with at most two argument octets. */
  method PutNarrowHead(buf: array<byte>, off: nat, major: byte, val: nat)
    requires IsMajor(major) && val < 0x1_0000 && off + |Head(major, val)| <= buf.Length
    modifies buf
    ensures buf[..] == Splice(old(buf[..]), off, Head(major, val))
  {
    if val < 24 {
      buf[off] := major + val;
      assert ToBE(val, 0) == [];
    } else if val < 0x100 {
      buf[off] := major + 24;
      buf[off + 1] := val;
      ToBEOne(val);
    } else {
      buf[off] := major + 25;
      buf[off + 1] := val / 0x100;
      buf[off + 2] := val % 0x100;
      ToBETwo(val);
    }
    IsSplice(old(buf[..]), buf[..], off, Head(major, val));
  }

  method PutFourHead(buf: array<byte>, off: nat, major: byte, val: nat)
    requires off + 5 <= buf.Length && IsMajor(major) && 0x1_0000 <= val < TWO_32
    modifies buf
    ensures buf[..] == Splice(old(buf[..]), off, Head(major, val))
  {
    buf[off] := major + 26;
    buf[off + 1] := val / 0x100_0000;
    buf[off + 2] := val / 0x1_0000 % 0x100;
    buf[off + 3] := val / 0x100 % 0x100;
    buf[off + 4] := val % 0x100;
    ToBEFour(val);
    IsSplice(old(buf[..]), buf[..], off, Head(major, val));
  }

  /** emit_head. */
  method EmitHead(buf: array<byte>, max: nat, off: nat, major: byte, val: nat) returns (rc: int, off': nat)
    requires max <= buf.Length && IsMajor(major) && val < TWO_64
    modifies buf
    ensures Emitted(old(buf[..]), buf[..], max, off, Head(major, val), rc, off')
  {
    var need := if val < 24 then 1 else if val < 0x100 then 2 else if val < 0x1_0000 then 3
                else if val < TWO_32 then 5 else 9;
    if off + need > max {
      return ENOMEM, off;
    }
    if val < 0x1_0000 {
      PutNarrowHead(buf, off, major, val);
    } else if val < TWO_32 {
      PutFourHead(buf, off, major, val);
    } else {
      PutWideHead(buf, off, major, val);
    }
    return 0, off + need;
  }

  /** memcpy(buf + off, data, |data|). */
  method CopyIn(buf: array<byte>, off: nat, data: bytes)
    requires off + |data| <= buf.Length
    modifies buf
    ensures buf[..] == Splice(old(buf[..]), off, data)
  {
    for i := 0 to |data|
      modifies buf
      invariant forall j :: 0 <= j < i ==> buf[off + j] == data[j]
      invariant buf[..off] == old(buf[..off]) && buf[off + |data|..] == old(buf[off + |data|..])
    {
      buf[off + i] := data[i];
    }
    assert buf[off..off + |data|] == data;
    assert buf[..] == buf[..off] + buf[off..off + |data|] + buf[off + |data|..];
  }

  /** emit_tstr and emit_bstr: the head, a second bound test, then the octets. */
  method EmitStr(buf: array<byte>, max: nat, off: nat, text: bool, s: bytes) returns (rc: int, off': nat)
    requires max <= buf.Length && |s| < TWO_64
    modifies buf
    ensures EmittedParts(old(buf[..]), buf[..], max, off, Head(if text then MT_TSTR else MT_BSTR, |s|) + s, rc, off')
  {
    ghost var before := buf[..];
    var m := if text then MT_TSTR else MT_BSTR;
    rc, off' := EmitHead(buf, max, off, m, |s|);
    if rc != 0 {
      return;
    }
    if off' + |s| > max {
      return ENOMEM, off';
    }
    CopyIn(buf, off', s);
    SpliceSplice(before, off, Head(m, |s|), s);
    off' := off' + |s|;
  }

  // ------------------------------------------------------ the two map shapes

  const KEY_CMD: bytes := [0x63, 0x6D, 0x64]
  const KEY_SEQ: bytes := [0x73, 0x65, 0x71]
  const KEY_ERR: bytes := [0x65, 0x72, 0x72]
  const KEY_DATA: bytes := [0x64, 0x61, 0x74, 0x61]

  function TStr(s: bytes): (r: bytes)
    requires |s| < TWO_64
  {
    Head(MT_TSTR, |s|) + s
  }

  function BStr(s: bytes): (r: bytes)
    requires |s| < TWO_64
  {
    Head(MT_BSTR, |s|) + s
  }

  /** The octets of the two- or three-entry map. */
  function MapBytes(k1: bytes, v1: nat, k2: bytes, v2: nat, data: bytes): (r: bytes)
    requires |k1| < TWO_32 && |k2| < TWO_32 && v1 < TWO_32 && v2 < TWO_32 && |data| < TWO_64
  {
    FixedBytes(if data == [] then 2 else 3, k1, v1, k2, v2)
    + (if data == [] then [] else TStr(KEY_DATA) + BStr(data))
  }

  /** A pair of emitters in a row behaves as one. */
  lemma EmitSeq(s0: bytes, s1: bytes, s2: bytes, max: nat, off: nat, a: bytes, b: bytes, rc: int, off': nat)
    requires max <= |s0| && off + |a| <= max && s1 == Splice(s0, off, a)
    requires EmittedParts(s1, s2, max, off + |a|, b, rc, off')
    ensures EmittedParts(s0, s2, max, off, a + b, rc, off')
  {
    if rc == 0 {
      SpliceSplice(s0, off, a, b);
    } else {
      assert s2[..off] == s2[..off + |a|][..off];
    }
  }

  method EmitIntEntry(buf: array<byte>, max: nat, off: nat, key: bytes, v: nat) returns (rc: int, off': nat)
    requires max <= buf.Length && |key| < TWO_32 && v < TWO_32
    modifies buf
    ensures EmittedParts(old(buf[..]), buf[..], max, off, TStr(key) + Head(MT_UINT, v), rc, off')
  {
    ghost var s0 := buf[..];
    rc, off' := EmitStr(buf, max, off, true, key);
    if rc != 0 { return; }
    ghost var s1 := buf[..];
    rc, off' := EmitHead(buf, max, off', MT_UINT, v);
    EmitSeq(s0, s1, buf[..], max, off, TStr(key), Head(MT_UINT, v), rc, off');
  }

  method EmitDataEntry(buf: array<byte>, max: nat, off: nat, data: bytes) returns (rc: int, off': nat)
    requires max <= buf.Length && |data| < TWO_64
    modifies buf
    ensures EmittedParts(old(buf[..]), buf[..], max, off, TStr(KEY_DATA) + BStr(data), rc, off')
  {
    ghost var s0 := buf[..];
    rc, off' := EmitStr(buf, max, off, true, KEY_DATA);
    if rc != 0 { return; }
    ghost var s1 := buf[..];
    rc, off' := EmitStr(buf, max, off', false, data);
    EmitSeq(s0, s1, buf[..], max, off, TStr(KEY_DATA), BStr(data), rc, off');
  }

  function FixedBytes(n: nat, k1: bytes, v1: nat, k2: bytes, v2: nat): (r: bytes)
    requires |k1| < TWO_32 && |k2| < TWO_32 && v1 < TWO_32 && v2 < TWO_32 && n < 24
  {
    Head(MT_MAP, n) + (TStr(k1) + Head(MT_UINT, v1)) + (TStr(k2) + Head(MT_UINT, v2))
  }

  method EmitFixed(buf: array<byte>, max: nat, n: nat, k1: bytes, v1: nat, k2: bytes, v2: nat)
    returns (rc: int, off': nat)
    requires max <= buf.Length && |k1| < TWO_32 && |k2| < TWO_32 && v1 < TWO_32 && v2 < TWO_32 && n < 24
    modifies buf
    ensures EmittedParts(old(buf[..]), buf[..], max, 0, FixedBytes(n, k1, v1, k2, v2), rc, off')
  {
    hide Head, TStr, Splice;
    ghost var s0 := buf[..];
    ghost var e1 := TStr(k1) + Head(MT_UINT, v1);
    ghost var e2 := TStr(k2) + Head(MT_UINT, v2);
    rc, off' := EmitHead(buf, max, 0, MT_MAP, n);
    if rc != 0 { return; }
    ghost var s1 := buf[..];
    rc, off' := EmitIntEntry(buf, max, off', k1, v1);
    EmitSeq(s0, s1, buf[..], max, 0, Head(MT_MAP, n), e1, rc, off');
    if rc != 0 { return; }
    s1 := buf[..];
    rc, off' := EmitIntEntry(buf, max, off', k2, v2);
    EmitSeq(s0, s1, buf[..], max, 0, Head(MT_MAP, n) + e1, e2, rc, off');
  }

  /**
   encode_map: writes the map from the start of the buffer and returns its
   length, or ENOMEM exactly when it does not fit.
   */
  method EncodeMap(buf: array<byte>, max: nat, k1: bytes, v1: nat, k2: bytes, v2: nat, data: bytes)
    returns (rc: int)
    requires max <= buf.Length && |k1| < TWO_32 && |k2| < TWO_32 && v1 < TWO_32 && v2 < TWO_32 && |data| < TWO_64
    modifies buf
    ensures var m := MapBytes(k1, v1, k2, v2, data);
            if |m| <= max then rc == |m| && buf[..] == Splice(old(buf[..]), 0, m) else rc == ENOMEM
    ensures buf[max..] == old(buf[max..])
  {
    ghost var s0 := buf[..];
    var n := if |data| > 0 then 3 else 2;
    var e, off := EmitFixed(buf, max, n, k1, v1, k2, v2);
    if e != 0 { return e; }
    if |data| > 0 {
      ghost var s1 := buf[..];
      e, off := EmitDataEntry(buf, max, off, data);
      EmitSeq(s0, s1, buf[..], max, 0, FixedBytes(n, k1, v1, k2, v2), TStr(KEY_DATA) + BStr(data), e, off);
      if e != 0 { return e; }
    }
    return off;
  }
}
