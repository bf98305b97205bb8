/**
 The wire CBOR codec: heads, item skipping and the two map shapes of the
 request/response protocol. The grammar of section 3 of RFC 8949, restricted
 to unsigned integers, strings, arrays and maps, is the reference against
 which the code is proved.
 */
module Cbor {
  import opened Octets

  const MT_UINT: byte := 0x00
  const MT_BSTR: byte := 0x40
  const MT_TSTR: byte := 0x60
  const MT_ARRAY: byte := 0x80
  const MT_MAP: byte := 0xA0

  // ---------------------------------------------------------------- grammar

  /** How many octets of argument follow the initial byte. */
  datatype Width = Immediate | One | Two | Four | Eight

  function Octs(w: Width): (n: nat)
  {
    match w case Immediate => 0 case One => 1 case Two => 2 case Four => 4 case Eight => 8
  }

  predicate Fits(w: Width, v: nat)
  {
    if w.Immediate? then v < 24 else v < Pow256(Octs(w))
  }

  function Info(w: Width, v: nat): (ai: nat)
    requires Fits(w, v)
    ensures ai < 28
  {
    match w case Immediate => v case One => 24 case Two => 25 case Four => 26 case Eight => 27
  }

  predicate IsMajor(m: int)
  {
    0 <= m < 256 && m % 32 == 0
  }

  /** A head: major type, then the argument in width `w`. */
  function HeadBytes(m: byte, w: Width, v: nat): (h: bytes)
    requires IsMajor(m) && Fits(w, v)
    ensures |h| == 1 + Octs(w)
  {
    [m + Info(w, v)] + ToBE(v, Octs(w))
  }

  function Shortest(v: nat): (w: Width)
  {
    if v < 24 then Immediate
    else if v < 0x100 then One
    else if v < 0x1_0000 then Two
    else if v < TWO_32 then Four
    else Eight
  }

  lemma ShortestFits(v: nat)
    requires v < TWO_64
    ensures Fits(Shortest(v), v)
    ensures forall w :: Fits(w, v) ==> Octs(Shortest(v)) <= Octs(w)
  {
    Pow256Values();
  }

  /** The head that section 4.2.1 of RFC 8949 prefers. */
  function Head(m: byte, v: nat): (h: bytes)
    requires IsMajor(m) && v < TWO_64
    ensures 1 <= |h| <= 9
  {
    ShortestFits(v);
    HeadBytes(m, Shortest(v), v)
  }

  /** One data item; a map holds its keys and values alternately. */
  datatype Item =
    | UInt(w: Width, v: nat)
    | Str(text: bool, w: Width, s: bytes)
    | Coll(isMap: bool, w: Width, items: seq<Item>)

  predicate WellFormed(it: Item)
    decreases it, 0
  {
    match it
    case UInt(w, v) => Fits(w, v)
    case Str(_, w, s) => Fits(w, |s|)
    case Coll(isMap, w, items) =>
      && (isMap ==> |items| % 2 == 0)
      && Fits(w, if isMap then |items| / 2 else |items|)
      && AllWellFormed(items)
  }

  predicate AllWellFormed(items: seq<Item>)
    decreases items, 1
  {
    items == [] || (WellFormed(items[0]) && AllWellFormed(items[1..]))
  }

  function Enc(it: Item): (r: bytes)
    requires WellFormed(it)
    ensures |r| >= 1
    decreases it, 0
  {
    match it
    case UInt(w, v) => HeadBytes(MT_UINT, w, v)
    case Str(text, w, s) => HeadBytes(if text then MT_TSTR else MT_BSTR, w, |s|) + s
    case Coll(isMap, w, items) =>
      HeadBytes(if isMap then MT_MAP else MT_ARRAY, w, if isMap then |items| / 2 else |items|) + EncAll(items)
  }

  function EncAll(items: seq<Item>): (r: bytes)
    requires AllWellFormed(items)
    decreases items, 1
  {
    if items == [] then [] else Enc(items[0]) + EncAll(items[1..])
  }

  /** `piece` stands in `buf` at `off`. */
  predicate At(buf: bytes, off: nat, piece: bytes)
  {
    off + |piece| <= |buf| && buf[off..off + |piece|] == piece
  }

  lemma AtSplit(buf: bytes, off: nat, a: bytes, b: bytes)
    ensures At(buf, off, a + b) <==> At(buf, off, a) && At(buf, off + |a|, b)
  {
    if At(buf, off, a + b) {
      var ab := buf[off..off + |a| + |b|];
      assert ab[..|a|] == a && ab[|a|..] == b;
      assert buf[off..off + |a|] == ab[..|a|];
      assert buf[off + |a|..off + |a| + |b|] == ab[|a|..];
    }
    if At(buf, off, a) && At(buf, off + |a|, b) {
      assert buf[off..off + |a| + |b|] == buf[off..off + |a|] + buf[off + |a|..off + |a| + |b|];
    }
  }

  lemma AtMiddle(pre: bytes, piece: bytes, rest: bytes)
    ensures At(pre + piece + rest, |pre|, piece)
  {
  }

  // ----------------------------------------------------------- reading heads

  datatype HeadRead = NoHead | HeadAt(major: byte, val: nat, next: nat)

  /** The head at `off`, if a complete one with a supported argument stands there. */
  function ReadHead(buf: bytes, off: nat): (r: HeadRead)
    ensures r.HeadAt? ==> off < r.next <= |buf| && r.val < TWO_64 && IsMajor(r.major)
  {
    if off >= |buf| then NoHead
    else
      var major := buf[off] / 32 * 32;
      var ai := buf[off] % 32;
      if ai < 24 then HeadAt(major, ai, off + 1)
      else if ai >= 28 then NoHead
      else
        var n := if ai == 24 then 1 else if ai == 25 then 2 else if ai == 26 then 4 else 8;
        if off + 1 + n > |buf| then NoHead
        else
          FromBEBound(buf[off + 1..off + 1 + n]);
          Pow256Values();
          HeadAt(major, FromBE(buf[off + 1..off + 1 + n]), off + 1 + n)
  }

  lemma FromBETwo(s: bytes)
    requires |s| == 2
    ensures FromBE(s) == s[0] as int * 256 + s[1]
  {
    assert s[..1] == [s[0]];
    assert FromBE([s[0]]) == FromBE([]) * 256 + s[0];
  }

  lemma FromBEFour(s: bytes)
    requires |s| == 4
    ensures FromBE(s) == s[0] as int * 0x100_0000 + s[1] as int * 0x1_0000 + s[2] as int * 0x100 + s[3]
  {
    FromBETwo(s[..2]);
    assert s[..3][..2] == s[..2];
    assert FromBE(s[..3]) == FromBE(s[..2]) * 256 + s[2];
  }

  /** read_head: shifts the argument together octet by octet. */
  method ReadHeadOctets(buf: bytes, off: nat) returns (r: HeadRead)
    ensures r == ReadHead(buf, off)
  {
    if off >= |buf| {
      return NoHead;
    }
    var ib := buf[off];
    var major := ib / 32 * 32;
    var ai := ib % 32;
    var p := off + 1;
    if ai < 24 {
      return HeadAt(major, ai, p);
    } else if ai == 24 {
      if p + 1 > |buf| { return NoHead; }
      assert buf[p..p + 1] == [buf[p]];
      assert FromBE([buf[p]]) == FromBE([]) * 256 + buf[p];
      return HeadAt(major, buf[p], p + 1);
    } else if ai == 25 {
      if p + 2 > |buf| { return NoHead; }
      FromBETwo(buf[p..p + 2]);
      return HeadAt(major, buf[p] as int * 256 + buf[p + 1], p + 2);
    } else if ai == 26 {
      if p + 4 > |buf| { return NoHead; }
      FromBEFour(buf[p..p + 4]);
      return HeadAt(
          major,
          buf[p] as int * 0x100_0000 + buf[p + 1] as int * 0x1_0000 + buf[p + 2] as int * 0x100 + buf[p + 3],
          p + 4);
    } else if ai == 27 {
      if p + 8 > |buf| { return NoHead; }
      var v: nat := 0;
      for i := 0 to 8
        invariant v == FromBE(buf[p..p + i])
      {
        assert buf[p..p + i + 1][..i] == buf[p..p + i];
        v := v * 256 + buf[p + i];
      }
      return HeadAt(major, v, p + 8);
    } else {
      return NoHead;
    }
  }

  /** A well-formed head reads back to its major type and argument. */
  lemma ReadHeadOf(buf: bytes, off: nat, m: byte, w: Width, v: nat)
    requires IsMajor(m) && Fits(w, v) && At(buf, off, HeadBytes(m, w, v))
    ensures ReadHead(buf, off) == HeadAt(m, v, off + 1 + Octs(w))
  {
    var h := HeadBytes(m, w, v);
    assert buf[off] == buf[off..off + |h|][0] == h[0];
    assert buf[off + 1..off + 1 + Octs(w)] == buf[off..off + |h|][1..] == ToBE(v, Octs(w));
    if !w.Immediate? {
      FromToBE(v, Octs(w));
    }
  }

  /** Whatever reads as a head is a well-formed head, and never shorter than the preferred one. */
  lemma ReadHeadInv(buf: bytes, off: nat) returns (w: Width)
    requires ReadHead(buf, off).HeadAt?
    ensures var r := ReadHead(buf, off);
            && Fits(w, r.val)
            && At(buf, off, HeadBytes(r.major, w, r.val))
            && r.next == off + 1 + Octs(w)
            && off + |Head(r.major, r.val)| <= r.next
  {
    var r := ReadHead(buf, off);
    var ai := buf[off] % 32;
    w := if ai < 24 then Immediate else if ai == 24 then One else if ai == 25 then Two
         else if ai == 26 then Four else Eight;
    var arg := buf[off + 1..off + 1 + Octs(w)];
    FromBEBound(arg);
    ToFromBE(arg);
    assert r.val == if w.Immediate? then ai else FromBE(arg);
    hide ReadHead, FromBE;
    assert buf[off] == r.major + ai;
    assert buf[off..r.next] == [buf[off]] + arg;
    ShortestFits(r.val);
  }

  /** read_head inverts emit_head, and nothing shorter reads to the same value. */
  lemma HeadRoundTripShortest(m: byte, v: nat, rest: bytes, other: bytes)
    requires IsMajor(m) && v < TWO_64
    ensures ReadHead(Head(m, v) + rest, 0) == HeadAt(m, v, |Head(m, v)|)
    ensures ReadHead(other, 0).HeadAt? && ReadHead(other, 0).major == m && ReadHead(other, 0).val == v
            ==> |other| >= |Head(m, v)|
  {
    ShortestFits(v);
    AtMiddle([], Head(m, v), rest);
    assert [] + Head(m, v) + rest == Head(m, v) + rest;
    ReadHeadOf(Head(m, v) + rest, 0, m, Shortest(v), v);
    if ReadHead(other, 0).HeadAt? {
      var w := ReadHeadInv(other, 0);
    }
  }

  // ----------------------------------------------------------- skipping

  /**
   Outcome of skipping an item with a bound test that tells the truth.
   `SumWraps` marks where the 64-bit test of the code would not: a string head
   whose claimed length takes the sum past its end. What the code does from
   there on is in CborWritten.
   */
  datatype Skip = Skipped(next: nat) | Malformed | SumWraps

  function SkipStr(len: nat, off: nat, v: nat): (r: Skip)
    requires off <= len
    ensures r.Skipped? ==> off <= r.next <= len
  {
    if off + v >= TWO_64 then SumWraps
    else if off + v > len then Malformed
    else Skipped(off + v)
  }

  function SkipItem(buf: bytes, off: nat): (r: Skip)
    ensures r.Skipped? ==> off < r.next <= |buf|
    decreases if off <= |buf| then |buf| - off else 0, 0
  {
    match ReadHead(buf, off)
    case NoHead => Malformed
    case HeadAt(major, v, next) =>
      if major == MT_UINT then Skipped(next)
      else if major == MT_BSTR || major == MT_TSTR then SkipStr(|buf|, next, v)
      else if major == MT_MAP then SkipMany(buf, next, 2 * v)
      else if major == MT_ARRAY then SkipMany(buf, next, v)
      else Malformed
  }

  /** `count` items in a row; the offset, not the count, is the measure. */
  function SkipMany(buf: bytes, off: nat, count: nat): (r: Skip)
    requires off <= |buf|
    ensures r.Skipped? ==> off <= r.next <= |buf|
    decreases if off <= |buf| then |buf| - off else 0, 1
  {
    if count == 0 then Skipped(off)
    else
      var r := SkipItem(buf, off);
      if r.Skipped? then SkipMany(buf, r.next, count - 1) else r
  }

  lemma SkipUIntComplete(buf: bytes, off: nat, w: Width, v: nat)
    requires Fits(w, v) && At(buf, off, Enc(UInt(w, v)))
    ensures SkipItem(buf, off) == Skipped(off + |Enc(UInt(w, v))|)
  {
    ReadHeadOf(buf, off, MT_UINT, w, v);
  }

  lemma SkipStrComplete(buf: bytes, off: nat, text: bool, w: Width, s: bytes)
    requires Fits(w, |s|) && At(buf, off, Enc(Str(text, w, s))) && |buf| < TWO_64
    ensures SkipItem(buf, off) == Skipped(off + |Enc(Str(text, w, s))|)
  {
    var m := if text then MT_TSTR else MT_BSTR;
    AtSplit(buf, off, HeadBytes(m, w, |s|), s);
    ReadHeadOf(buf, off, m, w, |s|);
  }

  lemma CollHead(buf: bytes, off: nat, it: Item)
    requires it.Coll? && WellFormed(it) && At(buf, off, Enc(it))
    ensures At(buf, off + 1 + Octs(it.w), EncAll(it.items))
    ensures SkipItem(buf, off) == SkipMany(buf, off + 1 + Octs(it.w), |it.items|)
  {
    hide ReadHead, HeadBytes, EncAll, SkipMany;
    var m := if it.isMap then MT_MAP else MT_ARRAY;
    var n := if it.isMap then |it.items| / 2 else |it.items|;
    AtSplit(buf, off, HeadBytes(m, it.w, n), EncAll(it.items));
    ReadHeadOf(buf, off, m, it.w, n);
  }

  /** Completeness: every well-formed item, however nested, is skipped exactly. */
  lemma {:induction false} SkipComplete(buf: bytes, off: nat, it: Item)
    requires WellFormed(it) && At(buf, off, Enc(it)) && |buf| < TWO_64
    ensures SkipItem(buf, off) == Skipped(off + |Enc(it)|)
    decreases it, 0
  {
    hide SkipItem, SkipMany, HeadBytes;
    match it
    case UInt(w, v) => SkipUIntComplete(buf, off, w, v);
    case Str(text, w, s) => SkipStrComplete(buf, off, text, w, s);
    case Coll(isMap, w, items) =>
      CollHead(buf, off, it);
      SkipManyComplete(buf, off + 1 + Octs(w), items);
  }

  lemma {:induction false} SkipManyComplete(buf: bytes, off: nat, items: seq<Item>)
    requires AllWellFormed(items) && At(buf, off, EncAll(items)) && |buf| < TWO_64
    ensures SkipMany(buf, off, |items|) == Skipped(off + |EncAll(items)|)
    decreases items, 1
  {
    hide ReadHead, Enc, SkipItem;
    if items != [] {
      AtSplit(buf, off, Enc(items[0]), EncAll(items[1..]));
      SkipComplete(buf, off, items[0]);
      SkipManyComplete(buf, off + |Enc(items[0])|, items[1..]);
    }
  }

  lemma CollOf(buf: bytes, off: nat, w: Width, items: seq<Item>) returns (it: Item)
    requires var h := ReadHead(buf, off);
             && h.HeadAt? && (h.major == MT_MAP || h.major == MT_ARRAY)
             && Fits(w, h.val) && At(buf, off, HeadBytes(h.major, w, h.val)) && h.next == off + 1 + Octs(w)
             && |items| == (if h.major == MT_MAP then 2 * h.val else h.val)
             && AllWellFormed(items) && At(buf, h.next, EncAll(items))
    ensures WellFormed(it) && At(buf, off, Enc(it)) && off + |Enc(it)| == off + 1 + Octs(w) + |EncAll(items)|
  {
    var h := ReadHead(buf, off);
    it := Coll(h.major == MT_MAP, w, items);
    AtSplit(buf, off, HeadBytes(h.major, w, h.val), EncAll(items));
  }

  /** Soundness: whatever is skipped is a well-formed item; it is returned. */
  lemma {:induction false} SkipSound(buf: bytes, off: nat) returns (it: Item)
    requires SkipItem(buf, off).Skipped?
    ensures WellFormed(it) && At(buf, off, Enc(it))
    ensures SkipItem(buf, off) == Skipped(off + |Enc(it)|)
    decreases if off <= |buf| then |buf| - off else 0, 0
  {
    hide ReadHead, HeadBytes, EncAll, SkipMany;
    var h := ReadHead(buf, off);
    var w := ReadHeadInv(buf, off);
    if h.major == MT_UINT {
      it := UInt(w, h.val);
    } else if h.major == MT_BSTR || h.major == MT_TSTR {
      var s := buf[h.next..h.next + h.val];
      it := Str(h.major == MT_TSTR, w, s);
      AtSplit(buf, off, HeadBytes(h.major, w, h.val), s);
    } else {
      var n := if h.major == MT_MAP then 2 * h.val else h.val;
      var items := SkipManySound(buf, h.next, n);
      it := CollOf(buf, off, w, items);
    }
  }

  lemma {:induction false} SkipManySound(buf: bytes, off: nat, count: nat) returns (items: seq<Item>)
    requires off <= |buf| && SkipMany(buf, off, count).Skipped?
    ensures |items| == count && AllWellFormed(items) && At(buf, off, EncAll(items))
    ensures SkipMany(buf, off, count) == Skipped(off + |EncAll(items)|)
    decreases if off <= |buf| then |buf| - off else 0, 1
  {
    hide ReadHead, Enc, SkipItem;
    if count == 0 {
      items := [];
    } else {
      var first := SkipSound(buf, off);
      var next := off + |Enc(first)|;
      var others := SkipManySound(buf, next, count - 1);
      items := [first] + others;
      assert items[1..] == others;
      AtSplit(buf, off, Enc(first), EncAll(others));
    }
  }

  /** A well-formed item begins at `p` and ends before `next`. */
  ghost predicate ItemAt(buf: bytes, p: nat, next: nat)
  {
    exists it :: WellFormed(it) && At(buf, p, Enc(it)) && next == p + |Enc(it)|
  }

  /** Skipping succeeds exactly on inputs that begin with a well-formed item and advances by exactly its length. */
  lemma SkipExact(buf: bytes, off: nat, next: nat)
    requires |buf| < TWO_64
    ensures SkipItem(buf, off) == Skipped(next) <==> ItemAt(buf, off, next)
  {
    if SkipItem(buf, off) == Skipped(next) {
      var it := SkipSound(buf, off);
    }
    if ItemAt(buf, off, next) {
      var it :| WellFormed(it) && At(buf, off, Enc(it)) && next == off + |Enc(it)|;
      SkipComplete(buf, off, it);
    }
  }

  /** No two different well-formed items can begin at the same place with different lengths. */
  lemma ItemLengthUnique(buf: bytes, off: nat, a: Item, b: Item)
    requires WellFormed(a) && WellFormed(b) && At(buf, off, Enc(a)) && At(buf, off, Enc(b))
    requires |buf| < TWO_64
    ensures |Enc(a)| == |Enc(b)|
  {
    SkipComplete(buf, off, a);
    SkipComplete(buf, off, b);
  }
}
