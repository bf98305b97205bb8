/**
 skip_item as written. Its bound test adds a 64-bit length to the offset, the sum
 is taken modulo 2^64, and where it wraps the offset moves back. The module says
 what the code then does, and on exactly which inputs it keeps to the grammar.
 */
module CborWritten {
  import opened Octets
  import opened Cbor

  /** The two widths size_t has. */
  predicate IsSizeT(sizeT: nat)
  {
    sizeT == TWO_32 || sizeT == TWO_64
  }

  /** `*off + v`. */
  function Land(next: nat, v: nat): (r: nat)
  {
    if next + v < TWO_64 then next + v else next + v - TWO_64
  }

  /** The test `*off + v > len` tells the truth exactly when the 64-bit sum does not wrap. */
  lemma BoundTestExact(len: nat, next: nat, v: nat)
    requires next <= len < TWO_64 && v < TWO_64
    ensures (Land(next, v) <= len <==> next + v <= len) <==> next + v < TWO_64
  {
  }

  /** `*off += (size_t)v` after a bound test that passed: the same place for either width of size_t. */
  lemma OffsetLands(len: nat, next: nat, v: nat, sizeT: nat)
    requires IsSizeT(sizeT) && next <= len < sizeT && v < TWO_64 && Land(next, v) <= len
    ensures (next + v % sizeT) % sizeT == Land(next, v)
  {
    if next + v < TWO_64 {
      assert v % sizeT == v;
    } else {
      var k := TWO_64 - v;
      assert v == sizeT - k + (TWO_64 / sizeT - 1) * sizeT;
      assert v % sizeT == sizeT - k;
      assert next + v % sizeT == next - k + sizeT;
      assert (next - k + sizeT) % sizeT == next - k;
    }
  }

  // ----------------------------------------------------------------- skip_item

  /** `TooDeep` is a call nested deeper than the depth allowed. */
  datatype Moved = Moved(next: nat) | Bad | TooDeep

  /** skip_item, with at most `depth` calls open at once. */
  function SkipCode(buf: bytes, off: nat, depth: nat): (r: Moved)
    ensures r.Moved? ==> r.next <= |buf|
    decreases depth, 0, 0
  {
    if depth == 0 then TooDeep
    else
      match ReadHead(buf, off)
      case NoHead => Bad
      case HeadAt(major, v, next) =>
        if major == MT_UINT then Moved(next)
        else if major == MT_BSTR || major == MT_TSTR then (if Land(next, v) > |buf| then Bad else Moved(Land(next, v)))
        else if major == MT_MAP then SkipAll(buf, next, 2 * v, depth - 1)
        else if major == MT_ARRAY then SkipAll(buf, next, v, depth - 1)
        else Bad
  }

  /** The counting loop of a collection. */
  function SkipAll(buf: bytes, off: nat, count: nat, depth: nat): (r: Moved)
    requires off <= |buf|
    ensures r.Moved? ==> r.next <= |buf|
    decreases depth, 1, count
  {
    if count == 0 then Moved(off)
    else
      var r := SkipCode(buf, off, depth);
      if r.Moved? then SkipAll(buf, r.next, count - 1, depth) else r
  }

  method SkipItemLoop(buf: bytes, off: nat, depth: nat, sizeT: nat) returns (r: Moved)
    requires IsSizeT(sizeT) && |buf| < sizeT
    ensures r == SkipCode(buf, off, depth)
    decreases depth
  {
    hide ReadHead;
    if depth == 0 {
      return TooDeep;
    }
    var h := ReadHeadOctets(buf, off);
    if h.NoHead? {
      return Bad;
    }
    var p, v := h.next, h.val;
    if h.major == MT_UINT {
      return Moved(p);
    } else if h.major == MT_BSTR || h.major == MT_TSTR {
      SumIsLand(p, v);
      if (p + v) % TWO_64 > |buf| {
        return Bad;
      }
      OffsetLands(|buf|, p, v, sizeT);
      return Moved((p + v % sizeT) % sizeT);
    } else if h.major == MT_MAP {
      var i := 0;
      while i < v
        invariant 0 <= i <= v && 0 <= p <= |buf|
        invariant SkipCode(buf, off, depth) == SkipAll(buf, p, 2 * (v - i), depth - 1)
      {
        r := SkipItemLoop(buf, p, depth - 1, sizeT);
        SkipAllStep(buf, p, 2 * (v - i), depth - 1);
        if !r.Moved? { return; }
        p := r.next;
        r := SkipItemLoop(buf, p, depth - 1, sizeT);
        SkipAllStep(buf, p, 2 * (v - i) - 1, depth - 1);
        if !r.Moved? { return; }
        p := r.next;
        i := i + 1;
      }
      return Moved(p);
    } else if h.major == MT_ARRAY {
      var i := 0;
      while i < v
        invariant 0 <= i <= v && 0 <= p <= |buf|
        invariant SkipCode(buf, off, depth) == SkipAll(buf, p, v - i, depth - 1)
      {
        r := SkipItemLoop(buf, p, depth - 1, sizeT);
        SkipAllStep(buf, p, v - i, depth - 1);
        if !r.Moved? { return; }
        p := r.next;
        i := i + 1;
      }
      return Moved(p);
    } else {
      return Bad;
    }
  }

  lemma SumIsLand(next: nat, v: nat)
    requires next < TWO_64 && v < TWO_64
    ensures (next + v) % TWO_64 == Land(next, v)
  {
  }

  lemma SkipAllStep(buf: bytes, off: nat, count: nat, depth: nat)
    requires off <= |buf| && count > 0
    ensures var r := SkipCode(buf, off, depth);
            SkipAll(buf, off, count, depth) == if r.Moved? then SkipAll(buf, r.next, count - 1, depth) else r
  {
  }

  // ------------------------------------------------------- agreement without wraps

  function AsWritten(s: Cbor.Skip): (r: Moved)
    requires !s.SumWraps?
  {
    if s.Skipped? then Moved(s.next) else Bad
  }

  /** Where no sum wraps, the code skips what the grammar says, with one call open per octet at most. */
  lemma {:induction false} SkipAgrees(buf: bytes, off: nat, depth: nat)
    requires |buf| < TWO_64 && !SkipItem(buf, off).SumWraps? && depth > 0 && off + depth > |buf|
    ensures SkipCode(buf, off, depth) == AsWritten(SkipItem(buf, off))
    decreases depth, 0, 0
  {
    var h := ReadHead(buf, off);
    if h.HeadAt? && (h.major == MT_MAP || h.major == MT_ARRAY) {
      SkipAllAgrees(buf, h.next, if h.major == MT_MAP then 2 * h.val else h.val, depth - 1);
    }
  }

  lemma {:induction false} SkipAllAgrees(buf: bytes, off: nat, count: nat, depth: nat)
    requires |buf| < TWO_64 && off <= |buf| && off + depth > |buf| && !SkipMany(buf, off, count).SumWraps?
    ensures SkipAll(buf, off, count, depth) == AsWritten(SkipMany(buf, off, count))
    decreases depth, 1, count
  {
    if count > 0 {
      SkipAgrees(buf, off, depth);
      if SkipItem(buf, off).Skipped? {
        SkipAllAgrees(buf, SkipItem(buf, off).next, count - 1, depth);
      }
    }
  }

  // ------------------------------------------------------ where the code is right

  ghost predicate Exact(buf: bytes, p: nat, r: Moved)
  {
    r != TooDeep && forall next: nat :: r == Moved(next) <==> ItemAt(buf, p, next)
  }

  /** A call at `p` returns, and succeeds exactly on a well-formed item there, moving behind it. */
  ghost predicate Meets(buf: bytes, p: nat)
  {
    forall depth: nat :: depth > |buf| ==> Exact(buf, p, SkipCode(buf, p, depth))
  }

  /** A string head whose claimed length takes the 64-bit sum past its end. */
  predicate WrapsAt(buf: bytes, p: nat)
  {
    var h := ReadHead(buf, p);
    h.HeadAt? && (h.major == MT_BSTR || h.major == MT_TSTR) && h.next + h.val >= TWO_64
  }

  /** The offsets at which skip_item is called, up to the first wrap. */
  ghost function Calls(buf: bytes, off: nat): (s: set<nat>)
    ensures off in s
    decreases if off <= |buf| then |buf| - off else 0, 0
  {
    var h := ReadHead(buf, off);
    if h.HeadAt? && (h.major == MT_MAP || h.major == MT_ARRAY)
    then {off} + CallsIn(buf, h.next, if h.major == MT_MAP then 2 * h.val else h.val)
    else {off}
  }

  ghost function CallsIn(buf: bytes, off: nat, count: nat): (s: set<nat>)
    requires off <= |buf|
    decreases if off <= |buf| then |buf| - off else 0, 1
  {
    if count == 0 then {}
    else
      var r := SkipItem(buf, off);
      Calls(buf, off) + if r.Skipped? then CallsIn(buf, r.next, count - 1) else {}
  }

  /** The sum wraps in a walk exactly when the walk calls skip_item at a wrapping head. */
  lemma {:induction false} WrapIsCall(buf: bytes, off: nat) returns (p: nat)
    ensures SkipItem(buf, off).SumWraps? ==> p in Calls(buf, off) && WrapsAt(buf, p)
    ensures forall q :: q in Calls(buf, off) && SkipItem(buf, q).SumWraps? ==> SkipItem(buf, off).SumWraps?
    decreases if off <= |buf| then |buf| - off else 0, 0
  {
    p := off;
    var h := ReadHead(buf, off);
    if h.HeadAt? && (h.major == MT_MAP || h.major == MT_ARRAY) {
      p := WrapIsCallIn(buf, h.next, if h.major == MT_MAP then 2 * h.val else h.val);
    }
  }

  lemma {:induction false} WrapIsCallIn(buf: bytes, off: nat, count: nat) returns (p: nat)
    requires off <= |buf|
    ensures SkipMany(buf, off, count).SumWraps? ==> p in CallsIn(buf, off, count) && WrapsAt(buf, p)
    ensures forall q :: q in CallsIn(buf, off, count) && SkipItem(buf, q).SumWraps? ==> SkipMany(buf, off, count).SumWraps?
    decreases if off <= |buf| then |buf| - off else 0, 1
  {
    p := 0;
    if count > 0 {
      p := WrapIsCall(buf, off);
      if SkipItem(buf, off).Skipped? {
        p := WrapIsCallIn(buf, SkipItem(buf, off).next, count - 1);
      }
    }
  }

  /** A call at a wrapping head succeeds, moves back, and there is no item. */
  lemma WrapAccepted(buf: bytes, p: nat, depth: nat)
    requires |buf| < TWO_64 && WrapsAt(buf, p) && depth > 0
    ensures var h := ReadHead(buf, p); SkipCode(buf, p, depth) == Moved(h.next + h.val - TWO_64)
    ensures forall next: nat :: !ItemAt(buf, p, next)
    ensures !Meets(buf, p)
  {
    hide ItemAt;
    forall next: nat ensures !ItemAt(buf, p, next) {
      SkipExact(buf, p, next);
    }
    var h := ReadHead(buf, p);
    var back := h.next + h.val - TWO_64;
    assert SkipCode(buf, p, |buf| + 1) == Moved(back) && !ItemAt(buf, p, back);
  }

  lemma NoWrapMeets(buf: bytes, p: nat)
    requires |buf| < TWO_64 && !SkipItem(buf, p).SumWraps?
    ensures Meets(buf, p)
  {
    hide ItemAt, SkipItem, SkipCode;
    forall depth: nat | depth > |buf| ensures Exact(buf, p, SkipCode(buf, p, depth)) {
      SkipAgrees(buf, p, depth);
      forall next: nat ensures SkipCode(buf, p, depth) == Moved(next) <==> ItemAt(buf, p, next) {
        SkipExact(buf, p, next);
      }
    }
  }

  /**
   Every call skip_item makes succeeds exactly on a well-formed item, moves by its length, and returns,
   if and only if none of them is made at a wrapping head.
   */
  lemma SkipWrittenExact(buf: bytes, off: nat)
    requires |buf| < TWO_64
    ensures (forall p :: p in Calls(buf, off) ==> Meets(buf, p)) <==> (forall p :: p in Calls(buf, off) ==> !WrapsAt(buf, p))
    ensures SkipItem(buf, off).SumWraps? <==> exists p :: p in Calls(buf, off) && WrapsAt(buf, p)
  {
    hide Calls, Meets, WrapsAt;
    var w := WrapIsCall(buf, off);
    forall p | p in Calls(buf, off) && WrapsAt(buf, p) ensures !Meets(buf, p) && SkipItem(buf, off).SumWraps? {
      WrapAccepted(buf, p, 1);
      WrapsIsSum(buf, p);
    }
    forall p | p in Calls(buf, off) && !SkipItem(buf, off).SumWraps? ensures Meets(buf, p) {
      NoWrapMeets(buf, p);
    }
  }

  lemma WrapsIsSum(buf: bytes, p: nat)
    requires WrapsAt(buf, p)
    ensures SkipItem(buf, p).SumWraps?
  {
  }

  /** For the input as a whole: skipping is right wherever it starts, if and only if no octet starts a wrapping head. */
  lemma SkipRightEverywhere(buf: bytes)
    requires |buf| < TWO_64
    ensures (forall p: nat :: Meets(buf, p)) <==> (forall p: nat :: !WrapsAt(buf, p))
  {
    hide Meets, WrapsAt;
    forall p: nat | WrapsAt(buf, p) ensures !Meets(buf, p) {
      WrapAccepted(buf, p, 1);
    }
    if forall p: nat :: !WrapsAt(buf, p) {
      forall p: nat ensures Meets(buf, p) {
        SkipWrittenExact(buf, p);
        assert p in Calls(buf, p);
      }
    }
  }

  // ----------------------------------------------------------------- inputs

  /** An eight-octet argument of seven 0xFF and `x`. */
  lemma WideArgument(s: bytes, x: byte)
    requires s == [0xFF, 0xFF, 0xFF, 0xFF, 0xFF, 0xFF, 0xFF, x]
    ensures FromBE(s) == TWO_64 - 256 + x
  {
    assert s[..7] == [0xFF, 0xFF, 0xFF, 0xFF, 0xFF, 0xFF, 0xFF] && s[..7][..6] == s[..6] && s[..6][..5] == s[..5]
           && s[..5][..4] == s[..4] && s[..4][..3] == s[..3] && s[..3][..2] == s[..2];
    FromBETwo(s[..2]);
    assert FromBE(s[..3]) == 0xFF_FFFF;
    assert FromBE(s[..4]) == 0xFFFF_FFFF;
    assert FromBE(s[..5]) == 0xFF_FFFF_FFFF;
    assert FromBE(s[..6]) == 0xFFFF_FFFF_FFFF;
    assert FromBE(s[..7]) == 0xFF_FFFF_FFFF_FFFF;
  }

  /** A head with such an argument at `off`. */
  lemma WideHead(buf: bytes, off: nat, x: byte)
    requires off + 9 <= |buf| && buf[off] % 32 == 27
    requires buf[off + 1..off + 9] == [0xFF, 0xFF, 0xFF, 0xFF, 0xFF, 0xFF, 0xFF, x]
    ensures ReadHead(buf, off) == HeadAt(buf[off] / 32 * 32, TWO_64 - 256 + x, off + 9)
  {
    WideArgument(buf[off + 1..off + 9], x);
  }

  /** Accepted without an item: a text string of 2^64 - 1 octets in an input of nine. */
  lemma AcceptedWithoutItem(buf: bytes, depth: nat)
    requires buf == [0x7B, 0xFF, 0xFF, 0xFF, 0xFF, 0xFF, 0xFF, 0xFF, 0xFF] && depth > 0
    ensures SkipCode(buf, 0, depth) == Moved(8) && forall next: nat :: !ItemAt(buf, 0, next)
  {
    assert buf[1..9] == [0xFF, 0xFF, 0xFF, 0xFF, 0xFF, 0xFF, 0xFF, 0xFF];
    WideHead(buf, 0, 0xFF);
    WrapAccepted(buf, 0, depth);
  }

  /** An array of two whose first element moves the offset back to the array: no depth is enough. */
  lemma {:induction false} NeverReturns(buf: bytes, off: nat, depth: nat)
    requires off + 10 <= |buf|
    requires buf[off..off + 10] == [0x82, 0x7B, 0xFF, 0xFF, 0xFF, 0xFF, 0xFF, 0xFF, 0xFF, 0xF6]
    ensures SkipCode(buf, off, depth) == TooDeep
    decreases depth
  {
    if depth > 0 {
      var a := buf[off..off + 10];
      assert buf[off] == a[0] && buf[off + 1] == a[1];
      assert ReadHead(buf, off) == HeadAt(MT_ARRAY, 2, off + 1);
      assert buf[off + 2..off + 10] == a[2..] == [0xFF, 0xFF, 0xFF, 0xFF, 0xFF, 0xFF, 0xFF, 0xF6];
      WideHead(buf, off + 1, 0xF6);
      SkipAllStep(buf, off + 1, 2, depth - 1);
      NeverReturns(buf, off, depth - 1);
      if depth > 1 {
        SkipAllStep(buf, off, 1, depth - 1);
      }
    }
  }

  /** A wrap need not show: this one moves the offset onto a reserved head, and the input is refused after all. */
  lemma RefusedAfterWrap(buf: bytes, depth: nat)
    requires buf == [0x82, 0x7B, 0xFF, 0xFF, 0xFF, 0xFF, 0xFF, 0xFF, 0xFF, 0xF8] && depth > 1
    ensures WrapsAt(buf, 1) && SkipCode(buf, 0, depth) == Bad
  {
    assert ReadHead(buf, 0) == HeadAt(MT_ARRAY, 2, 1);
    assert buf[2..10] == [0xFF, 0xFF, 0xFF, 0xFF, 0xFF, 0xFF, 0xFF, 0xF8];
    WideHead(buf, 1, 0xF8);
    SkipAllStep(buf, 1, 2, depth - 1);
    SkipAllStep(buf, 2, 1, depth - 1);
    assert ReadHead(buf, 2) == NoHead;
  }
}
