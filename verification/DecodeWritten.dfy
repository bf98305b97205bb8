/**
 decode_map and read_bstr as written, with the string bound tests of the code:
 what they return on every input, and on exactly which inputs each of their
 reads is right.
 */
module DecodeWritten {
  import opened Octets
  import opened Cbor
  import opened CborEmit
  import opened CborDecode
  import opened CborWritten

  /** A string as the code hands it out: where it starts and how long it is said to be. */
  datatype View = View(at: nat, len: nat)

  datatype Taken = Taken(int1: Option<nat>, int2: Option<nat>, data: Option<View>)

  /** `Endless` is a skip nested deeper than the depth allowed. */
  datatype Answer<+T> = Yes(value: T, next: nat) | No(e: DecodeError) | Endless

  const NONE_TAKEN := Taken(None, None, None)

  // ---------------------------------------------------------------- the code

  /** read_bstr; `sizeT` is the modulus of size_t. */
  function TakeBstr(buf: bytes, off: nat, sizeT: nat): (r: Answer<View>)
    requires sizeT > 0
    ensures r.Yes? ==> r.next <= |buf|
  {
    match ReadHead(buf, off)
    case NoHead => No(EINVAL)
    case HeadAt(major, v, next) =>
      if major != MT_BSTR then No(EINVAL)
      else if Land(next, v) > |buf| then No(EINVAL)
      else Yes(View(next, v % sizeT), Land(next, v))
  }

  function Stepped(r: Moved): (a: Answer<()>)
  {
    match r case Moved(next) => Yes((), next) case Bad => No(EINVAL) case TooDeep => Endless
  }

  function TakeEntry(buf: bytes, off: nat, n1: bytes, n2: bytes, f: Taken, depth: nat, sizeT: nat): (r: Answer<Taken>)
    requires sizeT > 0
  {
    var m1, m2, m3 := MatchTstr(buf, off, n1), MatchTstr(buf, off, n2), MatchTstr(buf, off, KEY_DATA);
    if m1.Some? then
      match ReadUint32(buf, m1.value)
      case Refused(e) => No(e)
      case Got(v, next) => Yes(f.(int1 := Some(v)), next)
    else if m2.Some? then
      match ReadUint32(buf, m2.value)
      case Refused(e) => No(e)
      case Got(v, next) => Yes(f.(int2 := Some(v)), next)
    else if m3.Some? then
      match TakeBstr(buf, m3.value, sizeT)
      case Yes(d, next) => Yes(f.(data := Some(d)), next)
      case No(e) => No(e)
      case Endless => Endless
    else
      match Stepped(SkipCode(buf, off, depth))
      case No(e) => No(e)
      case Endless => Endless
      case Yes(_, mid) =>
        match Stepped(SkipCode(buf, mid, depth))
        case No(e) => No(e)
        case Endless => Endless
        case Yes(_, next) => Yes(f, next)
  }

  function TakeEntries(buf: bytes, off: nat, n: nat, n1: bytes, n2: bytes, f: Taken, depth: nat, sizeT: nat)
    : (r: Answer<Taken>)
    requires sizeT > 0
    decreases n
  {
    if n == 0 then Yes(f, off)
    else
      match TakeEntry(buf, off, n1, n2, f, depth, sizeT)
      case Yes(f', next) => TakeEntries(buf, next, n - 1, n1, n2, f', depth, sizeT)
      case No(e) => No(e)
      case Endless => Endless
  }

  function TakeMap(buf: bytes, n1: bytes, n2: bytes, depth: nat, sizeT: nat): (r: Answer<Taken>)
    requires sizeT > 0
  {
    match ReadHead(buf, 0)
    case NoHead => No(EINVAL)
    case HeadAt(major, v, next) =>
      if major != MT_MAP || v < 2 || v > 3 then No(EINVAL)
      else
        match TakeEntries(buf, next, v, n1, n2, NONE_TAKEN, depth, sizeT)
        case Yes(f, _) => if f.int1.Some? && f.int2.Some? then Yes(f, 0) else No(ENOENT)
        case other => other
  }

  method ReadBstrView(buf: bytes, off: nat, sizeT: nat) returns (r: Answer<View>)
    requires IsSizeT(sizeT) && |buf| < sizeT
    ensures r == TakeBstr(buf, off, sizeT)
  {
    var h := ReadHeadOctets(buf, off);
    if h.NoHead? || h.major != MT_BSTR {
      return No(EINVAL);
    }
    SumIsLand(h.next, h.val);
    if (h.next + h.val) % TWO_64 > |buf| {
      return No(EINVAL);
    }
    OffsetLands(|buf|, h.next, h.val, sizeT);
    return Yes(View(h.next, h.val % sizeT), (h.next + h.val % sizeT) % sizeT);
  }

  /** The body of the entry loop: each key is tried in turn from the saved offset. */
  method DecodeOneEntry(buf: bytes, saved: nat, n1: bytes, n2: bytes, f: Taken, depth: nat, sizeT: nat)
    returns (r: Answer<Taken>)
    requires IsSizeT(sizeT) && |buf| < sizeT
    ensures r == TakeEntry(buf, saved, n1, n2, f, depth, sizeT)
  {
    hide MatchTstr, ReadUint32, TakeBstr, SkipCode;
    var m := MatchTstr(buf, saved, n1);
    if m.Some? {
      var u := ReadUint32(buf, m.value);
      if u.Refused? { return No(u.e); }
      return Yes(f.(int1 := Some(u.value)), u.next);
    }
    m := MatchTstr(buf, saved, n2);
    if m.Some? {
      var u := ReadUint32(buf, m.value);
      if u.Refused? { return No(u.e); }
      return Yes(f.(int2 := Some(u.value)), u.next);
    }
    m := MatchTstr(buf, saved, KEY_DATA);
    if m.Some? {
      var d := ReadBstrView(buf, m.value, sizeT);
      if d.Yes? { return Yes(f.(data := Some(d.value)), d.next); }
      return if d.No? then No(d.e) else Endless;
    }
    var s := SkipItemLoop(buf, saved, depth, sizeT);
    if !s.Moved? { return if s.Bad? then No(EINVAL) else Endless; }
    s := SkipItemLoop(buf, s.next, depth, sizeT);
    if !s.Moved? { return if s.Bad? then No(EINVAL) else Endless; }
    return Yes(f, s.next);
  }

  /** decode_map: the fields are filled in while the loop walks the entries. */
  method DecodeMapLoop(buf: bytes, n1: bytes, n2: bytes, depth: nat, sizeT: nat) returns (r: Answer<Taken>)
    requires IsSizeT(sizeT) && |buf| < sizeT
    ensures r == TakeMap(buf, n1, n2, depth, sizeT)
  {
    hide TakeEntry;
    if |buf| == 0 {
      return No(EINVAL);
    }
    var h := ReadHeadOctets(buf, 0);
    if h.NoHead? || h.major != MT_MAP || h.val < 2 || h.val > 3 {
      return No(EINVAL);
    }
    var entries, off, f := h.val, h.next, NONE_TAKEN;
    var i := 0;
    while i < entries
      invariant 0 <= i <= entries && off >= 0
      invariant TakeEntries(buf, h.next, entries, n1, n2, NONE_TAKEN, depth, sizeT)
                == TakeEntries(buf, off, entries - i, n1, n2, f, depth, sizeT)
    {
      var e := DecodeOneEntry(buf, off, n1, n2, f, depth, sizeT);
      if !e.Yes? { return e; }
      f, off := e.value, e.next;
      i := i + 1;
    }
    if f.int1.None? || f.int2.None? {
      return No(ENOENT);
    }
    return Yes(f, 0);
  }

  // ------------------------------------------------------- agreement without wraps

  /** The view is of exactly these octets. */
  predicate Shows(buf: bytes, view: View, d: bytes)
  {
    view.at + view.len <= |buf| && buf[view.at..view.at + view.len] == d
  }

  predicate SameFields(buf: bytes, t: Taken, f: Fields)
  {
    && t.int1 == f.int1 && t.int2 == f.int2 && (t.data.Some? <==> f.data.Some?)
    && (t.data.Some? ==> Shows(buf, t.data.value, f.data.value))
  }

  predicate Agrees(buf: bytes, a: Answer<Taken>, r: Read<Fields>)
  {
    match r
    case Refused(e) => a == No(e)
    case Got(f, next) => a.Yes? && a.next == next && SameFields(buf, a.value, f)
  }

  lemma TakeBstrAgrees(buf: bytes, off: nat, sizeT: nat)
    requires IsSizeT(sizeT) && |buf| < sizeT && ReadBstr(buf, off) != Refused(Wraps)
    ensures var a, r := TakeBstr(buf, off, sizeT), ReadBstr(buf, off);
            if r.Refused? then a == No(r.e) else a.Yes? && a.next == r.next && Shows(buf, a.value, r.value)
  {
    hide ReadHead;
    var h := ReadHead(buf, off);
    if h.HeadAt? && h.val < sizeT {
      SmallMod(h.val, sizeT);
    }
  }

  lemma SmallMod(v: nat, m: nat)
    requires v < m
    ensures v % m == v
  {
  }

  lemma EntryAgrees(buf: bytes, off: nat, n1: bytes, n2: bytes, t: Taken, f: Fields, depth: nat, sizeT: nat)
    requires IsSizeT(sizeT) && |buf| < sizeT && depth > |buf| && SameFields(buf, t, f)
    requires DecodeEntry(buf, off, n1, n2, f) != Refused(Wraps)
    ensures Agrees(buf, TakeEntry(buf, off, n1, n2, t, depth, sizeT), DecodeEntry(buf, off, n1, n2, f))
  {
    hide MatchTstr, ReadUint32, TakeBstr, ReadBstr, SkipCode, SkipItem;
    var m1, m2, m3 := MatchTstr(buf, off, n1), MatchTstr(buf, off, n2), MatchTstr(buf, off, KEY_DATA);
    if m1.None? && m2.None? {
      if m3.Some? {
        TakeBstrAgrees(buf, m3.value, sizeT);
      } else {
        SkipAgrees(buf, off, depth);
        if SkipItem(buf, off).Skipped? {
          SkipAgrees(buf, SkipItem(buf, off).next, depth);
        }
      }
    }
  }

  lemma {:induction false} EntriesAgree(buf: bytes, off: nat, n: nat, n1: bytes, n2: bytes, t: Taken, f: Fields, depth: nat,
                                        sizeT: nat)
    requires IsSizeT(sizeT) && |buf| < sizeT && depth > |buf| && SameFields(buf, t, f)
    requires DecodeEntries(buf, off, n, n1, n2, f) != Refused(Wraps)
    ensures Agrees(buf, TakeEntries(buf, off, n, n1, n2, t, depth, sizeT), DecodeEntries(buf, off, n, n1, n2, f))
    decreases n
  {
    hide DecodeEntry, TakeEntry, SameFields;
    if n > 0 {
      EntryAgrees(buf, off, n1, n2, t, f, depth, sizeT);
      var r, a := DecodeEntry(buf, off, n1, n2, f), TakeEntry(buf, off, n1, n2, t, depth, sizeT);
      if r.Got? {
        EntriesAgree(buf, r.next, n - 1, n1, n2, a.value, r.value, depth, sizeT);
      }
    }
  }

  lemma MapAgrees(buf: bytes, n1: bytes, n2: bytes, depth: nat, sizeT: nat)
    requires IsSizeT(sizeT) && |buf| < sizeT && depth > |buf| && DecodeMap(buf, n1, n2) != Refused(Wraps)
    ensures Agrees(buf, TakeMap(buf, n1, n2, depth, sizeT), DecodeMap(buf, n1, n2))
  {
    hide DecodeEntries, TakeEntries;
    var h := ReadHead(buf, 0);
    if h.HeadAt? && h.major == MT_MAP && 2 <= h.val <= 3 {
      EntriesAgree(buf, h.next, h.val, n1, n2, NONE_TAKEN, NOTHING, depth, sizeT);
    }
  }

  /** So what one end encodes as a request or response, the code at the other end decodes to the same fields. */
  lemma MapArrives(k1: bytes, v1: nat, k2: bytes, v2: nat, data: bytes, depth: nat, sizeT: nat)
    requires |k1| < TWO_32 && |k2| < TWO_32 && v1 < TWO_32 && v2 < TWO_32 && DistinctNames(k1, k2)
    requires IsSizeT(sizeT) && |data| < TWO_64 && |MapBytes(k1, v1, k2, v2, data)| < sizeT
    requires depth > |MapBytes(k1, v1, k2, v2, data)|
    ensures var buf := MapBytes(k1, v1, k2, v2, data);
            var a := TakeMap(buf, k1, k2, depth, sizeT);
            a.Yes? && SameFields(buf, a.value, Fields(Some(v1), Some(v2), if data == [] then None else Some(data)))
  {
    hide TakeMap, DecodeMap;
    MapRoundTrip(k1, v1, k2, v2, data);
    MapAgrees(MapBytes(k1, v1, k2, v2, data), k1, k2, depth, sizeT);
  }

  // ------------------------------------------------------- where each read is right

  /** A call of skip_item, or of read_bstr, at an offset. */
  datatype Access = Skipping(p: nat) | Taking(p: nat)

  /** A byte string handed out lies in the input and is the item that begins at `p`. */
  ghost predicate TakesRight(buf: bytes, p: nat, sizeT: nat)
    requires sizeT > 0
  {
    var r := TakeBstr(buf, p, sizeT);
    r.Yes? ==> r.value.at + r.value.len == r.next && ItemAt(buf, p, r.next)
  }

  ghost predicate Right(buf: bytes, a: Access, sizeT: nat)
    requires sizeT > 0
  {
    match a case Skipping(p) => Meets(buf, p) case Taking(p) => TakesRight(buf, p, sizeT)
  }

  /** The access is made at a head whose claimed length takes the 64-bit sum past its end. */
  predicate Wrapping(buf: bytes, a: Access)
  {
    WrapsAt(buf, a.p) && (a.Taking? ==> ReadHead(buf, a.p).major == MT_BSTR)
  }

  ghost function Skips(buf: bytes, off: nat): (s: set<Access>)
    ensures forall p :: p in Calls(buf, off) <==> Skipping(p) in s
    ensures forall a :: a in s ==> a.Skipping?
  {
    set p | p in Calls(buf, off) :: Skipping(p)
  }

  /** The accesses one entry makes, up to the first wrap. */
  ghost function EntryReads(buf: bytes, off: nat, n1: bytes, n2: bytes): (s: set<Access>)
  {
    var m1, m2, m3 := MatchTstr(buf, off, n1), MatchTstr(buf, off, n2), MatchTstr(buf, off, KEY_DATA);
    if m1.Some? || m2.Some? then {}
    else if m3.Some? then {Taking(m3.value)}
    else Skips(buf, off) + if SkipItem(buf, off).Skipped? then Skips(buf, SkipItem(buf, off).next) else {}
  }

  ghost function EntriesReads(buf: bytes, off: nat, n: nat, n1: bytes, n2: bytes, f: Fields): (s: set<Access>)
    decreases n
  {
    if n == 0 then {}
    else
      var r := DecodeEntry(buf, off, n1, n2, f);
      EntryReads(buf, off, n1, n2) + if r.Got? then EntriesReads(buf, r.next, n - 1, n1, n2, r.value) else {}
  }

  ghost function MapReads(buf: bytes, n1: bytes, n2: bytes): (s: set<Access>)
  {
    var h := ReadHead(buf, 0);
    if h.HeadAt? && h.major == MT_MAP && 2 <= h.val <= 3
    then EntriesReads(buf, h.next, h.val, n1, n2, NOTHING) else {}
  }

  ghost predicate AllRight(buf: bytes, s: set<Access>, sizeT: nat)
    requires sizeT > 0
  {
    forall a :: a in s ==> Right(buf, a, sizeT)
  }

  ghost predicate NoneWraps(buf: bytes, s: set<Access>)
  {
    forall a :: a in s ==> !Wrapping(buf, a)
  }

  lemma TakingExact(buf: bytes, p: nat, sizeT: nat)
    requires IsSizeT(sizeT) && |buf| < sizeT
    ensures TakesRight(buf, p, sizeT) <==> !Wrapping(buf, Taking(p))
    ensures ReadBstr(buf, p) == Refused(Wraps) <==> Wrapping(buf, Taking(p))
  {
    hide ItemAt;
    var r := TakeBstr(buf, p, sizeT);
    if r.Yes? {
      SkipExact(buf, p, r.next);
    }
  }

  lemma SkipsExact(buf: bytes, off: nat, sizeT: nat)
    requires |buf| < TWO_64 && sizeT > 0
    ensures AllRight(buf, Skips(buf, off), sizeT) <==> NoneWraps(buf, Skips(buf, off))
    ensures SkipItem(buf, off).SumWraps? <==> !NoneWraps(buf, Skips(buf, off))
  {
    hide Calls, SkipItem, Meets, WrapsAt;
    SkipWrittenExact(buf, off);
    var s := Skips(buf, off);
    if AllRight(buf, s, sizeT) {
      forall p | p in Calls(buf, off) ensures Meets(buf, p) {
        assert Skipping(p) in s && Right(buf, Skipping(p), sizeT);
      }
    }
    if NoneWraps(buf, s) {
      forall p | p in Calls(buf, off) ensures !WrapsAt(buf, p) {
        assert Skipping(p) in s && !Wrapping(buf, Skipping(p));
      }
    }
  }

  lemma Both(buf: bytes, a: set<Access>, b: set<Access>, sizeT: nat)
    requires sizeT > 0
    ensures AllRight(buf, a + b, sizeT) <==> AllRight(buf, a, sizeT) && AllRight(buf, b, sizeT)
    ensures NoneWraps(buf, a + b) <==> NoneWraps(buf, a) && NoneWraps(buf, b)
  {
    hide Right, Wrapping;
  }

  lemma EntryExact(buf: bytes, off: nat, n1: bytes, n2: bytes, f: Fields, sizeT: nat)
    requires IsSizeT(sizeT) && |buf| < sizeT
    ensures var s := EntryReads(buf, off, n1, n2);
            && (AllRight(buf, s, sizeT) <==> NoneWraps(buf, s))
            && (DecodeEntry(buf, off, n1, n2, f) == Refused(Wraps) <==> !NoneWraps(buf, s))
  {
    hide MatchTstr, ReadUint32, ReadBstr, SkipItem, Skips, Wrapping, TakesRight;
    var m1, m2, m3 := MatchTstr(buf, off, n1), MatchTstr(buf, off, n2), MatchTstr(buf, off, KEY_DATA);
    if m1.Some? || m2.Some? {
      NoOtherError(buf, if m1.Some? then m1.value else m2.value);
    } else if m3.Some? {
      TakingExact(buf, m3.value, sizeT);
      assert Taking(m3.value) in EntryReads(buf, off, n1, n2);
    } else {
      SkipsExact(buf, off, sizeT);
      var r := SkipItem(buf, off);
      if r.Skipped? {
        SkipsExact(buf, r.next, sizeT);
        Both(buf, Skips(buf, off), Skips(buf, r.next), sizeT);
      } else {
        assert Skips(buf, off) + {} == Skips(buf, off);
      }
    }
  }

  lemma NoOtherError(buf: bytes, off: nat)
    ensures ReadUint32(buf, off) != Refused(Wraps)
  {
  }

  lemma {:induction false} EntriesExact(buf: bytes, off: nat, n: nat, n1: bytes, n2: bytes, f: Fields, sizeT: nat)
    requires IsSizeT(sizeT) && |buf| < sizeT
    ensures var s := EntriesReads(buf, off, n, n1, n2, f);
            && (AllRight(buf, s, sizeT) <==> NoneWraps(buf, s))
            && (DecodeEntries(buf, off, n, n1, n2, f) == Refused(Wraps) <==> !NoneWraps(buf, s))
    decreases n
  {
    hide DecodeEntry, EntryReads, AllRight, NoneWraps;
    if n == 0 {
      NothingRead(buf, sizeT);
    } else {
      EntryExact(buf, off, n1, n2, f, sizeT);
      var r := DecodeEntry(buf, off, n1, n2, f);
      if r.Got? {
        EntriesExact(buf, r.next, n - 1, n1, n2, r.value, sizeT);
        Both(buf, EntryReads(buf, off, n1, n2), EntriesReads(buf, r.next, n - 1, n1, n2, r.value), sizeT);
      } else {
        assert EntryReads(buf, off, n1, n2) + {} == EntryReads(buf, off, n1, n2);
      }
    }
  }

  lemma NothingRead(buf: bytes, sizeT: nat)
    requires sizeT > 0
    ensures AllRight(buf, {}, sizeT) && NoneWraps(buf, {})
  {
  }

  /**
   Every read decode_map makes is right if and only if none is made at a wrapping head; then it returns,
   and returns what the grammar says.
   */
  lemma DecodeWrittenExact(buf: bytes, n1: bytes, n2: bytes, depth: nat, sizeT: nat)
    requires IsSizeT(sizeT) && |buf| < sizeT && depth > |buf|
    ensures var s := MapReads(buf, n1, n2);
            && (AllRight(buf, s, sizeT) <==> NoneWraps(buf, s))
            && (NoneWraps(buf, s) ==> Agrees(buf, TakeMap(buf, n1, n2, depth, sizeT), DecodeMap(buf, n1, n2)))
            && (NoneWraps(buf, s) <==> DecodeMap(buf, n1, n2) != Refused(Wraps))
  {
    hide DecodeEntries, EntriesReads, AllRight, NoneWraps, Agrees, TakeMap;
    NothingRead(buf, sizeT);
    var h := ReadHead(buf, 0);
    if h.HeadAt? && h.major == MT_MAP && 2 <= h.val <= 3 {
      EntriesExact(buf, h.next, h.val, n1, n2, NOTHING, sizeT);
    }
    if DecodeMap(buf, n1, n2) != Refused(Wraps) {
      MapAgrees(buf, n1, n2, depth, sizeT);
    }
  }

  // ----------------------------------------------------------------- inputs

  /** The key of a request entry, seen from the octets. */
  lemma KeyAt(buf: bytes, off: nat, name: bytes, other: bytes)
    requires |name| < 24 && off + 1 + |name| <= |buf| && |buf| < TWO_64
    requires buf[off] == 0x60 + |name| && buf[off + 1..off + 1 + |name|] == name
    ensures MatchTstr(buf, off, other) == if other == name then Some(off + 1 + |name|) else None
  {
    assert ReadHead(buf, off) == HeadAt(MT_TSTR, |name|, off + 1);
  }

  /** A request whose data is said to have 2^64 - 1 octets, and has none, is decoded as one that has them. */
  lemma FalseLengthDecoded(buf: bytes, depth: nat, sizeT: nat)
    requires IsSizeT(sizeT)
    requires buf == [0xA3, 0x63] + KEY_CMD + [0x01, 0x63] + KEY_SEQ + [0x02, 0x64] + KEY_DATA
                    + [0x5B] + [0xFF, 0xFF, 0xFF, 0xFF, 0xFF, 0xFF, 0xFF, 0xFF]
    ensures TakeMap(buf, KEY_CMD, KEY_SEQ, depth, sizeT)
            == Yes(Taken(Some(1), Some(2), Some(View(25, (TWO_64 - 1) % sizeT))), 0)
  {
    assert ReadHead(buf, 0) == HeadAt(MT_MAP, 3, 1);
    hide TakeEntry;
    assert buf[2..5] == KEY_CMD && buf[7..10] == KEY_SEQ && buf[12..16] == KEY_DATA;
    CmdEntry(buf, depth, sizeT);
    SeqEntry(buf, depth, sizeT);
    DataEntry(buf, depth, sizeT);
    var f1 := NONE_TAKEN.(int1 := Some(1));
    var f2 := f1.(int2 := Some(2));
    var f3 := f2.(data := Some(View(25, (TWO_64 - 1) % sizeT)));
    ThreeEntries(buf, 1, 6, 11, 24, NONE_TAKEN, f1, f2, f3, depth, sizeT);
  }

  lemma ThreeEntries(buf: bytes, a: nat, b: nat, c: nat, d: nat, f0: Taken, f1: Taken, f2: Taken, f3: Taken,
                     depth: nat, sizeT: nat)
    requires sizeT > 0
    requires TakeEntry(buf, a, KEY_CMD, KEY_SEQ, f0, depth, sizeT) == Yes(f1, b)
    requires TakeEntry(buf, b, KEY_CMD, KEY_SEQ, f1, depth, sizeT) == Yes(f2, c)
    requires TakeEntry(buf, c, KEY_CMD, KEY_SEQ, f2, depth, sizeT) == Yes(f3, d)
    ensures TakeEntries(buf, a, 3, KEY_CMD, KEY_SEQ, f0, depth, sizeT) == Yes(f3, d)
  {
    hide TakeEntry;
    assert TakeEntries(buf, d, 0, KEY_CMD, KEY_SEQ, f3, depth, sizeT) == Yes(f3, d);
    assert TakeEntries(buf, c, 1, KEY_CMD, KEY_SEQ, f2, depth, sizeT) == Yes(f3, d);
    assert TakeEntries(buf, b, 2, KEY_CMD, KEY_SEQ, f1, depth, sizeT) == Yes(f3, d);
  }

  lemma CmdEntry(buf: bytes, depth: nat, sizeT: nat)
    requires |buf| == 25 && sizeT > 0 && buf[1] == 0x63 && buf[2..5] == KEY_CMD && buf[5] == 0x01
    ensures TakeEntry(buf, 1, KEY_CMD, KEY_SEQ, NONE_TAKEN, depth, sizeT) == Yes(NONE_TAKEN.(int1 := Some(1)), 6)
  {
    KeyAt(buf, 1, KEY_CMD, KEY_CMD);
    assert ReadUint32(buf, 5) == Got(1, 6);
  }

  lemma SeqEntry(buf: bytes, depth: nat, sizeT: nat)
    requires |buf| == 25 && sizeT > 0 && buf[6] == 0x63 && buf[7..10] == KEY_SEQ && buf[10] == 0x02
    ensures var f := NONE_TAKEN.(int1 := Some(1));
            TakeEntry(buf, 6, KEY_CMD, KEY_SEQ, f, depth, sizeT) == Yes(f.(int2 := Some(2)), 11)
  {
    assert KEY_SEQ[0] != KEY_CMD[0];
    KeyAt(buf, 6, KEY_SEQ, KEY_CMD);
    KeyAt(buf, 6, KEY_SEQ, KEY_SEQ);
    assert ReadUint32(buf, 10) == Got(2, 11);
  }

  lemma DataEntry(buf: bytes, depth: nat, sizeT: nat)
    requires |buf| == 25 && sizeT > 0 && buf[11] == 0x64 && buf[12..16] == KEY_DATA && buf[16] == 0x5B
    requires buf[17..25] == [0xFF, 0xFF, 0xFF, 0xFF, 0xFF, 0xFF, 0xFF, 0xFF]
    ensures var f := NONE_TAKEN.(int1 := Some(1), int2 := Some(2));
            TakeEntry(buf, 11, KEY_CMD, KEY_SEQ, f, depth, sizeT)
            == Yes(f.(data := Some(View(25, (TWO_64 - 1) % sizeT))), 24)
  {
    assert KEY_DATA[0] != KEY_CMD[0] && KEY_DATA[0] != KEY_SEQ[0];
    KeyAt(buf, 11, KEY_DATA, KEY_CMD);
    KeyAt(buf, 11, KEY_DATA, KEY_SEQ);
    KeyAt(buf, 11, KEY_DATA, KEY_DATA);
    WideHead(buf, 16, 0xFF);
  }

  /** The array that never returns as an unknown key: decoding it does not end either. */
  lemma UnknownKeyNeverReturns(buf: bytes, depth: nat, sizeT: nat)
    requires sizeT > 0
    requires buf == [0xA2, 0x82, 0x7B, 0xFF, 0xFF, 0xFF, 0xFF, 0xFF, 0xFF, 0xFF, 0xF6]
    ensures TakeMap(buf, KEY_CMD, KEY_SEQ, depth, sizeT) == Endless
  {
    assert ReadHead(buf, 0) == HeadAt(MT_MAP, 2, 1);
    assert ReadHead(buf, 1) == HeadAt(MT_ARRAY, 2, 2);
    assert buf[1..11] == [0x82, 0x7B, 0xFF, 0xFF, 0xFF, 0xFF, 0xFF, 0xFF, 0xFF, 0xF6];
    NeverReturns(buf, 1, depth);
    assert TakeEntry(buf, 1, KEY_CMD, KEY_SEQ, NONE_TAKEN, depth, sizeT) == Endless;
  }
}
