/**
 The request and response decoders with string bound tests that tell the
 truth; DecodeWritten has the code's own tests.
 */
module CborDecode {
  import opened Octets
  import opened Cbor
  import opened CborEmit

  /** The errors decode_map returns; `Wraps` marks a string bound test that wraps (see Cbor.Skip). */
  datatype DecodeError = EINVAL | ERANGE | ENOENT | Wraps

  datatype Fields = Fields(int1: Option<nat>, int2: Option<nat>, data: Option<bytes>)

  datatype Read<+T> = Got(value: T, next: nat) | Refused(e: DecodeError)

  const NOTHING := Fields(None, None, None)

  // ------------------------------------------------------------ typed readers

  /** match_tstr: the offset behind the text string `s`, if that is the next item. */
  function MatchTstr(buf: bytes, off: nat, s: bytes): (r: Option<nat>)
    ensures r.Some? ==> off < r.value <= |buf|
  {
    match ReadHead(buf, off)
    case NoHead => None
    case HeadAt(major, v, next) =>
      if major == MT_TSTR && v == |s| && next + |s| <= |buf| && buf[next..next + |s|] == s
      then Some(next + |s|) else None
  }

  function ReadUint32(buf: bytes, off: nat): (r: Read<nat>)
    ensures r.Got? ==> off < r.next <= |buf| && r.value < TWO_32
  {
    match ReadHead(buf, off)
    case NoHead => Refused(EINVAL)
    case HeadAt(major, v, next) =>
      if major != MT_UINT then Refused(EINVAL)
      else if v > 0xFFFF_FFFF then Refused(ERANGE)
      else Got(v, next)
  }

  function ReadBstr(buf: bytes, off: nat): (r: Read<bytes>)
    ensures r.Got? ==> off < r.next <= |buf|
  {
    match ReadHead(buf, off)
    case NoHead => Refused(EINVAL)
    case HeadAt(major, v, next) =>
      if major != MT_BSTR then Refused(EINVAL)
      else if next + v >= TWO_64 then Refused(Wraps)
      else if next + v > |buf| then Refused(EINVAL)
      else Got(buf[next..next + v], next + v)
  }

  function SkipTwo(buf: bytes, off: nat): (r: Read<()>)
    ensures r.Got? ==> off < r.next <= |buf|
  {
    match SkipItem(buf, off)
    case Malformed => Refused(EINVAL)
    case SumWraps => Refused(Wraps)
    case Skipped(mid) =>
      match SkipItem(buf, mid)
      case Malformed => Refused(EINVAL)
      case SumWraps => Refused(Wraps)
      case Skipped(next) => Got((), next)
  }

  // --------------------------------------------------------------- decode_map

  /** One turn of the entry loop: the fields after it and the offset behind the entry. */
  function DecodeEntry(buf: bytes, off: nat, n1: bytes, n2: bytes, f: Fields): (r: Read<Fields>)
    ensures r.Got? ==> off < r.next <= |buf|
  {
    var m1 := MatchTstr(buf, off, n1);
    if m1.Some? then
      match ReadUint32(buf, m1.value)
      case Refused(e) => Refused(e)
      case Got(v, next) => Got(f.(int1 := Some(v)), next)
    else
      var m2 := MatchTstr(buf, off, n2);
      if m2.Some? then
        match ReadUint32(buf, m2.value)
        case Refused(e) => Refused(e)
        case Got(v, next) => Got(f.(int2 := Some(v)), next)
      else
        var m3 := MatchTstr(buf, off, KEY_DATA);
        if m3.Some? then
          match ReadBstr(buf, m3.value)
          case Refused(e) => Refused(e)
          case Got(d, next) => Got(f.(data := Some(d)), next)
        else
          match SkipTwo(buf, off)
          case Refused(e) => Refused(e)
          case Got(_, next) => Got(f, next)
  }

  function DecodeEntries(buf: bytes, off: nat, n: nat, n1: bytes, n2: bytes, f: Fields): (r: Read<Fields>)
    decreases n
  {
    if n == 0 then Got(f, off)
    else
      match DecodeEntry(buf, off, n1, n2, f)
      case Refused(e) => Refused(e)
      case Got(f', next) => DecodeEntries(buf, next, n - 1, n1, n2, f')
  }

  function Finish(f: Fields): (r: Read<Fields>)
  {
    if f.int1.Some? && f.int2.Some? then Got(f, 0) else Refused(ENOENT)
  }

  function DecodeMap(buf: bytes, n1: bytes, n2: bytes): (r: Read<Fields>)
  {
    match ReadHead(buf, 0)
    case NoHead => Refused(EINVAL)
    case HeadAt(major, v, next) =>
      if major != MT_MAP || v < 2 || v > 3 then Refused(EINVAL)
      else
        match DecodeEntries(buf, next, v, n1, n2, NOTHING)
        case Refused(e) => Refused(e)
        case Got(f, _) => Finish(f)
  }

  // ------------------------------------------------- maps as lists of entries

  /** An entry of the map, in any head widths; `Other` is a pair under an unrecognised key. */
  datatype Entry =
    | First(kw: Width, vw: Width, v: nat)
    | Second(kw: Width, vw: Width, v: nat)
    | Data(kw: Width, vw: Width, d: bytes)
    | Other(key: Item, val: Item)

  ghost predicate IsText(it: Item, s: bytes)
  {
    it.Str? && it.text && it.s == s
  }

  ghost predicate ValidEntry(e: Entry, n1: bytes, n2: bytes)
  {
    match e
    case First(kw, vw, v) => Fits(kw, |n1|) && Fits(vw, v) && v < TWO_32
    case Second(kw, vw, v) => Fits(kw, |n2|) && Fits(vw, v) && v < TWO_32
    case Data(kw, vw, d) => Fits(kw, |KEY_DATA|) && Fits(vw, |d|)
    case Other(key, val) =>
      && WellFormed(key) && WellFormed(val)
      && !IsText(key, n1) && !IsText(key, n2) && !IsText(key, KEY_DATA)
  }

  ghost predicate DistinctNames(n1: bytes, n2: bytes)
  {
    n1 != n2 && n1 != KEY_DATA && n2 != KEY_DATA
  }

  ghost function KeyBytes(e: Entry, n1: bytes, n2: bytes): bytes
    requires ValidEntry(e, n1, n2)
  {
    match e
    case First(kw, _, _) => Enc(Str(true, kw, n1))
    case Second(kw, _, _) => Enc(Str(true, kw, n2))
    case Data(kw, _, _) => Enc(Str(true, kw, KEY_DATA))
    case Other(key, _) => Enc(key)
  }

  ghost function ValueBytes(e: Entry, n1: bytes, n2: bytes): bytes
    requires ValidEntry(e, n1, n2)
  {
    match e
    case First(_, vw, v) => Enc(UInt(vw, v))
    case Second(_, vw, v) => Enc(UInt(vw, v))
    case Data(_, vw, d) => Enc(Str(false, vw, d))
    case Other(_, val) => Enc(val)
  }

  ghost function EntryBytes(e: Entry, n1: bytes, n2: bytes): (r: bytes)
    requires ValidEntry(e, n1, n2)
  {
    KeyBytes(e, n1, n2) + ValueBytes(e, n1, n2)
  }

  ghost predicate AllValid(es: seq<Entry>, n1: bytes, n2: bytes)
  {
    forall i :: 0 <= i < |es| ==> ValidEntry(es[i], n1, n2)
  }

  ghost function EntriesBytes(es: seq<Entry>, n1: bytes, n2: bytes): (r: bytes)
    requires AllValid(es, n1, n2)
  {
    if es == [] then [] else EntryBytes(es[0], n1, n2) + EntriesBytes(es[1..], n1, n2)
  }

  /** What an entry contributes: a later entry under the same key replaces an earlier one. */
  ghost function Apply(e: Entry, f: Fields): (r: Fields)
  {
    match e
    case First(_, _, v) => f.(int1 := Some(v))
    case Second(_, _, v) => f.(int2 := Some(v))
    case Data(_, _, d) => f.(data := Some(d))
    case Other(_, _) => f
  }

  ghost function ApplyAll(es: seq<Entry>, f: Fields): (r: Fields)
  {
    if es == [] then f else ApplyAll(es[1..], Apply(es[0], f))
  }

  /** match_tstr recognises exactly the text string it is asked for. */
  lemma MatchTstrExact(buf: bytes, off: nat, key: Item, s: bytes)
    requires WellFormed(key) && At(buf, off, Enc(key)) && |buf| < TWO_64
    ensures MatchTstr(buf, off, s) == if IsText(key, s) then Some(off + |Enc(key)|) else None
  {
    match key
    case UInt(w, v) => ReadHeadOf(buf, off, MT_UINT, w, v);
    case Str(text, w, t) =>
      var m := if text then MT_TSTR else MT_BSTR;
      AtSplit(buf, off, HeadBytes(m, w, |t|), t);
      ReadHeadOf(buf, off, m, w, |t|);
    case Coll(isMap, w, items) =>
      var m := if isMap then MT_MAP else MT_ARRAY;
      var n := if isMap then |items| / 2 else |items|;
      AtSplit(buf, off, HeadBytes(m, w, n), EncAll(items));
      ReadHeadOf(buf, off, m, w, n);
  }

  lemma ReadUint32Of(buf: bytes, off: nat, w: Width, v: nat)
    requires Fits(w, v) && v < TWO_32 && At(buf, off, Enc(UInt(w, v)))
    ensures ReadUint32(buf, off) == Got(v, off + |Enc(UInt(w, v))|)
  {
    ReadHeadOf(buf, off, MT_UINT, w, v);
  }

  lemma ReadBstrOf(buf: bytes, off: nat, w: Width, d: bytes)
    requires Fits(w, |d|) && At(buf, off, Enc(Str(false, w, d))) && |buf| < TWO_64
    ensures ReadBstr(buf, off) == Got(d, off + |Enc(Str(false, w, d))|)
  {
    AtSplit(buf, off, HeadBytes(MT_BSTR, w, |d|), d);
    ReadHeadOf(buf, off, MT_BSTR, w, |d|);
  }

  /** The key of an entry is recognised as its own name and no other. */
  lemma KeyMatches(buf: bytes, off: nat, kw: Width, name: bytes, n1: bytes, n2: bytes)
    requires Fits(kw, |name|) && DistinctNames(n1, n2) && |buf| < TWO_64
    requires At(buf, off, Enc(Str(true, kw, name)))
    ensures var r := Some(off + |Enc(Str(true, kw, name))|);
            && MatchTstr(buf, off, n1) == (if name == n1 then r else None)
            && MatchTstr(buf, off, n2) == (if name == n2 then r else None)
            && MatchTstr(buf, off, KEY_DATA) == (if name == KEY_DATA then r else None)
  {
    var key := Str(true, kw, name);
    MatchTstrExact(buf, off, key, n1);
    MatchTstrExact(buf, off, key, n2);
    MatchTstrExact(buf, off, key, KEY_DATA);
  }

  lemma SkipTwoAt(buf: bytes, off: nat, mid: nat, next: nat)
    requires SkipItem(buf, off) == Skipped(mid) && SkipItem(buf, mid) == Skipped(next)
    ensures SkipTwo(buf, off) == Got((), next)
  {
  }

  lemma SkipTwoOf(buf: bytes, off: nat, key: Item, val: Item)
    requires WellFormed(key) && WellFormed(val) && |buf| < TWO_64
    requires At(buf, off, Enc(key)) && At(buf, off + |Enc(key)|, Enc(val))
    ensures SkipTwo(buf, off) == Got((), off + |Enc(key)| + |Enc(val)|)
  {
    hide SkipItem, Enc;
    var mid := off + |Enc(key)|;
    SkipComplete(buf, off, key);
    SkipComplete(buf, mid, val);
    SkipTwoAt(buf, off, mid, mid + |Enc(val)|);
  }

  lemma DecodeOtherOf(buf: bytes, off: nat, key: Item, val: Item, n1: bytes, n2: bytes, f: Fields)
    requires ValidEntry(Other(key, val), n1, n2) && |buf| < TWO_64
    requires At(buf, off, Enc(key)) && At(buf, off + |Enc(key)|, Enc(val))
    ensures DecodeEntry(buf, off, n1, n2, f) == Got(f, off + |Enc(key)| + |Enc(val)|)
  {
    SkipTwoOf(buf, off, key, val);
    assert MatchTstr(buf, off, n1).None? by { MatchTstrExact(buf, off, key, n1); }
    assert MatchTstr(buf, off, n2).None? by { MatchTstrExact(buf, off, key, n2); }
    assert MatchTstr(buf, off, KEY_DATA).None? by { MatchTstrExact(buf, off, key, KEY_DATA); }
  }

  lemma DecodeIntOf(buf: bytes, off: nat, second: bool, kw: Width, vw: Width, v: nat, n1: bytes, n2: bytes, f: Fields)
    requires DistinctNames(n1, n2) && |buf| < TWO_64
    requires Fits(kw, if second then |n2| else |n1|) && Fits(vw, v) && v < TWO_32
    requires var k := Enc(Str(true, kw, if second then n2 else n1));
             At(buf, off, k) && At(buf, off + |k|, Enc(UInt(vw, v)))
    ensures var k := Enc(Str(true, kw, if second then n2 else n1));
            DecodeEntry(buf, off, n1, n2, f)
            == Got(if second then f.(int2 := Some(v)) else f.(int1 := Some(v)), off + |k| + |Enc(UInt(vw, v))|)
  {
    hide MatchTstr, ReadUint32, ReadBstr, SkipTwo, Enc;
    var name := if second then n2 else n1;
    KeyMatches(buf, off, kw, name, n1, n2);
    ReadUint32Of(buf, off + |Enc(Str(true, kw, name))|, vw, v);
  }

  lemma DecodeDataOf(buf: bytes, off: nat, kw: Width, vw: Width, d: bytes, n1: bytes, n2: bytes, f: Fields)
    requires DistinctNames(n1, n2) && |buf| < TWO_64 && Fits(kw, |KEY_DATA|) && Fits(vw, |d|)
    requires var k := Enc(Str(true, kw, KEY_DATA)); At(buf, off, k) && At(buf, off + |k|, Enc(Str(false, vw, d)))
    ensures DecodeEntry(buf, off, n1, n2, f)
            == Got(f.(data := Some(d)), off + |Enc(Str(true, kw, KEY_DATA))| + |Enc(Str(false, vw, d))|)
  {
    hide MatchTstr, ReadUint32, ReadBstr, SkipTwo, Enc;
    KeyMatches(buf, off, kw, KEY_DATA, n1, n2);
    ReadBstrOf(buf, off + |Enc(Str(true, kw, KEY_DATA))|, vw, d);
  }

  lemma DecodeEntryOf(buf: bytes, off: nat, e: Entry, n1: bytes, n2: bytes, f: Fields)
    requires ValidEntry(e, n1, n2) && DistinctNames(n1, n2) && |buf| < TWO_64
    requires At(buf, off, EntryBytes(e, n1, n2))
    ensures DecodeEntry(buf, off, n1, n2, f) == Got(Apply(e, f), off + |EntryBytes(e, n1, n2)|)
  {
    AtSplit(buf, off, KeyBytes(e, n1, n2), ValueBytes(e, n1, n2));
    match e
    case First(kw, vw, v) => DecodeIntOf(buf, off, false, kw, vw, v, n1, n2, f);
    case Second(kw, vw, v) => DecodeIntOf(buf, off, true, kw, vw, v, n1, n2, f);
    case Data(kw, vw, d) => DecodeDataOf(buf, off, kw, vw, d, n1, n2, f);
    case Other(key, val) => DecodeOtherOf(buf, off, key, val, n1, n2, f);
  }

  lemma {:induction false} DecodeEntriesOf(buf: bytes, off: nat, es: seq<Entry>, n1: bytes, n2: bytes, f: Fields)
    requires AllValid(es, n1, n2)
    requires DistinctNames(n1, n2) && |buf| < TWO_64
    requires At(buf, off, EntriesBytes(es, n1, n2))
    ensures DecodeEntries(buf, off, |es|, n1, n2, f) == Got(ApplyAll(es, f), off + |EntriesBytes(es, n1, n2)|)
    decreases |es|
  {
    if es != [] {
      var b := EntryBytes(es[0], n1, n2);
      AtSplit(buf, off, b, EntriesBytes(es[1..], n1, n2));
      DecodeEntryOf(buf, off, es[0], n1, n2, f);
      DecodeEntriesOf(buf, off + |b|, es[1..], n1, n2, Apply(es[0], f));
    }
  }

  lemma MapHeadAt(buf: bytes, w: Width, n: nat, b: bytes)
    requires Fits(w, n) && At(buf, 0, HeadBytes(MT_MAP, w, n) + b)
    ensures ReadHead(buf, 0) == HeadAt(MT_MAP, n, 1 + Octs(w)) && At(buf, 1 + Octs(w), b)
  {
    AtSplit(buf, 0, HeadBytes(MT_MAP, w, n), b);
    ReadHeadOf(buf, 0, MT_MAP, w, n);
  }

  lemma DecodeMapAt(buf: bytes, v: nat, next: nat, n1: bytes, n2: bytes, f: Fields, end: nat)
    requires ReadHead(buf, 0) == HeadAt(MT_MAP, v, next) && 2 <= v <= 3
    requires DecodeEntries(buf, next, v, n1, n2, NOTHING) == Got(f, end)
    ensures DecodeMap(buf, n1, n2) == Finish(f)
  {
  }

  /**
   Any two- or three-entry map decodes to the fields of its entries: unknown
   keys and their values are skipped, head widths do not matter, octets behind
   the map are ignored.
   */
  lemma DecodesToItsEntries(buf: bytes, w: Width, es: seq<Entry>, n1: bytes, n2: bytes)
    requires 2 <= |es| <= 3 && Fits(w, |es|) && AllValid(es, n1, n2) && DistinctNames(n1, n2)
    requires |buf| < TWO_64 && At(buf, 0, HeadBytes(MT_MAP, w, |es|) + EntriesBytes(es, n1, n2))
    ensures DecodeMap(buf, n1, n2) == Finish(ApplyAll(es, NOTHING))
  {
    var next, b := 1 + Octs(w), EntriesBytes(es, n1, n2);
    MapHeadAt(buf, w, |es|, b);
    DecodeEntriesOf(buf, next, es, n1, n2, NOTHING);
    DecodeMapAt(buf, |es|, next, n1, n2, ApplyAll(es, NOTHING), next + |b|);
  }

  // ----------------------------------------------------------------- soundness

  lemma ReadUint32Sound(buf: bytes, off: nat) returns (w: Width)
    requires ReadUint32(buf, off).Got?
    ensures var r := ReadUint32(buf, off);
            Fits(w, r.value) && At(buf, off, Enc(UInt(w, r.value))) && r.next == off + |Enc(UInt(w, r.value))|
  {
    hide ReadHead, HeadBytes;
    w := ReadHeadInv(buf, off);
  }

  lemma ReadBstrSound(buf: bytes, off: nat) returns (w: Width)
    requires ReadBstr(buf, off).Got?
    ensures var r := ReadBstr(buf, off);
            Fits(w, |r.value|) && At(buf, off, Enc(Str(false, w, r.value))) && r.next == off + |Enc(Str(false, w, r.value))|
  {
    hide ReadHead, HeadBytes;
    w := ReadHeadInv(buf, off);
    var h := ReadHead(buf, off);
    AtSplit(buf, off, HeadBytes(MT_BSTR, w, h.val), buf[h.next..h.next + h.val]);
  }

  lemma MatchTstrSound(buf: bytes, off: nat, s: bytes) returns (w: Width)
    requires MatchTstr(buf, off, s).Some?
    ensures Fits(w, |s|) && At(buf, off, Enc(Str(true, w, s))) && MatchTstr(buf, off, s).value == off + |Enc(Str(true, w, s))|
  {
    hide ReadHead, HeadBytes;
    w := ReadHeadInv(buf, off);
    var h := ReadHead(buf, off);
    AtSplit(buf, off, HeadBytes(MT_TSTR, w, h.val), s);
  }

  /** Two items one after the other, under a key that is none of the recognised ones. */
  lemma OtherSound(buf: bytes, off: nat, n1: bytes, n2: bytes) returns (e: Entry)
    requires |buf| < TWO_64 && SkipTwo(buf, off).Got?
    requires MatchTstr(buf, off, n1).None? && MatchTstr(buf, off, n2).None? && MatchTstr(buf, off, KEY_DATA).None?
    ensures e.Other? && ValidEntry(e, n1, n2) && At(buf, off, EntryBytes(e, n1, n2))
    ensures SkipTwo(buf, off).next == off + |EntryBytes(e, n1, n2)|
  {
    hide MatchTstr, SkipItem;
    var key := SkipSound(buf, off);
    var val := SkipSound(buf, SkipItem(buf, off).next);
    MatchTstrExact(buf, off, key, n1);
    MatchTstrExact(buf, off, key, n2);
    MatchTstrExact(buf, off, key, KEY_DATA);
    e := Other(key, val);
    AtSplit(buf, off, Enc(key), Enc(val));
  }

  /** Whatever an entry decodes as, such an entry is there. */
  lemma DecodeEntrySound(buf: bytes, off: nat, n1: bytes, n2: bytes, f: Fields) returns (e: Entry)
    requires |buf| < TWO_64 && DecodeEntry(buf, off, n1, n2, f).Got?
    ensures ValidEntry(e, n1, n2) && At(buf, off, EntryBytes(e, n1, n2))
    ensures DecodeEntry(buf, off, n1, n2, f) == Got(Apply(e, f), off + |EntryBytes(e, n1, n2)|)
  {
    hide MatchTstr, ReadUint32, ReadBstr, SkipTwo, Enc, At;
    var m1, m2, m3 := MatchTstr(buf, off, n1), MatchTstr(buf, off, n2), MatchTstr(buf, off, KEY_DATA);
    if m1.Some? {
      var kw := MatchTstrSound(buf, off, n1);
      var vw := ReadUint32Sound(buf, m1.value);
      e := First(kw, vw, ReadUint32(buf, m1.value).value);
    } else if m2.Some? {
      var kw := MatchTstrSound(buf, off, n2);
      var vw := ReadUint32Sound(buf, m2.value);
      e := Second(kw, vw, ReadUint32(buf, m2.value).value);
    } else if m3.Some? {
      var kw := MatchTstrSound(buf, off, KEY_DATA);
      var vw := ReadBstrSound(buf, m3.value);
      e := Data(kw, vw, ReadBstr(buf, m3.value).value);
    } else {
      e := OtherSound(buf, off, n1, n2);
    }
    AtSplit(buf, off, KeyBytes(e, n1, n2), ValueBytes(e, n1, n2));
  }

  lemma {:induction false} DecodeEntriesSound(buf: bytes, off: nat, n: nat, n1: bytes, n2: bytes, f: Fields)
    returns (es: seq<Entry>)
    requires |buf| < TWO_64 && off <= |buf| && DecodeEntries(buf, off, n, n1, n2, f).Got?
    ensures |es| == n && AllValid(es, n1, n2) && At(buf, off, EntriesBytes(es, n1, n2))
    ensures DecodeEntries(buf, off, n, n1, n2, f).value == ApplyAll(es, f)
    decreases n
  {
    hide DecodeEntry, EntryBytes;
    if n == 0 {
      es := [];
    } else {
      var e := DecodeEntrySound(buf, off, n1, n2, f);
      var next := DecodeEntry(buf, off, n1, n2, f).next;
      var rest := DecodeEntriesSound(buf, next, n - 1, n1, n2, Apply(e, f));
      es := [e] + rest;
      assert es[1..] == rest;
      AtSplit(buf, off, EntryBytes(e, n1, n2), EntriesBytes(rest, n1, n2));
    }
  }

  /** Whatever decode_map accepts is a map of valid entries, and the result is those entries applied in order. */
  lemma DecodeSound(buf: bytes, n1: bytes, n2: bytes) returns (w: Width, es: seq<Entry>)
    requires |buf| < TWO_64 && DecodeMap(buf, n1, n2).Got?
    ensures 2 <= |es| <= 3 && Fits(w, |es|) && AllValid(es, n1, n2)
    ensures At(buf, 0, HeadBytes(MT_MAP, w, |es|) + EntriesBytes(es, n1, n2))
    ensures DecodeMap(buf, n1, n2) == Got(ApplyAll(es, NOTHING), 0)
  {
    hide ReadHead, HeadBytes, DecodeEntries;
    var h := ReadHead(buf, 0);
    w := ReadHeadInv(buf, 0);
    es := DecodeEntriesSound(buf, h.next, h.val, n1, n2, NOTHING);
    AtSplit(buf, 0, HeadBytes(MT_MAP, w, |es|), EntriesBytes(es, n1, n2));
  }

  // ------------------------------------------------------- order independence

  /** A key and its value, of any head widths. */
  datatype KeyValue = KeyValue(key: Item, val: Item)

  ghost predicate AllPairsFormed(ps: seq<KeyValue>)
  {
    forall i :: 0 <= i < |ps| ==> WellFormed(ps[i].key) && WellFormed(ps[i].val)
  }

  ghost function PairBytes(p: KeyValue): (r: bytes)
    requires WellFormed(p.key) && WellFormed(p.val)
  {
    Enc(p.key) + Enc(p.val)
  }

  ghost function PairsBytes(ps: seq<KeyValue>): (r: bytes)
    requires AllPairsFormed(ps)
  {
    if ps == [] then [] else PairBytes(ps[0]) + PairsBytes(ps[1..])
  }

  /** What a pair is to the decoder, whatever its head widths; `Wrong` is a recognised key with an unfit value, and the error for it. */
  datatype Meaning = FirstIs(v: nat) | SecondIs(v: nat) | DataIs(d: bytes) | Ignored | Wrong(e: DecodeError)

  ghost function Means(p: KeyValue, n1: bytes, n2: bytes): (m: Meaning)
  {
    if (IsText(p.key, n1) || IsText(p.key, n2)) && !p.val.UInt? then Wrong(EINVAL)
    else if (IsText(p.key, n1) || IsText(p.key, n2)) && p.val.v >= TWO_32 then Wrong(ERANGE)
    else if IsText(p.key, n1) then FirstIs(p.val.v)
    else if IsText(p.key, n2) then SecondIs(p.val.v)
    else if IsText(p.key, KEY_DATA) then (if p.val.Str? && !p.val.text then DataIs(p.val.s) else Wrong(EINVAL))
    else Ignored
  }

  ghost function Meanings(ps: seq<KeyValue>, n1: bytes, n2: bytes): (ms: seq<Meaning>)
    ensures |ms| == |ps| && forall i :: 0 <= i < |ps| ==> ms[i] == Means(ps[i], n1, n2)
  {
    seq(|ps|, i requires 0 <= i < |ps| => Means(ps[i], n1, n2))
  }

  ghost function Mean(m: Meaning, f: Fields): (r: Fields)
  {
    match m
    case FirstIs(v) => f.(int1 := Some(v))
    case SecondIs(v) => f.(int2 := Some(v))
    case DataIs(d) => f.(data := Some(d))
    case _ => f
  }

  ghost function MeanAll(ms: seq<Meaning>, f: Fields): (r: Fields)
  {
    if ms == [] then f else MeanAll(ms[1..], Mean(ms[0], f))
  }

  /** The error of the first wrong pair. */
  ghost function FirstWrong(ms: seq<Meaning>): (e: Option<DecodeError>)
    ensures e.None? <==> forall i :: 0 <= i < |ms| ==> !ms[i].Wrong?
  {
    if ms == [] then None else if ms[0].Wrong? then Some(ms[0].e) else FirstWrong(ms[1..])
  }

  lemma WrongInt(buf: bytes, off: nat, val: Item)
    requires WellFormed(val) && At(buf, off, Enc(val)) && |buf| < TWO_64 && !(val.UInt? && val.v < TWO_32)
    ensures ReadUint32(buf, off) == Refused(if val.UInt? then ERANGE else EINVAL)
  {
    HeadOf(buf, off, val);
  }

  lemma WrongData(buf: bytes, off: nat, val: Item)
    requires WellFormed(val) && At(buf, off, Enc(val)) && |buf| < TWO_64 && !(val.Str? && !val.text)
    ensures ReadBstr(buf, off) == Refused(EINVAL)
  {
    HeadOf(buf, off, val);
  }

  /** The head an item begins with. */
  lemma HeadOf(buf: bytes, off: nat, it: Item)
    requires WellFormed(it) && At(buf, off, Enc(it)) && |buf| < TWO_64
    ensures var h := ReadHead(buf, off);
            && h.HeadAt?
            && (h.major == MT_UINT <==> it.UInt?) && (it.UInt? ==> h.val == it.v)
            && (h.major == MT_BSTR ==> it.Str? && !it.text)
  {
    hide ReadHead;
    match it
    case UInt(w, v) => ReadHeadOf(buf, off, MT_UINT, w, v);
    case Str(text, w, t) =>
      var m := if text then MT_TSTR else MT_BSTR;
      AtSplit(buf, off, HeadBytes(m, w, |t|), t);
      ReadHeadOf(buf, off, m, w, |t|);
    case Coll(isMap, w, items) =>
      var m := if isMap then MT_MAP else MT_ARRAY;
      var n := if isMap then |items| / 2 else |items|;
      AtSplit(buf, off, HeadBytes(m, w, n), EncAll(items));
      ReadHeadOf(buf, off, m, w, n);
  }

  /** A pair with a fit value, as an entry. */
  lemma PairIsEntry(p: KeyValue, n1: bytes, n2: bytes) returns (e: Entry)
    requires WellFormed(p.key) && WellFormed(p.val) && !Means(p, n1, n2).Wrong? && DistinctNames(n1, n2)
    ensures ValidEntry(e, n1, n2) && EntryBytes(e, n1, n2) == PairBytes(p)
    ensures forall f :: Apply(e, f) == Mean(Means(p, n1, n2), f)
  {
    if IsText(p.key, n1) {
      e := First(p.key.w, p.val.w, p.val.v);
    } else if IsText(p.key, n2) {
      e := Second(p.key.w, p.val.w, p.val.v);
    } else if IsText(p.key, KEY_DATA) {
      e := Data(p.key.w, p.val.w, p.val.s);
    } else {
      e := Other(p.key, p.val);
    }
  }

  /** Any well-formed pair is decoded by its meaning, and refused exactly when that is wrong. */
  lemma DecodePairOf(buf: bytes, off: nat, p: KeyValue, n1: bytes, n2: bytes, f: Fields)
    requires WellFormed(p.key) && WellFormed(p.val) && DistinctNames(n1, n2) && |buf| < TWO_64
    requires At(buf, off, PairBytes(p))
    ensures var m, r := Means(p, n1, n2), DecodeEntry(buf, off, n1, n2, f);
            if m.Wrong? then r == Refused(m.e) else r == Got(Mean(m, f), off + |PairBytes(p)|)
  {
    hide MatchTstr, ReadUint32, ReadBstr, SkipTwo, Enc;
    if !Means(p, n1, n2).Wrong? {
      var e := PairIsEntry(p, n1, n2);
      DecodeEntryOf(buf, off, e, n1, n2, f);
    } else {
      AtSplit(buf, off, Enc(p.key), Enc(p.val));
      MatchTstrExact(buf, off, p.key, n1);
      MatchTstrExact(buf, off, p.key, n2);
      MatchTstrExact(buf, off, p.key, KEY_DATA);
      var mid := off + |Enc(p.key)|;
      if IsText(p.key, n1) || IsText(p.key, n2) {
        WrongInt(buf, mid, p.val);
      } else {
        WrongData(buf, mid, p.val);
      }
    }
  }

  lemma {:induction false} DecodePairsOf(buf: bytes, off: nat, ps: seq<KeyValue>, n1: bytes, n2: bytes, f: Fields)
    requires AllPairsFormed(ps) && DistinctNames(n1, n2) && |buf| < TWO_64 && At(buf, off, PairsBytes(ps))
    ensures var ms, r := Meanings(ps, n1, n2), DecodeEntries(buf, off, |ps|, n1, n2, f);
            if FirstWrong(ms).Some? then r == Refused(FirstWrong(ms).value) else r.Got? && r.value == MeanAll(ms, f)
    decreases |ps|
  {
    hide DecodeEntry, PairBytes, Means, Mean;
    if ps != [] {
      AtSplit(buf, off, PairBytes(ps[0]), PairsBytes(ps[1..]));
      DecodePairOf(buf, off, ps[0], n1, n2, f);
      var ms := Meanings(ps, n1, n2);
      assert ms[1..] == Meanings(ps[1..], n1, n2);
      if !ms[0].Wrong? {
        DecodePairsOf(buf, off + |PairBytes(ps[0])|, ps[1..], n1, n2, Mean(ms[0], f));
      }
    }
  }

  /**
   Any map of two or three well-formed pairs: refused with the error of the first wrong value, or as
   incomplete when one of the numbers is missing, otherwise decoded by its meanings.
   */
  lemma {:induction false} DecodesByMeaning(buf: bytes, w: Width, ps: seq<KeyValue>, n1: bytes, n2: bytes)
    requires 2 <= |ps| <= 3 && Fits(w, |ps|) && AllPairsFormed(ps) && DistinctNames(n1, n2) && |buf| < TWO_64
    requires At(buf, 0, HeadBytes(MT_MAP, w, |ps|) + PairsBytes(ps))
    ensures var ms, r := Meanings(ps, n1, n2), DecodeMap(buf, n1, n2);
            var f := MeanAll(ms, NOTHING);
            r == if FirstWrong(ms).Some? then Refused(FirstWrong(ms).value)
                 else if f.int1.None? || f.int2.None? then Refused(ENOENT) else Got(f, 0)
  {
    hide DecodeEntries, ReadHead, PairsBytes, MeanAll;
    MapHeadAt(buf, w, |ps|, PairsBytes(ps));
    DecodePairsOf(buf, 1 + Octs(w), ps, n1, n2, NOTHING);
  }

  /** No two pairs are under the same recognised key. */
  ghost predicate DistinctKeys(ms: seq<Meaning>)
  {
    forall i, j :: 0 <= i < j < |ms| ==>
      && !(ms[i].FirstIs? && ms[j].FirstIs?)
      && !(ms[i].SecondIs? && ms[j].SecondIs?)
      && !(ms[i].DataIs? && ms[j].DataIs?)
  }

  lemma {:induction false} MeanAllFields(ms: seq<Meaning>, f: Fields)
    requires DistinctKeys(ms)
    ensures var r := MeanAll(ms, f);
            && (forall m :: m in ms && m.FirstIs? ==> r.int1 == Some(m.v))
            && ((forall m :: m in ms ==> !m.FirstIs?) ==> r.int1 == f.int1)
            && (forall m :: m in ms && m.SecondIs? ==> r.int2 == Some(m.v))
            && ((forall m :: m in ms ==> !m.SecondIs?) ==> r.int2 == f.int2)
            && (forall m :: m in ms && m.DataIs? ==> r.data == Some(m.d))
            && ((forall m :: m in ms ==> !m.DataIs?) ==> r.data == f.data)
    decreases |ms|
  {
    if ms != [] {
      var t := ms[1..];
      assert forall i :: 0 <= i < |t| ==> t[i] == ms[i + 1];
      assert forall m :: m in ms <==> m == ms[0] || m in t;
      MeanAllFields(t, Mean(ms[0], f));
    }
  }

  lemma {:induction false} MeantInAnyOrder(ms: seq<Meaning>, ms': seq<Meaning>)
    requires multiset(ms) == multiset(ms') && DistinctKeys(ms) && DistinctKeys(ms')
    ensures MeanAll(ms, NOTHING) == MeanAll(ms', NOTHING)
  {
    MeanAllFields(ms, NOTHING);
    MeanAllFields(ms', NOTHING);
    assert forall m :: m in ms <==> m in multiset(ms);
    assert forall m :: m in ms' <==> m in multiset(ms');
    if m :| m in ms && m.FirstIs? { assert m in ms'; }
    if m :| m in ms && m.SecondIs? { assert m in ms'; }
    if m :| m in ms && m.DataIs? { assert m in ms'; }
  }

  lemma {:induction false} SameWrongs(ms: seq<Meaning>, ms': seq<Meaning>)
    requires multiset(ms) == multiset(ms') && FirstWrong(ms).Some?
    ensures FirstWrong(ms').Some?
  {
    var i :| 0 <= i < |ms| && ms[i].Wrong?;
    assert ms[i] in multiset(ms');
  }

  /**
   Two maps of well-formed pairs that mean the same, in any two orders and with any widths of any heads:
   one is accepted exactly when the other is, and then with the same fields.
   */
  lemma {:induction false} OrderIrrelevant(a: bytes, wa: Width, ps: seq<KeyValue>, b: bytes, wb: Width, ps': seq<KeyValue>,
                                           n1: bytes, n2: bytes)
    requires 2 <= |ps| <= 3 && Fits(wa, |ps|) && AllPairsFormed(ps) && |a| < TWO_64 && DistinctNames(n1, n2)
    requires 2 <= |ps'| <= 3 && Fits(wb, |ps'|) && AllPairsFormed(ps') && |b| < TWO_64
    requires At(a, 0, HeadBytes(MT_MAP, wa, |ps|) + PairsBytes(ps))
    requires At(b, 0, HeadBytes(MT_MAP, wb, |ps'|) + PairsBytes(ps'))
    requires multiset(Meanings(ps, n1, n2)) == multiset(Meanings(ps', n1, n2))
    requires DistinctKeys(Meanings(ps, n1, n2)) && DistinctKeys(Meanings(ps', n1, n2))
    ensures var r, r' := DecodeMap(a, n1, n2), DecodeMap(b, n1, n2);
            (r.Got? <==> r'.Got?) && (r.Got? ==> r == r')
  {
    hide DecodeMap, PairsBytes, HeadBytes, MeanAll, Means;
    var ms, ms' := Meanings(ps, n1, n2), Meanings(ps', n1, n2);
    DecodesByMeaning(a, wa, ps, n1, n2);
    DecodesByMeaning(b, wb, ps', n1, n2);
    if FirstWrong(ms).Some? { SameWrongs(ms, ms'); }
    if FirstWrong(ms').Some? { SameWrongs(ms', ms); }
    MeantInAnyOrder(ms, ms');
  }

  // --------------------------------------------------------------- round trip

  lemma ApplyTwo(a: Entry, b: Entry, f: Fields)
    ensures ApplyAll([a], f) == Apply(a, f)
    ensures ApplyAll([a, b], f) == Apply(b, Apply(a, f))
  {
    assert [a][1..] == [] && [b][1..] == [] && [a, b][1..] == [b];
    assert ApplyAll([b], Apply(a, f)) == ApplyAll([], Apply(b, Apply(a, f)));
  }

  lemma EntriesTwo(a: Entry, b: Entry, n1: bytes, n2: bytes)
    requires ValidEntry(a, n1, n2) && ValidEntry(b, n1, n2)
    ensures EntriesBytes([a, b], n1, n2) == EntryBytes(a, n1, n2) + EntryBytes(b, n1, n2)
  {
    assert [b][1..] == [] && [a, b][1..] == [b];
    assert EntriesBytes([b], n1, n2) == EntryBytes(b, n1, n2) + [];
  }

  lemma EntriesThree(a: Entry, b: Entry, c: Entry, n1: bytes, n2: bytes, f: Fields)
    requires ValidEntry(a, n1, n2) && ValidEntry(b, n1, n2) && ValidEntry(c, n1, n2)
    ensures EntriesBytes([a, b, c], n1, n2)
            == EntryBytes(a, n1, n2) + EntryBytes(b, n1, n2) + EntryBytes(c, n1, n2)
    ensures ApplyAll([a, b, c], f) == Apply(c, Apply(b, Apply(a, f)))
  {
    assert [a, b, c][1..] == [b, c];
    EntriesTwo(b, c, n1, n2);
    ApplyTwo(b, c, Apply(a, f));
  }

  lemma CanonicalEntries(k1: bytes, v1: nat, k2: bytes, v2: nat, data: bytes) returns (e1: Entry, e2: Entry, e3: Entry)
    requires |k1| < TWO_32 && |k2| < TWO_32 && v1 < TWO_32 && v2 < TWO_32 && |data| < TWO_64
    ensures e1.First? && e1.v == v1 && ValidEntry(e1, k1, k2)
    ensures e2.Second? && e2.v == v2 && ValidEntry(e2, k1, k2)
    ensures e3.Data? && e3.d == data && ValidEntry(e3, k1, k2)
    ensures EntryBytes(e1, k1, k2) == TStr(k1) + Head(MT_UINT, v1)
    ensures EntryBytes(e2, k1, k2) == TStr(k2) + Head(MT_UINT, v2)
    ensures EntryBytes(e3, k1, k2) == TStr(KEY_DATA) + BStr(data)
  {
    ShortestFits(|k1|); ShortestFits(|k2|); ShortestFits(v1); ShortestFits(v2);
    ShortestFits(|data|); ShortestFits(|KEY_DATA|);
    e1 := First(Shortest(|k1|), Shortest(v1), v1);
    e2 := Second(Shortest(|k2|), Shortest(v2), v2);
    e3 := Data(Shortest(|KEY_DATA|), Shortest(|data|), data);
  }

  lemma MapBytesAsEntries(k1: bytes, v1: nat, k2: bytes, v2: nat, data: bytes) returns (es: seq<Entry>)
    requires |k1| < TWO_32 && |k2| < TWO_32 && v1 < TWO_32 && v2 < TWO_32 && |data| < TWO_64
    ensures |es| == if data == [] then 2 else 3
    ensures AllValid(es, k1, k2)
    ensures MapBytes(k1, v1, k2, v2, data) == HeadBytes(MT_MAP, Immediate, |es|) + EntriesBytes(es, k1, k2)
    ensures ApplyAll(es, NOTHING) == Fields(Some(v1), Some(v2), if data == [] then None else Some(data))
  {
    hide EntryBytes, TStr, BStr;
    var e1, e2, e3 := CanonicalEntries(k1, v1, k2, v2, data);
    if data == [] {
      es := [e1, e2];
      EntriesTwo(e1, e2, k1, k2);
      ApplyTwo(e1, e2, NOTHING);
    } else {
      es := [e1, e2, e3];
      EntriesThree(e1, e2, e3, k1, k2, NOTHING);
    }
    var h, b1, b2 := Head(MT_MAP, |es|), EntryBytes(e1, k1, k2), EntryBytes(e2, k1, k2);
    assert h + b1 + b2 == h + (b1 + b2);
    if data != [] {
      assert h + b1 + b2 + EntryBytes(e3, k1, k2) == h + (b1 + b2 + EntryBytes(e3, k1, k2));
    }
  }

  lemma MapRoundTrip(k1: bytes, v1: nat, k2: bytes, v2: nat, data: bytes)
    requires |k1| < TWO_32 && |k2| < TWO_32 && v1 < TWO_32 && v2 < TWO_32
    requires DistinctNames(k1, k2) && |data| < TWO_64 && |MapBytes(k1, v1, k2, v2, data)| < TWO_64
    ensures DecodeMap(MapBytes(k1, v1, k2, v2, data), k1, k2)
            == Got(Fields(Some(v1), Some(v2), if data == [] then None else Some(data)), 0)
  {
    var es := MapBytesAsEntries(k1, v1, k2, v2, data);
    var m := MapBytes(k1, v1, k2, v2, data);
    assert m[0..|m|] == m;
    DecodesToItsEntries(m, Immediate, es, k1, k2);
  }

  /** cantil_cbor_decode_request inverts cantil_cbor_encode_request. */
  lemma RequestRoundTrip(cmd: nat, seqNo: nat, data: bytes)
    requires cmd < TWO_32 && seqNo < TWO_32 && |data| < TWO_32
    ensures DecodeMap(MapBytes(KEY_CMD, cmd, KEY_SEQ, seqNo, data), KEY_CMD, KEY_SEQ)
            == Got(Fields(Some(cmd), Some(seqNo), if data == [] then None else Some(data)), 0)
  {
    assert KEY_CMD[0] != KEY_SEQ[0];
    MapRoundTrip(KEY_CMD, cmd, KEY_SEQ, seqNo, data);
  }

  /** cantil_cbor_decode_response inverts cantil_cbor_encode_response. */
  lemma ResponseRoundTrip(err: nat, seqNo: nat, data: bytes)
    requires err < TWO_32 && seqNo < TWO_32 && |data| < TWO_32
    ensures DecodeMap(MapBytes(KEY_ERR, err, KEY_SEQ, seqNo, data), KEY_ERR, KEY_SEQ)
            == Got(Fields(Some(err), Some(seqNo), if data == [] then None else Some(data)), 0)
  {
    assert KEY_ERR[0] != KEY_SEQ[0];
    MapRoundTrip(KEY_ERR, err, KEY_SEQ, seqNo, data);
  }

  /** A status request as it goes over the wire: { "cmd": 48, "seq": 1 }. */
  lemma RequestExample()
    ensures MapBytes(KEY_CMD, 0x30, KEY_SEQ, 1, [])
         == [0xA2, 0x63, 0x63, 0x6D, 0x64, 0x18, 0x30, 0x63, 0x73, 0x65, 0x71, 0x01]
  {
    assert ToBE(0x30, 1) == ToBE(0, 0) + [0x30];
    assert Head(MT_UINT, 0x30) == [0x18, 0x30] && Head(MT_UINT, 1) == [0x01];
    assert Head(MT_TSTR, 3) == [0x63] && Head(MT_MAP, 2) == [0xA2];
  }

  /** And the answer with two octets of data: { "err": 0, "seq": 1, "data": h'0102' }. */
  lemma ResponseExample()
    ensures MapBytes(KEY_ERR, 0, KEY_SEQ, 1, [1, 2])
         == [0xA3, 0x63, 0x65, 0x72, 0x72, 0x00, 0x63, 0x73, 0x65, 0x71, 0x01, 0x64, 0x64, 0x61, 0x74, 0x61, 0x42, 0x01, 0x02]
  {
    assert Head(MT_UINT, 0) == [0x00] && Head(MT_UINT, 1) == [0x01];
    assert Head(MT_TSTR, 3) == [0x63] && Head(MT_TSTR, 4) == [0x64] && Head(MT_MAP, 3) == [0xA3] && Head(MT_BSTR, 2) == [0x42];
  }
}
