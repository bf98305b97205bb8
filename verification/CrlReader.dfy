/** A reader for CertificateList (section 5.1 of RFC 5280) and what it makes of the encoder's output. */
module CrlReader {
  import opened Octets
  import opened Der
  import opened Calendar
  import opened Crl

  datatype Revoked = Revoked(serial: nat, at: int)

  datatype Parsed = Parsed(version: nat, issuer: bytes, thisUpdate: int, nextUpdate: int, revoked: seq<Revoked>,
                           number: nat, tbs: bytes, r: nat, s: nat)

  /** The next element, which must carry `tag`. */
  function Expect(s: bytes, tag: byte): (r: Option<Element>)
    ensures r.Some? ==> |r.value.rest| < |s|
  {
    var e := ReadTlv(s);
    if e.Some? && e.value.tag == tag then e else None
  }

  datatype TimeRead = TimeRead(at: int, rest: bytes)

  function NextTime(s: bytes): (r: Option<TimeRead>)
  {
    match ReadTlv(s)
    case None => None
    case Some(e) =>
      match ReadTime(e.tag, e.content)
      case None => None
      case Some(at) => Some(TimeRead(at, e.rest))
  }

  /** userCertificate and revocationDate. */
  function ReadEntry(content: bytes): (r: Option<Revoked>)
  {
    match Expect(content, TAG_INTEGER)
    case None => None
    case Some(e) =>
      match (ReadInt(e.content), NextTime(e.rest))
      case (Some(n), Some(t)) => if t.rest == [] then Some(Revoked(n, t.at)) else None
      case _ => None
  }

  function ReadEntries(s: bytes): (r: Option<seq<Revoked>>)
    decreases |s|
  {
    if s == [] then Some([])
    else
      match Expect(s, TAG_SEQUENCE)
      case None => None
      case Some(e) =>
        match (ReadEntry(e.content), ReadEntries(e.rest))
        case (Some(x), Some(xs)) => Some([x] + xs)
        case _ => None
  }

  /** The cRLNumber among the extensions; a critical flag may precede a value. */
  function ReadNumber(s: bytes): (r: Option<nat>)
    decreases |s|
  {
    match Expect(s, TAG_SEQUENCE)
    case None => None
    case Some(ext) =>
      match Expect(ext.content, TAG_OID)
      case None => None
      case Some(oid) =>
        if oid.content != OID_CRL_NUMBER then ReadNumber(ext.rest)
        else
          var critical := Expect(oid.rest, 0x01);
          match Expect(if critical.Some? then critical.value.rest else oid.rest, TAG_OCTET_STRING)
          case None => None
          case Some(v) =>
            match Expect(v.content, TAG_INTEGER)
            case None => None
            case Some(n) => if v.rest == [] && n.rest == [] then ReadInt(n.content) else None
  }

  function ReadExtensions(s: bytes): (r: Option<nat>)
  {
    match Expect(s, TAG_CONTEXT_0)
    case None => None
    case Some(c) =>
      match Expect(c.content, TAG_SEQUENCE)
      case None => None
      case Some(exts) => if c.rest == [] && exts.rest == [] then ReadNumber(exts.content) else None
  }

  datatype Body = Body(revoked: seq<Revoked>, number: nat)

  /** revokedCertificates, which may be absent, and crlExtensions. */
  function ReadBody(s: bytes): (r: Option<Body>)
  {
    var list := Expect(s, TAG_SEQUENCE);
    match (if list.Some? then ReadEntries(list.value.content) else Some([]),
           ReadExtensions(if list.Some? then list.value.rest else s))
    case (Some(xs), Some(n)) => Some(Body(xs, n))
    case _ => None
  }

  datatype Dated = Dated(thisUpdate: int, nextUpdate: int, body: Body)

  function ReadDatesOn(s: bytes): (r: Option<Dated>)
  {
    match NextTime(s)
    case None => None
    case Some(t1) =>
      match NextTime(t1.rest)
      case None => None
      case Some(t2) =>
        match ReadBody(t2.rest)
        case None => None
        case Some(b) => Some(Dated(t1.at, t2.at, b))
  }

  datatype Tbs = Tbs(issuer: bytes, dated: Dated)

  /** The content of a version 2 TBSCertList signed with ecdsa-with-SHA256. */
  function ReadTbs(content: bytes): (r: Option<Tbs>)
  {
    match Expect(content, TAG_INTEGER)
    case None => None
    case Some(v) =>
      if ReadInt(v.content) != Some(1) then None
      else
        match Expect(v.rest, TAG_SEQUENCE)
        case None => None
        case Some(alg) =>
          if alg.content != Tlv(TAG_OID, OID_ECDSA_SHA256) then None
          else
            match Expect(alg.rest, TAG_SEQUENCE)
            case None => None
            case Some(name) =>
              match ReadDatesOn(name.rest)
              case None => None
              case Some(d) => Some(Tbs(alg.rest[..|alg.rest| - |name.rest|], d))
  }

  datatype Sig = Sig(r: nat, s: nat)

  function ReadSig(s: bytes): (r: Option<Sig>)
  {
    match Expect(s, TAG_SEQUENCE)
    case None => None
    case Some(q) =>
      match Expect(q.content, TAG_INTEGER)
      case None => None
      case Some(a) =>
        match Expect(a.rest, TAG_INTEGER)
        case None => None
        case Some(b) =>
          match (ReadInt(a.content), ReadInt(b.content))
          case (Some(x), Some(y)) => if q.rest == [] && b.rest == [] then Some(Sig(x, y)) else None
          case _ => None
  }

  /** The three parts of the outer sequence; `whole` is the TBS with its own header, the octets that were signed. */
  datatype Outer = Outer(whole: bytes, content: bytes, sig: bytes)

  function ReadOuter(s: bytes): (r: Option<Outer>)
  {
    match Expect(s, TAG_SEQUENCE)
    case None => None
    case Some(outer) =>
      match Expect(outer.content, TAG_SEQUENCE)
      case None => None
      case Some(tbs) =>
        match Expect(tbs.rest, TAG_SEQUENCE)
        case None => None
        case Some(alg) =>
          match Expect(alg.rest, TAG_BIT_STRING)
          case None => None
          case Some(bits) =>
            if outer.rest != [] || bits.rest != [] || alg.content != Tlv(TAG_OID, OID_ECDSA_SHA256)
               || bits.content == [] || bits.content[0] != 0
            then None
            else Some(Outer(outer.content[..|outer.content| - |tbs.rest|], tbs.content, bits.content[1..]))
  }

  function ReadCrl(s: bytes): (r: Option<Parsed>)
  {
    match ReadOuter(s)
    case None => None
    case Some(o) =>
      match (ReadTbs(o.content), ReadSig(o.sig))
      case (Some(t), Some(g)) =>
        Some(Parsed(2, t.issuer, t.dated.thisUpdate, t.dated.nextUpdate, t.dated.body.revoked,
                    t.dated.body.number, o.whole, g.r, g.s))
      case _ => None
  }

  // ------------------------------------------------------- when it reads back

  /** Before the year 10000. */
  predicate Datable(at: nat)
  {
    at < 253402300800
  }

  /** A serial whose INTEGER has no superfluous leading zero octet. */
  predicate CanonicalSerial(s: bytes)
  {
    s != [] && !(|s| > 1 && s[0] == 0 && s[1] < 0x80)
  }

  predicate EntryReadable(e: Entry)
  {
    Datable(e.at) && CanonicalSerial(e.serial)
  }

  predicate EntriesReadable(es: seq<Entry>)
  {
    forall i :: 0 <= i < |es| ==> EntryReadable(es[i])
  }

  predicate Readable(c: Contents)
  {
    Datable(c.thisUpdate) && Datable(c.nextUpdate) && EntriesReadable(c.entries)
  }

  function Listed(es: seq<Entry>): (r: seq<Revoked>)
    ensures |r| == |es|
    ensures forall i :: 0 <= i < |es| ==> r[i] == Revoked(FromBE(es[i].serial), es[i].at)
  {
    if es == [] then [] else [Revoked(FromBE(es[0].serial), es[0].at)] + Listed(es[1..])
  }

  // -------------------------------------------------------------------- proof

  lemma ExpectOf(tag: byte, content: bytes, rest: bytes)
    requires |content| < TWO_32
    ensures Expect(Tlv(tag, content) + rest, tag) == Some(Element(tag, content, rest))
    ensures forall other :: other != tag ==> Expect(Tlv(tag, content) + rest, other) == None
  {
    ReadTlvOf(tag, content, rest);
  }

  lemma ExpectAll(tag: byte, content: bytes)
    requires |content| < TWO_32
    ensures Expect(Tlv(tag, content), tag) == Some(Element(tag, content, []))
  {
    ExpectOf(tag, content, []);
    assert Tlv(tag, content) + [] == Tlv(tag, content);
  }

  lemma NextTimeOf(at: nat, rest: bytes)
    ensures NextTime(TimeElement(at) + rest) == if Datable(at) then Some(TimeRead(at, rest)) else None
  {
    CivilOfYear(at);
    var c := CivilOf(at);
    ReadTlvOf(TimeTag(c), TimeContent(c), rest);
    TimeReadsBack(at);
    YearBound(at);
    if c.year >= 10000 {
      ReadTooLate(c);
    }
  }

  lemma PadReadsExactly(s: bytes)
    requires s != []
    ensures ReadInt(Pad(s)) == if CanonicalSerial(s) then Some(FromBE(s)) else None
  {
    FromBELeadingZero(s);
  }

  lemma ReadEntryOf(e: Entry)
    requires 1 <= |e.serial| <= 20
    ensures ReadEntry(Tlv(TAG_INTEGER, Pad(e.serial)) + TimeElement(e.at))
            == if EntryReadable(e) then Some(Revoked(FromBE(e.serial), e.at)) else None
  {
    ExpectOf(TAG_INTEGER, Pad(e.serial), TimeElement(e.at));
    PadReadsExactly(e.serial);
    NextTimeOf(e.at, []);
    assert TimeElement(e.at) + [] == TimeElement(e.at);
  }

  lemma EntryContentSmall(e: Entry)
    requires 1 <= |e.serial| <= 20
    ensures |Tlv(TAG_INTEGER, Pad(e.serial)) + TimeElement(e.at)| <= 40
  {
    CivilOfYear(e.at);
  }

  lemma {:induction false} ReadEntriesOf(es: seq<Entry>)
    requires SerialsFit(es)
    ensures ReadEntries(EntriesBytes(es)) == if EntriesReadable(es) then Some(Listed(es)) else None
  {
    hide EntryReadable, ReadEntry, TimeElement, Pad;
    if es != [] {
      var content := Tlv(TAG_INTEGER, Pad(es[0].serial)) + TimeElement(es[0].at);
      EntryContentSmall(es[0]);
      ExpectOf(TAG_SEQUENCE, content, EntriesBytes(es[1..]));
      ReadEntryOf(es[0]);
      ReadEntriesOf(es[1..]);
      assert EntriesReadable(es) <==> EntryReadable(es[0]) && EntriesReadable(es[1..]) by {
        assert forall i :: 0 <= i < |es| - 1 ==> es[1..][i] == es[i + 1];
        assert forall i :: 1 <= i < |es| ==> es[i] == es[1..][i - 1];
      }
    }
  }

  lemma ReadNumberOf(n: nat)
    requires |ExtensionBytes(n)| < TWO_32
    ensures ReadNumber(ExtensionBytes(n)) == Some(n)
  {
    var octets := Tlv(TAG_OCTET_STRING, DerInt(n));
    ExpectAll(TAG_SEQUENCE, Tlv(TAG_OID, OID_CRL_NUMBER) + octets);
    ExpectOf(TAG_OID, OID_CRL_NUMBER, octets);
    ExpectAll(TAG_OCTET_STRING, DerInt(n));
    assert Expect(octets, 0x01) == None;
    ExpectAll(TAG_INTEGER, Pad(MinBE(n)));
    IntRoundTripMinimal(n, []);
  }

  lemma ReadExtensionsOf(n: nat)
    requires |ExtensionsBytes(n)| < TWO_32
    ensures ReadExtensions(ExtensionsBytes(n)) == Some(n)
  {
    ExpectAll(TAG_CONTEXT_0, Tlv(TAG_SEQUENCE, ExtensionBytes(n)));
    ExpectAll(TAG_SEQUENCE, ExtensionBytes(n));
    ReadNumberOf(n);
  }

  lemma ReadBodyOf(es: seq<Entry>, n: nat)
    requires SerialsFit(es) && |RevokedBytes(es) + ExtensionsBytes(n)| < TWO_32
    ensures ReadBody(RevokedBytes(es) + ExtensionsBytes(n))
            == if EntriesReadable(es) then Some(Body(Listed(es), n)) else None
  {
    ReadExtensionsOf(n);
    if es == [] {
      assert RevokedBytes(es) + ExtensionsBytes(n) == ExtensionsBytes(n);
      assert Expect(ExtensionsBytes(n), TAG_SEQUENCE) == None;
    } else {
      ExpectOf(TAG_SEQUENCE, EntriesBytes(es), ExtensionsBytes(n));
      ReadEntriesOf(es);
    }
  }

  lemma ReadDatesOnOf(c: Contents)
    requires SerialsFit(c.entries) && |DatesOn(c)| < TWO_32
    ensures ReadDatesOn(DatesOn(c)) ==
            if Readable(c) then Some(Dated(c.thisUpdate, c.nextUpdate, Body(Listed(c.entries), c.number))) else None
  {
    hide ReadBody, EntriesReadable, Listed, TimeElement;
    var body := RevokedBytes(c.entries) + ExtensionsBytes(c.number);
    NextTimeOf(c.thisUpdate, TimeElement(c.nextUpdate) + body);
    NextTimeOf(c.nextUpdate, body);
    ReadBodyOf(c.entries, c.number);
  }

  lemma AlgContentReads(rest: bytes)
    ensures Expect(AlgBytes() + rest, TAG_SEQUENCE)
            == Some(Element(TAG_SEQUENCE, Tlv(TAG_OID, OID_ECDSA_SHA256), rest))
  {
    ExpectOf(TAG_SEQUENCE, Tlv(TAG_OID, OID_ECDSA_SHA256), rest);
  }

  lemma ReadTbsOf(c: Contents)
    requires SerialsFit(c.entries) && IsSequence(c.issuer) && |TbsBytes(c)| < TWO_32
    ensures ReadTbs(DerInt(1) + (AlgBytes() + (c.issuer + DatesOn(c)))) ==
            if Readable(c)
            then Some(Tbs(c.issuer, Dated(c.thisUpdate, c.nextUpdate, Body(Listed(c.entries), c.number)))) else None
  {
    hide ReadDatesOn, Readable, Listed, MinBE, Pad;
    var name: bytes :| |name| < TWO_32 && c.issuer == Tlv(TAG_SEQUENCE, name);
    var r1 := c.issuer + DatesOn(c);
    ExpectOf(TAG_INTEGER, Pad(MinBE(1)), AlgBytes() + r1);
    IntRoundTripMinimal(1, []);
    AlgContentReads(r1);
    ExpectOf(TAG_SEQUENCE, name, DatesOn(c));
    ReadDatesOnOf(c);
    assert r1[..|r1| - |DatesOn(c)|] == c.issuer;
  }

  lemma ReadSigOf(raw: bytes)
    requires |raw| == 64
    ensures ReadSig(SigBytes(raw)) == Some(Sig(FromBE(raw[..32]), FromBE(raw[32..])))
  {
    var a, b := DerMpint(raw[..32]), DerMpint(raw[32..]);
    SigFits(raw);
    ExpectAll(TAG_SEQUENCE, a + b);
    ExpectOf(TAG_INTEGER, Pad(Strip(raw[..32])), b);
    ExpectAll(TAG_INTEGER, Pad(Strip(raw[32..])));
    MpintRoundTrip(raw[..32]);
    MpintRoundTrip(raw[32..]);
  }

  lemma ReadOuterOf(content: bytes, raw: bytes)
    requires |raw| == 64 && |ListBytes(Tlv(TAG_SEQUENCE, content), raw)| < TWO_32
    ensures var tbs := Tlv(TAG_SEQUENCE, content);
            ReadOuter(ListBytes(tbs, raw)) == Some(Outer(tbs, content, SigBytes(raw)))
  {
    var tbs, sig := Tlv(TAG_SEQUENCE, content), SigBytes(raw);
    var tail := AlgBytes() + BitString(sig);
    ExpectAll(TAG_SEQUENCE, tbs + tail);
    ExpectOf(TAG_SEQUENCE, content, tail);
    AlgContentReads(BitString(sig));
    ExpectAll(TAG_BIT_STRING, [0] + sig);
    assert ([0] + sig)[1..] == sig;
    assert (tbs + tail)[..|tbs + tail| - |tail|] == tbs;
  }

  lemma Combine(s: bytes, o: Outer, t: Option<Tbs>, g: Sig)
    requires ReadOuter(s) == Some(o) && ReadTbs(o.content) == t && ReadSig(o.sig) == Some(g)
    ensures ReadCrl(s) ==
            match t
            case None => None
            case Some(b) => Some(Parsed(2, b.issuer, b.dated.thisUpdate, b.dated.nextUpdate, b.dated.body.revoked,
                                        b.dated.body.number, o.whole, g.r, g.s))
  {
  }

  /**
   The list the encoder produces, taken apart by the reader: version 2, the
   issuer's name, both dates, every entry in order, the number and the
   signature. It reads back exactly when all dates are before the year 10000
   and no serial has a superfluous leading zero octet.
   */
  lemma CrlReadsBack(c: Contents, raw: bytes)
    requires SerialsFit(c.entries) && IsSequence(c.issuer) && |raw| == 64
    requires |ListBytes(TbsBytes(c), raw)| < TWO_32
    ensures ReadCrl(ListBytes(TbsBytes(c), raw)) ==
            if Readable(c)
            then Some(Parsed(2, c.issuer, c.thisUpdate, c.nextUpdate, Listed(c.entries), c.number, TbsBytes(c),
                             FromBE(raw[..32]), FromBE(raw[32..])))
            else None
  {
    var content := DerInt(1) + (AlgBytes() + (c.issuer + DatesOn(c)));
    var dated := Dated(c.thisUpdate, c.nextUpdate, Body(Listed(c.entries), c.number));
    ReadOuterOf(content, raw);
    ReadTbsOf(c);
    ReadSigOf(raw);
    Combine(ListBytes(TbsBytes(c), raw), Outer(TbsBytes(c), content, SigBytes(raw)),
            if Readable(c) then Some(Tbs(c.issuer, dated)) else None,
            Sig(FromBE(raw[..32]), FromBE(raw[32..])));
  }

  /** Every stored serial is canonical and every stored revocation date is before the year 10000. */
  predicate StoreReadable(store: seq<Stored>)
  {
    forall i :: 0 <= i < |store| ==>
      && CanonicalSerial(store[i].serial)
      && (IssuedMeta.Read(store[i].blob).Some? ==> Datable(IssuedMeta.Read(store[i].blob).value.revokedAt))
  }

  lemma CollectedReadable(store: seq<Stored>, slot: nat, now: nat)
    requires StoreReadable(store) && Datable(now)
    ensures EntriesReadable(AllEntries(store, slot, now))
  {
    var all := AllEntries(store, slot, now);
    forall i | 0 <= i < |all|
      ensures EntryReadable(all[i])
    {
      EntriesExact(store, slot, now, all[i]);
    }
  }

  lemma ContentsReadable(store: seq<Stored>, slot: nat, now: nat, validity: nat, issuer: bytes, number: nat)
    requires StoredSerials(store) && StoreReadable(store) && Datable(now + validity)
    ensures var c := ContentsFor(store, slot, now, validity, issuer, number);
            var all := AllEntries(store, slot, now);
            && SerialsFit(c.entries) && Readable(c)
            && c.issuer == issuer && c.thisUpdate == now && c.nextUpdate == now + validity
            && c.entries == (if |all| > 64 then all[..64] else all)
            && c.number == if number == 0 then 1 else number
  {
    CollectedReadable(store, slot, now);
    ContentsFit(store, slot, now, validity, issuer, number);
  }

  lemma Reads(c: Contents, raw: bytes, list: bytes) returns (p: Parsed)
    requires SerialsFit(c.entries) && Readable(c) && IsSequence(c.issuer) && |raw| == 64 && |list| < TWO_32
    requires list == ListBytes(TbsBytes(c), raw)
    ensures ReadCrl(list) == Some(p) && list == ListBytes(p.tbs, raw)
    ensures p.version == 2 && p.issuer == c.issuer && p.thisUpdate == c.thisUpdate && p.nextUpdate == c.nextUpdate
    ensures p.revoked == Listed(c.entries) && p.number == c.number
    ensures p.r == FromBE(raw[..32]) && p.s == FromBE(raw[32..])
  {
    CrlReadsBack(c, raw);
    p := ReadCrl(list).value;
  }

  /**
   The whole path from the store: what a verifier reads from the list built for
   a slot is the slot's revoked serials in store order (the first 64), each
   with its stored date or thisUpdate, numbered as stored (at least one) and
   signed over exactly the TBS octets.
   */
  lemma BuiltCrlReadsBack(store: seq<Stored>, slot: nat, now: nat, validity: nat, issuer: bytes, number: nat,
                          raw: bytes, list: bytes) returns (p: Parsed)
    requires StoredSerials(store) && StoreReadable(store) && IsSequence(issuer) && |raw| == 64
    requires Datable(now + validity) && |list| < TWO_32
    requires var c := ContentsFor(store, slot, now, validity, issuer, number);
             SerialsFit(c.entries) && list == ListBytes(TbsBytes(c), raw)
    ensures ReadCrl(list) == Some(p) && list == ListBytes(p.tbs, raw)
    ensures p.version == 2 && p.issuer == issuer && p.thisUpdate == now && p.nextUpdate == now + validity
    ensures var all := AllEntries(store, slot, now); p.revoked == Listed(if |all| > 64 then all[..64] else all)
    ensures p.number == if number == 0 then 1 else number
    ensures p.r == FromBE(raw[..32]) && p.s == FromBE(raw[32..])
  {
    ContentsReadable(store, slot, now, validity, issuer, number);
    p := Reads(ContentsFor(store, slot, now, validity, issuer, number), raw, list);
  }
}
