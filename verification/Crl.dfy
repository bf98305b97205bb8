/**
 The certificate revocation list: which certificates the encoder collects, and
 the right-to-left encoder itself.
 */
module Crl {
  import opened Octets
  import opened Der
  import opened Calendar
  import IssuedMeta

  const MAX_REVOKED := 64
  const TBS_SCRATCH := 2048
  const SIG_SCRATCH := 80

  const OID_CRL_NUMBER: bytes := [0x55, 0x1D, 0x14]
  const OID_ECDSA_SHA256: bytes := [0x2A, 0x86, 0x48, 0xCE, 0x3D, 0x04, 0x03, 0x02]

  datatype Entry = Entry(serial: bytes, at: nat)

  // -------------------------------------------------------------- collecting

  /** One directory of the issued-certificate store: its serial and its metadata blob. */
  datatype Stored = Stored(serial: bytes, blob: bytes)

  /** The CRL entry a stored certificate gives rise to for `slot`, if any. */
  function EntryOf(st: Stored, slot: nat, thisUpdate: nat): (r: Option<Entry>)
  {
    match IssuedMeta.Read(st.blob)
    case None => None
    case Some(m) =>
      if m.issuer != slot || !IssuedMeta.Has(m.flags, IssuedMeta.REVOKED) then None
      else Some(Entry(st.serial, if m.revokedAt != 0 then m.revokedAt else thisUpdate))
  }

  /** All entries of the slot in store order, without any limit. */
  function AllEntries(store: seq<Stored>, slot: nat, thisUpdate: nat): (r: seq<Entry>)
  {
    if store == [] then []
    else
      var rest := AllEntries(store[1..], slot, thisUpdate);
      match EntryOf(store[0], slot, thisUpdate)
      case None => rest
      case Some(e) => [e] + rest
  }

  lemma {:induction false} AllEntriesSnoc(store: seq<Stored>, x: Stored, slot: nat, thisUpdate: nat)
    ensures AllEntries(store + [x], slot, thisUpdate)
         == AllEntries(store, slot, thisUpdate)
            + match EntryOf(x, slot, thisUpdate) { case None => [] case Some(e) => [e] }
  {
    if store == [] {
      assert store + [x] == [x] && [x][1..] == [];
    } else {
      AllEntriesSnoc(store[1..], x, slot, thisUpdate);
      assert (store + [x])[1..] == store[1..] + [x];
    }
  }

  /** crl_collect_cb over the whole store: the first 64 entries, and whether any were left out. */
  method Collect(store: seq<Stored>, slot: nat, thisUpdate: nat) returns (entries: seq<Entry>, overflow: bool)
    ensures var all := AllEntries(store, slot, thisUpdate);
            && overflow == (|all| > MAX_REVOKED)
            && entries == if overflow then all[..MAX_REVOKED] else all
  {
    entries, overflow := [], false;
    for i := 0 to |store|
      invariant var all := AllEntries(store[..i], slot, thisUpdate);
                && overflow == (|all| > MAX_REVOKED)
                && entries == if overflow then all[..MAX_REVOKED] else all
    {
      AllEntriesSnoc(store[..i], store[i], slot, thisUpdate);
      assert store[..i + 1] == store[..i] + [store[i]];
      var e := EntryOf(store[i], slot, thisUpdate);
      if e.Some? {
        if |entries| >= MAX_REVOKED {
          overflow := true;
        } else {
          entries := entries + [e.value];
        }
      }
    }
    assert store[..|store|] == store;
  }

  /** The record is one of the slot's, marked revoked, and the entry has its serial and its date; an unknown date is now. */
  predicate Lists(st: Stored, slot: nat, thisUpdate: nat, e: Entry)
  {
    var read := IssuedMeta.Read(st.blob);
    read.Some? && var m := read.value;
    && m.issuer == slot && IssuedMeta.Has(m.flags, IssuedMeta.REVOKED)
    && e.serial == st.serial && e.at == if m.revokedAt != 0 then m.revokedAt else thisUpdate
  }

  /** An entry is on the list exactly when some stored certificate of the slot is marked revoked under that serial and date. */
  lemma {:induction false} EntriesExact(store: seq<Stored>, slot: nat, thisUpdate: nat, e: Entry)
    ensures e in AllEntries(store, slot, thisUpdate) <==>
            exists i :: 0 <= i < |store| && Lists(store[i], slot, thisUpdate, e)
  {
    if store != [] {
      EntriesExact(store[1..], slot, thisUpdate, e);
      assert forall i :: 0 <= i < |store| - 1 ==> store[1..][i] == store[i + 1];
      assert forall i :: 1 <= i < |store| ==> store[i] == store[1..][i - 1];
      assert EntryOf(store[0], slot, thisUpdate) == Some(e) <==> Lists(store[0], slot, thisUpdate, e);
    }
  }

  // ---------------------------------------------------------------- encodings

  ghost function EntryBytes(e: Entry): (r: bytes)
    requires e.serial != []
  {
    Tlv(TAG_SEQUENCE, Tlv(TAG_INTEGER, Pad(e.serial)) + TimeElement(e.at))
  }

  ghost predicate SerialsFit(es: seq<Entry>)
  {
    forall i :: 0 <= i < |es| ==> 1 <= |es[i].serial| <= 20
  }

  ghost function EntriesBytes(es: seq<Entry>): (r: bytes)
    requires SerialsFit(es)
  {
    if es == [] then [] else EntryBytes(es[0]) + EntriesBytes(es[1..])
  }

  function AlgBytes(): (r: bytes)
  {
    Tlv(TAG_SEQUENCE, Tlv(TAG_OID, OID_ECDSA_SHA256))
  }

  function ExtensionBytes(n: nat): (r: bytes)
  {
    Tlv(TAG_SEQUENCE, Tlv(TAG_OID, OID_CRL_NUMBER) + Tlv(TAG_OCTET_STRING, DerInt(n)))
  }

  /** The algorithm identifier ecdsa-with-SHA256, octet by octet. */
  lemma AlgExample()
    ensures AlgBytes() == [0x30, 0x0A, 0x06, 0x08, 0x2A, 0x86, 0x48, 0xCE, 0x3D, 0x04, 0x03, 0x02]
  {
  }

  function ExtensionsBytes(n: nat): (r: bytes)
  {
    Tlv(TAG_CONTEXT_0, Tlv(TAG_SEQUENCE, ExtensionBytes(n)))
  }

  ghost function RevokedBytes(es: seq<Entry>): (r: bytes)
    requires SerialsFit(es)
  {
    if es == [] then [] else Tlv(TAG_SEQUENCE, EntriesBytes(es))
  }

  /** What a CRL is made from. */
  datatype Contents = Contents(issuer: bytes, thisUpdate: nat, nextUpdate: nat, entries: seq<Entry>, number: nat)

  ghost function DatesOn(c: Contents): (r: bytes)
    requires SerialsFit(c.entries)
  {
    TimeElement(c.thisUpdate) + (TimeElement(c.nextUpdate) + (RevokedBytes(c.entries) + ExtensionsBytes(c.number)))
  }

  ghost function TbsBytes(c: Contents): (r: bytes)
    requires SerialsFit(c.entries)
  {
    Tlv(TAG_SEQUENCE, DerInt(1) + (AlgBytes() + (c.issuer + DatesOn(c))))
  }

  function SigBytes(raw: bytes): (r: bytes)
    requires |raw| == 64
  {
    Tlv(TAG_SEQUENCE, DerMpint(raw[..32]) + DerMpint(raw[32..]))
  }

  function BitString(sig: bytes): (r: bytes)
  {
    Tlv(TAG_BIT_STRING, [0] + sig)
  }

  function ListBytes(tbs: bytes, raw: bytes): (r: bytes)
    requires |raw| == 64
  {
    Tlv(TAG_SEQUENCE, tbs + (AlgBytes() + BitString(SigBytes(raw))))
  }

  // ------------------------------------------------------------------ writers

  /** write_serial_int: unlike cantil_der_mpint it keeps leading zero octets. */
  method WriteSerialInt(buf: array<byte>, p: nat, start: nat, serial: bytes) returns (ret: int, p': nat)
    requires start <= p <= buf.Length
    modifies buf
    ensures !(1 <= |serial| <= 20) ==> ret == INVALID_DATA && buf[..] == old(buf[..])
    ensures 1 <= |serial| <= 20 ==>
            Wrote(old(buf[..]), buf[..], start, p, ret, p', Tlv(TAG_INTEGER, Pad(serial)))
  {
    if |serial| == 0 || |serial| > 20 {
      return INVALID_DATA, p;
    }
    ghost var s0 := buf[..];
    ret, p' := Raw(buf, p, start, serial);
    if ret < 0 { return; }
    var len := ret;
    if serial[0] >= 0x80 {
      ghost var s1, p1 := buf[..], p';
      ret, p' := Tag(buf, p', start, 0);
      WroteThen(s0, s1, buf[..], start, p, len, p1, serial, ret, p', [0]);
      if ret < 0 { return; }
      len := len + ret;
    }
    ret, p' := Wrap(buf, p', start, TAG_INTEGER, p, s0, Pad(serial), len);
  }

  /** write_revoked_entry. */
  method WriteRevokedEntry(buf: array<byte>, p: nat, start: nat, e: Entry) returns (ret: int, p': nat)
    requires start <= p <= buf.Length && 1 <= |e.serial| <= 20
    modifies buf
    ensures Wrote(old(buf[..]), buf[..], start, p, ret, p', EntryBytes(e))
  {
    ghost var s0 := buf[..];
    ghost var time := TimeElement(e.at);
    ret, p' := WriteTime(buf, p, start, e.at);
    if ret < 0 { return; }
    var len := ret;
    ghost var s1, p1 := buf[..], p';
    ret, p' := WriteSerialInt(buf, p', start, e.serial);
    WroteThen(s0, s1, buf[..], start, p, len, p1, time, ret, p', Tlv(TAG_INTEGER, Pad(e.serial)));
    if ret < 0 { return; }
    len := len + ret;
    ret, p' := Wrap(buf, p', start, TAG_SEQUENCE, p, s0, Tlv(TAG_INTEGER, Pad(e.serial)) + time, len);
  }

  /** write_crl_extensions. */
  method WriteExtensions(buf: array<byte>, p: nat, start: nat, number: nat) returns (ret: int, p': nat)
    requires start <= p <= buf.Length
    modifies buf
    ensures Wrote(old(buf[..]), buf[..], start, p, ret, p', ExtensionsBytes(number))
  {
    ghost var s0 := buf[..];
    ret, p' := Int(buf, p, start, number);
    if ret < 0 { return; }
    ret, p' := Wrap(buf, p', start, TAG_OCTET_STRING, p, s0, DerInt(number), ret);
    if ret < 0 { return; }
    var len := ret;
    ghost var octets := Tlv(TAG_OCTET_STRING, DerInt(number));
    ghost var s1, p1 := buf[..], p';
    ret, p' := Oid(buf, p', start, OID_CRL_NUMBER);
    WroteThen(s0, s1, buf[..], start, p, len, p1, octets, ret, p', Tlv(TAG_OID, OID_CRL_NUMBER));
    if ret < 0 { return; }
    len := len + ret;
    ret, p' := Wrap(buf, p', start, TAG_SEQUENCE, p, s0, Tlv(TAG_OID, OID_CRL_NUMBER) + octets, len);
    if ret < 0 { return; }
    ret, p' := Wrap(buf, p', start, TAG_SEQUENCE, p, s0, ExtensionBytes(number), ret);
    if ret < 0 { return; }
    ret, p' := Wrap(buf, p', start, TAG_CONTEXT_0, p, s0, Tlv(TAG_SEQUENCE, ExtensionBytes(number)), ret);
  }

  /** write_alg_ecdsa_sha256. */
  method WriteAlg(buf: array<byte>, p: nat, start: nat) returns (ret: int, p': nat)
    requires start <= p <= buf.Length
    modifies buf
    ensures Wrote(old(buf[..]), buf[..], start, p, ret, p', AlgBytes())
  {
    ghost var s0 := buf[..];
    ret, p' := Oid(buf, p, start, OID_ECDSA_SHA256);
    if ret < 0 { return; }
    ret, p' := Wrap(buf, p', start, TAG_SEQUENCE, p, s0, Tlv(TAG_OID, OID_ECDSA_SHA256), ret);
  }

  lemma {:induction false} EntriesBytesGrow(es: seq<Entry>, i: nat)
    requires SerialsFit(es) && i <= |es|
    ensures |EntriesBytes(es[i..])| <= |EntriesBytes(es)|
    decreases i
  {
    if i > 0 {
      EntriesBytesGrow(es[1..], i - 1);
      assert es[1..][i - 1..] == es[i..];
    } else {
      assert es[0..] == es;
    }
  }

  /** The revokedCertificates sequence: written from the last entry to the first. */
  method WriteRevoked(buf: array<byte>, p: nat, start: nat, es: seq<Entry>) returns (ret: int, p': nat)
    requires start <= p <= buf.Length && SerialsFit(es)
    modifies buf
    ensures Wrote(old(buf[..]), buf[..], start, p, ret, p', RevokedBytes(es))
  {
    if |es| == 0 {
      assert buf[p..p] == [];
      return 0, p;
    }
    ghost var s0 := buf[..];
    var len := 0;
    p' := p;
    assert es[|es|..] == [] && buf[p..p] == [];
    for i := |es| downto 0
      invariant start <= p' <= p && len >= 0
      invariant Wrote(s0, buf[..], start, p, len, p', EntriesBytes(es[i..]))
    {
      ghost var s1, p1 := buf[..], p';
      assert es[i..][0] == es[i] && es[i..][1..] == es[i + 1..];
      ret, p' := WriteRevokedEntry(buf, p', start, es[i]);
      WroteThen(s0, s1, buf[..], start, p, len, p1, EntriesBytes(es[i + 1..]), ret, p', EntryBytes(es[i]));
      if ret < 0 {
        EntriesBytesGrow(es, i);
        return;
      }
      len := len + ret;
    }
    assert es[0..] == es;
    ret, p' := Wrap(buf, p', start, TAG_SEQUENCE, p, s0, EntriesBytes(es), len);
  }

  /** The four rightmost parts of the TBSCertList: extensions, entries and the two dates. */
  method WriteDatesOn(buf: array<byte>, p: nat, start: nat, c: Contents) returns (ret: int, p': nat)
    requires start <= p <= buf.Length && SerialsFit(c.entries)
    modifies buf
    ensures Wrote(old(buf[..]), buf[..], start, p, ret, p', DatesOn(c))
  {
    hide TimeElement, RevokedBytes, ExtensionsBytes;
    ghost var s0 := buf[..];
    ghost var acc := ExtensionsBytes(c.number);
    ret, p' := WriteExtensions(buf, p, start, c.number);
    if ret < 0 { return; }
    var len := ret;
    ghost var s1, p1 := buf[..], p';
    ret, p' := WriteRevoked(buf, p', start, c.entries);
    WroteThen(s0, s1, buf[..], start, p, len, p1, acc, ret, p', RevokedBytes(c.entries));
    if ret < 0 { return; }
    len, acc := len + ret, RevokedBytes(c.entries) + acc;
    s1, p1 := buf[..], p';
    ret, p' := WriteTime(buf, p', start, c.nextUpdate);
    WroteThen(s0, s1, buf[..], start, p, len, p1, acc, ret, p', TimeElement(c.nextUpdate));
    if ret < 0 { return; }
    len, acc := len + ret, TimeElement(c.nextUpdate) + acc;
    s1, p1 := buf[..], p';
    ret, p' := WriteTime(buf, p', start, c.thisUpdate);
    WroteThen(s0, s1, buf[..], start, p, len, p1, acc, ret, p', TimeElement(c.thisUpdate));
    if ret >= 0 { ret := len + ret; }
  }

  /** write_tbs_cert_list. */
  method WriteTbs(buf: array<byte>, p: nat, start: nat, c: Contents) returns (ret: int, p': nat)
    requires start <= p <= buf.Length && SerialsFit(c.entries)
    modifies buf
    ensures Wrote(old(buf[..]), buf[..], start, p, ret, p', TbsBytes(c))
  {
    hide DatesOn, AlgBytes, DerInt;
    ghost var s0 := buf[..];
    ghost var acc := DatesOn(c);
    ret, p' := WriteDatesOn(buf, p, start, c);
    if ret < 0 { return; }
    var len := ret;
    ghost var s1, p1 := buf[..], p';
    ret, p' := Raw(buf, p', start, c.issuer);
    WroteThen(s0, s1, buf[..], start, p, len, p1, acc, ret, p', c.issuer);
    if ret < 0 { return; }
    len, acc := len + ret, c.issuer + acc;
    s1, p1 := buf[..], p';
    ret, p' := WriteAlg(buf, p', start);
    WroteThen(s0, s1, buf[..], start, p, len, p1, acc, ret, p', AlgBytes());
    if ret < 0 { return; }
    len, acc := len + ret, AlgBytes() + acc;
    s1, p1 := buf[..], p';
    ret, p' := Int(buf, p', start, 1);
    WroteThen(s0, s1, buf[..], start, p, len, p1, acc, ret, p', DerInt(1));
    if ret < 0 { return; }
    len, acc := len + ret, DerInt(1) + acc;
    ret, p' := Wrap(buf, p', start, TAG_SEQUENCE, p, s0, acc, len);
  }

  /** The Ecdsa-Sig-Value of a raw r || s signature. */
  method WriteSig(buf: array<byte>, p: nat, start: nat, raw: bytes) returns (ret: int, p': nat)
    requires start <= p <= buf.Length && |raw| == 64
    modifies buf
    ensures Wrote(old(buf[..]), buf[..], start, p, ret, p', SigBytes(raw))
  {
    ghost var s0 := buf[..];
    assert raw[32..][..32] == raw[32..] && raw[..32][..32] == raw[..32];
    ret, p' := Mpint(buf, p, start, raw[32..], 32);
    if ret < 0 { return; }
    var len := ret;
    ghost var s1, p1 := buf[..], p';
    ret, p' := Mpint(buf, p', start, raw[..32], 32);
    WroteThen(s0, s1, buf[..], start, p, len, p1, DerMpint(raw[32..]), ret, p', DerMpint(raw[..32]));
    if ret < 0 { return; }
    len := len + ret;
    ret, p' := Wrap(buf, p', start, TAG_SEQUENCE, p, s0, DerMpint(raw[..32]) + DerMpint(raw[32..]), len);
  }

  /** The Ecdsa-Sig-Value always fits the 80-octet scratch buffer. */
  lemma SigFits(raw: bytes)
    requires |raw| == 64
    ensures |SigBytes(raw)| <= 72
  {
    assert |DerMpint(raw[..32])| <= 35 && |DerMpint(raw[32..])| <= 35;
  }

  /** signatureValue, signatureAlgorithm, the copied TBS and the outer wrapper. */
  method Assemble(buf: array<byte>, p: nat, start: nat, tbs: bytes, raw: bytes, sig: bytes) returns (ret: int, p': nat)
    requires start <= p <= buf.Length && |raw| == 64 && sig == SigBytes(raw)
    modifies buf
    ensures Wrote(old(buf[..]), buf[..], start, p, ret, p', ListBytes(tbs, raw))
  {
    ghost var s0 := buf[..];
    ret, p' := Raw(buf, p, start, sig);
    if ret < 0 { return; }
    var len := ret;
    ghost var s1, p1 := buf[..], p';
    ret, p' := Tag(buf, p', start, 0);
    WroteThen(s0, s1, buf[..], start, p, len, p1, sig, ret, p', [0]);
    if ret < 0 { return; }
    ret, p' := Wrap(buf, p', start, TAG_BIT_STRING, p, s0, [0] + sig, len + ret);
    if ret < 0 { return; }
    len := ret;
    s1, p1 := buf[..], p';
    ret, p' := WriteAlg(buf, p', start);
    WroteThen(s0, s1, buf[..], start, p, len, p1, BitString(sig), ret, p', AlgBytes());
    if ret < 0 { return; }
    len := len + ret;
    s1, p1 := buf[..], p';
    ret, p' := Raw(buf, p', start, tbs);
    WroteThen(s0, s1, buf[..], start, p, len, p1, AlgBytes() + BitString(sig), ret, p', tbs);
    if ret < 0 { return; }
    len := len + ret;
    ret, p' := Wrap(buf, p', start, TAG_SEQUENCE, p, s0, tbs + (AlgBytes() + BitString(sig)), len);
  }

  datatype Build = Built(len: nat) | Failed

  /** Hash-and-sign with the slot's private key: r || s, or an error. */
  type Signer = bytes -> Option<bytes>

  /** A stored CRL number of zero is emitted as one. */
  function Emitted(stored: nat): (n: nat)
    ensures n >= 1
  {
    if stored == 0 then 1 else stored
  }

  /** What build_crl_der puts into the list. */
  function ContentsFor(store: seq<Stored>, slot: nat, now: nat, validity: nat, issuer: bytes, number: nat): (c: Contents)
  {
    var all := AllEntries(store, slot, now);
    Contents(issuer, now, (now + validity) % TWO_64,
             if |all| > MAX_REVOKED then all[..MAX_REVOKED] else all, Emitted(number))
  }

  ghost predicate StoredSerials(store: seq<Stored>)
  {
    forall i :: 0 <= i < |store| ==> 1 <= |store[i].serial| <= 20
  }

  lemma {:induction false} AllEntriesFit(store: seq<Stored>, slot: nat, now: nat)
    requires StoredSerials(store)
    ensures SerialsFit(AllEntries(store, slot, now))
  {
    if store != [] {
      assert StoredSerials(store[1..]);
      AllEntriesFit(store[1..], slot, now);
    }
  }

  lemma ContentsFit(store: seq<Stored>, slot: nat, now: nat, validity: nat, issuer: bytes, number: nat)
    requires StoredSerials(store)
    ensures SerialsFit(ContentsFor(store, slot, now, validity, issuer, number).entries)
  {
    AllEntriesFit(store, slot, now);
  }

  /** Copies the finished list to the front of the buffer. */
  method MoveToFront(buf: array<byte>, from: nat, n: nat)
    requires from + n <= buf.Length
    modifies buf
    ensures buf[..n] == old(buf[from..from + n])
  {
    for i := 0 to n
      modifies buf
      invariant forall k :: 0 <= k < i ==> buf[k] == old(buf[from + k])
      invariant forall k :: from + i <= k < buf.Length ==> buf[k] == old(buf[k])
    {
      buf[i] := buf[from + i];
    }
    assert buf[..n] == old(buf[from..from + n]);
  }

  /** What a writer left at the right end of a scratch buffer. */
  method Taken(buf: array<byte>, ret: int, off: nat, ghost before: bytes, ghost piece: bytes) returns (r: Option<bytes>)
    requires Wrote(before, buf[..], 0, buf.Length, ret, off, piece)
    ensures r == if |piece| <= buf.Length then Some(piece) else None
  {
    if ret < 0 {
      return None;
    }
    assert buf[off..] == buf[..][off..buf.Length];
    return Some(buf[off..]);
  }

  /** The TBS, written into the scratch buffer. */
  method EncodeTbs(c: Contents) returns (tbs: Option<bytes>)
    requires SerialsFit(c.entries)
    ensures tbs == if |TbsBytes(c)| <= TBS_SCRATCH then Some(TbsBytes(c)) else None
  {
    var scratch := new byte[TBS_SCRATCH];
    ghost var before := scratch[..];
    var ret, off := WriteTbs(scratch, TBS_SCRATCH, 0, c);
    tbs := Taken(scratch, ret, off, before, TbsBytes(c));
  }

  method EncodeSig(raw: bytes) returns (sig: bytes)
    requires |raw| == 64
    ensures sig == SigBytes(raw)
  {
    SigFits(raw);
    var scratch := new byte[SIG_SCRATCH];
    ghost var before := scratch[..];
    var ret, off := WriteSig(scratch, SIG_SCRATCH, 0, raw);
    var taken := Taken(scratch, ret, off, before, SigBytes(raw));
    return taken.value;
  }

  /** The outer sequence, moved to the front of the caller's buffer. */
  method Seal(out: array<byte>, tbs: bytes, raw: bytes) returns (r: Build)
    requires |raw| == 64
    modifies out
    ensures r.Built? <==> |ListBytes(tbs, raw)| <= out.Length
    ensures r.Built? ==> r.len <= out.Length && out[..r.len] == ListBytes(tbs, raw)
  {
    var sig := EncodeSig(raw);
    var ret, p := Assemble(out, out.Length, 0, tbs, raw, sig);
    if ret < 0 {
      return Failed;
    }
    assert out[p..p + ret] == out[..][p..out.Length];
    MoveToFront(out, p, ret);
    return Built(ret);
  }

  /**
   build_crl_der, from the collected entries to the finished list at the front
   of the caller's buffer. The TBS is first written into a scratch buffer, then
   signed, then copied into the outer sequence.
   */
  method BuildCrl(store: seq<Stored>, slot: nat, now: nat, validity: nat, issuer: bytes, number: nat, sign: Signer,
                  out: array<byte>) returns (r: Build)
    requires StoredSerials(store)
    requires forall t :: sign(t).Some? ==> |sign(t).value| == 64
    modifies out
    ensures var c := ContentsFor(store, slot, now, validity, issuer, number);
            && SerialsFit(c.entries)
            && (r.Built? <==> |TbsBytes(c)| <= TBS_SCRATCH && sign(TbsBytes(c)).Some?
                              && |ListBytes(TbsBytes(c), sign(TbsBytes(c)).value)| <= out.Length)
            && (r.Built? ==> r.len <= out.Length && out[..r.len] == ListBytes(TbsBytes(c), sign(TbsBytes(c)).value))
  {
    ContentsFit(store, slot, now, validity, issuer, number);
    var entries, overflow := Collect(store, slot, now);
    var c := Contents(issuer, now, (now + validity) % TWO_64, entries, if number == 0 then 1 else number);
    assert c == ContentsFor(store, slot, now, validity, issuer, number);
    var tbs := EncodeTbs(c);
    if tbs.None? {
      return Failed;
    }
    var raw := sign(tbs.value);
    if raw.None? {
      return Failed;
    }
    r := Seal(out, tbs.value, raw.value);
  }
}
