/** The CRLs of every run of the certificate store, as a verifier reads them. */
module RevocationCrl {
  import opened Octets
  import opened IssuedMeta
  import opened Revocation
  import Crl
  import CrlReader
  import Der

  /** Revocations are dated before the year 10000. */
  predicate Dated(es: seq<Event>)
  {
    forall i :: 0 <= i < |es| ==> (es[i].RevokeAsked? ==> CrlReader.Datable(es[i].now))
  }

  predicate RecordReadable(st: Crl.Stored)
  {
    && 1 <= |st.serial| <= 20 && CrlReader.CanonicalSerial(st.serial)
    && (Read(st.blob).Some? ==> CrlReader.Datable(Read(st.blob).value.revokedAt))
  }

  predicate AllReadable(s: Store)
  {
    forall i :: 0 <= i < |s| ==> RecordReadable(s[i])
  }

  /** Generated serials need no padding and no stripping. */
  lemma GeneratedIsCanonical(random: bytes)
    requires |random| == 8
    ensures CrlReader.CanonicalSerial(GenSerial(random))
  {
  }

  lemma MarksReadable(st: Crl.Stored, now: nat, slot: nat)
    requires RecordReadable(st)
    ensures RecordReadable(Expire1(st, now)) && RecordReadable(Protect1(st, slot))
  {
    hide Pack, Has, With;
  }

  lemma StepReadable(v: Vault, e: Event)
    requires Proper(v, e) && AllReadable(v.issued) && (e.RevokeAsked? ==> CrlReader.Datable(e.now))
    ensures AllReadable(Step(v, e).issued)
  {
    hide Pack, Has, With, RecordReadable, Expire1, Protect1;
    match e
    case Signed(random, issuer, notBefore, notAfter, cn, at, kept) =>
      FreshReadable(random, issuer, notBefore, notAfter, cn);
      InsertReadable(v.issued, at, Fresh(GenSerial(random), issuer, notBefore, notAfter, cn));
    case RevokeAsked(serial, now, kept, numbered) => RevokeReadable(v, serial, now, kept, numbered);
    case ExpireAll(now, keeper) =>
      forall i | 0 <= i < |v.issued| ensures RecordReadable(Expire1(v.issued[i], now)) {
        MarksReadable(v.issued[i], now, 0);
      }
    case ProtectAll(slot, keeper) =>
      forall i | 0 <= i < |v.issued| ensures RecordReadable(Protect1(v.issued[i], slot)) {
        MarksReadable(v.issued[i], 0, slot);
      }
    case SlotDeleted(_) =>
  }

  lemma InsertReadable(s: Store, at: nat, st: Crl.Stored)
    requires AllReadable(s) && RecordReadable(st)
    ensures AllReadable(Insert(s, at, st))
  {
    hide RecordReadable;
    var r, k := Insert(s, at, st), if at < |s| then at else |s|;
    assert forall i :: 0 <= i < |r| ==> r[i] == if i < k then s[i] else if i == k then st else s[i - 1];
  }

  lemma FreshReadable(random: bytes, issuer: u32, notBefore: nat, notAfter: nat, cn: bytes)
    requires |random| == 8 && notBefore < TWO_64 && notAfter < TWO_64 && |cn| == 64
    ensures RecordReadable(Fresh(GenSerial(random), issuer, notBefore, notAfter, cn))
  {
    hide Pack, Read;
    GeneratedIsCanonical(random);
  }

  lemma RevokeReadable(v: Vault, serial: bytes, now: nat, kept: bool, numbered: bool)
    requires AllReadable(v.issued) && now < TWO_64 && CrlReader.Datable(now)
    ensures AllReadable(Revoke(v, serial, now, kept, numbered).issued)
  {
    hide Pack, Has, With, Read;
  }

  lemma {:induction false} RunReadable(t: seq<Vault>, es: seq<Event>, n: nat)
    requires IsRun(t, es) && n < |t| && AllReadable(t[0].issued) && Dated(es[..n])
    ensures AllReadable(t[n].issued)
    decreases n
  {
    hide Step, Proper, AllReadable;
    if n > 0 {
      assert es[..n][n - 1] == es[n - 1] && es[..n - 1] == es[..n][..n - 1];
      RunReadable(t, es, n - 1);
      StepReadable(t[n - 1], es[n - 1]);
    }
  }

  /** The store and its number as a run leaves them. */
  lemma {:induction false} StoreOfRun(t: seq<Vault>, es: seq<Event>, n: nat, slot: nat, now: nat)
    requires IsRun(t, es) && n < |t| && t[0] == Vault([], map[]) && Dated(es[..n]) && AllCounted(es[..n], slot)
    requires Count(t[n].issued, slot) < TWO_32
    ensures Crl.StoredSerials(t[n].issued) && CrlReader.StoreReadable(t[n].issued)
    ensures Number(t[n].numbers, slot) == |Crl.AllEntries(t[n].issued, slot, now)| == Count(t[n].issued, slot)
  {
    hide Step, Proper, Crl.AllEntries;
    RunReadable(t, es, n);
    NumberIsCount(t, es, slot, n);
    CountIsListed(t[n].issued, slot, now);
    ReadableStore(t[n].issued);
  }

  /**
   Whatever was signed, revoked, expired and protected since the store was empty, the list built for a
   slot that was not deleted reads back to exactly its revoked serials in store order (the first 64),
   numbered by their count.
   */
  lemma CrlOfRun(t: seq<Vault>, es: seq<Event>, n: nat, slot: nat, now: nat, validity: nat, issuer: bytes, raw: bytes,
                 list: bytes) returns (p: CrlReader.Parsed)
    requires IsRun(t, es) && n < |t| && t[0] == Vault([], map[]) && Dated(es[..n]) && AllCounted(es[..n], slot)
    requires Count(t[n].issued, slot) < TWO_32 && Der.IsSequence(issuer) && |raw| == 64 && |list| < TWO_32
    requires CrlReader.Datable(now + validity)
    requires var c := Crl.ContentsFor(t[n].issued, slot, now, validity, issuer, Number(t[n].numbers, slot));
             Crl.SerialsFit(c.entries) && list == Crl.ListBytes(Crl.TbsBytes(c), raw)
    ensures CrlReader.ReadCrl(list) == Some(p) && list == Crl.ListBytes(p.tbs, raw)
    ensures p.version == 2 && p.issuer == issuer && p.thisUpdate == now && p.nextUpdate == now + validity
    ensures var all := Crl.AllEntries(t[n].issued, slot, now);
            && |all| == Count(t[n].issued, slot)
            && p.revoked == CrlReader.Listed(if |all| > 64 then all[..64] else all)
            && p.number == if |all| == 0 then 1 else |all|
    ensures p.r == FromBE(raw[..32]) && p.s == FromBE(raw[32..])
  {
    hide *;
    StoreOfRun(t, es, n, slot, now);
    p := CrlReader.BuiltCrlReadsBack(t[n].issued, slot, now, validity, issuer, Number(t[n].numbers, slot), raw, list);
  }

  lemma ReadableStore(s: Store)
    requires AllReadable(s)
    ensures Crl.StoredSerials(s) && CrlReader.StoreReadable(s)
  {
    hide Read;
    assert forall i :: 0 <= i < |s| ==> RecordReadable(s[i]);
  }

  // ---------------------------------------------------------- dates on the list

  predicate Distinct(s: Store)
  {
    forall i, j :: 0 <= i < j < |s| ==> s[i].serial != s[j].serial
  }

  lemma InsertAt(s: Store, at: nat, st: Crl.Stored, i: nat)
    requires i <= |s|
    ensures var k := if at < |s| then at else |s|;
            Insert(s, at, st)[i] == if i < k then s[i] else if i == k then st else s[i - 1]
  {
  }

  lemma InsertApart(s: Store, at: nat, st: Crl.Stored, i: nat, j: nat)
    requires Distinct(s) && Find(s, st.serial) == |s| && i < j <= |s|
    ensures Insert(s, at, st)[i].serial != Insert(s, at, st)[j].serial
  {
    hide Find, Insert;
    InsertAt(s, at, st, i);
    InsertAt(s, at, st, j);
  }

  lemma InsertDistinct(s: Store, at: nat, st: Crl.Stored)
    requires Distinct(s) && Find(s, st.serial) == |s|
    ensures Distinct(Insert(s, at, st))
  {
    forall i, j | 0 <= i < j < |Insert(s, at, st)|
      ensures Insert(s, at, st)[i].serial != Insert(s, at, st)[j].serial
    {
      hide *;
      InsertApart(s, at, st, i, j);
    }
  }

  lemma StepDistinct(v: Vault, e: Event)
    requires Proper(v, e) && Distinct(v.issued)
    ensures Distinct(Step(v, e).issued)
  {
    hide Find, Fresh, GenSerial, KeepsRecord, Revoke, ExpireStore, ProtectStore, Insert;
    if e.Signed? {
      if e.kept {
        InsertDistinct(v.issued, e.at, Fresh(GenSerial(e.random), e.issuer, e.notBefore, e.notAfter, e.cn));
      }
    } else {
      SerialsStay(v, e);
    }
  }

  lemma {:induction false} RunDistinct(t: seq<Vault>, es: seq<Event>, n: nat)
    requires IsRun(t, es) && n < |t| && Distinct(t[0].issued)
    ensures Distinct(t[n].issued)
    decreases n
  {
    hide Step, Proper, Distinct;
    if n > 0 {
      RunDistinct(t, es, n - 1);
      StepDistinct(t[n - 1], es[n - 1]);
    }
  }

  /** The revocation of `serial` was asked for at event `n`, at this time, and answered with success. */
  predicate Revoked(t: seq<Vault>, es: seq<Event>, n: nat, serial: bytes, now: nat)
    requires IsRun(t, es) && n < |es|
  {
    && es[n].RevokeAsked? && es[n].serial == serial && es[n].now == now
    && RevokeCode(t[n], serial, es[n].kept) == Done
  }

  /** What a successful revocation records. */
  lemma RevokeRecords(v: Vault, serial: bytes, now: nat, kept: bool, numbered: bool)
    requires now < TWO_64 && RevokeCode(v, serial, kept) == Done
    ensures var w := Revoke(v, serial, now, kept, numbered);
            && RecordOf(v, serial).Some? && RecordOf(w, serial).Some?
            && var m, m1 := RecordOf(v, serial).value, RecordOf(w, serial).value;
               && m1.issuer == m.issuer && Has(m1.flags, REVOKED) && m1.revokedAt == now && m1.reason == 0
               && !Has(m.flags, REVOKED) && !Has(m.flags, PROTECTED)
  {
    hide Read, Pack, Has, With;
    var i := Find(v.issued, serial);
    var w := Revoke(v, serial, now, kept, numbered);
    assert forall j :: 0 <= j < |v.issued| ==> w.issued[j].serial == v.issued[j].serial;
    assert Find(w.issued, serial) == i;
  }

  /** It stays on record over every run. */
  lemma RevokedStays(t: seq<Vault>, es: seq<Event>, n: nat, m: nat, serial: bytes, now: nat)
    requires IsRun(t, es) && n < m < |t| && Revoked(t, es, n, serial, now)
    ensures RecordOf(t[n], serial).Some? && RecordOf(t[m], serial).Some?
    ensures var r := RecordOf(t[m], serial).value;
            r.issuer == RecordOf(t[n], serial).value.issuer && Has(r.flags, REVOKED) && r.revokedAt == now
  {
    hide Step, Find, Read, Has, Revoke, RevokeCode;
    assert t[n + 1] == Step(t[n], es[n]);
    assert Step(t[n], es[n]) == Revoke(t[n], serial, now, es[n].kept, es[n].numbered) by { StepRevokes(t[n], es[n]); }
    assert Proper(t[n], es[n]);
    RevokeRecords(t[n], serial, now, es[n].kept, es[n].numbered);
    RunKeeps(t, es, n + 1, m, serial);
  }

  lemma StepRevokes(v: Vault, e: Event)
    requires Proper(v, e) && e.RevokeAsked?
    ensures Step(v, e) == Revoke(v, e.serial, e.now, e.kept, e.numbered)
  {
  }

  lemma OnlyEntry(s: Store, slot: nat, thisUpdate: nat, i: nat, e: Crl.Entry, x: Crl.Entry)
    requires Distinct(s) && i < |s| && Crl.Lists(s[i], slot, thisUpdate, e)
    requires x in Crl.AllEntries(s, slot, thisUpdate) && x.serial == e.serial
    ensures x == e
  {
    hide Read, Has;
    Crl.EntriesExact(s, slot, thisUpdate, x);
  }

  /**
   A certificate revoked with success at time `now` is from then on in every list of its issuer,
   once, under its serial and with that date, whatever happens to the store in between.
   */
  lemma RevocationListed(t: seq<Vault>, es: seq<Event>, n: nat, m: nat, serial: bytes, now: nat, thisUpdate: nat)
    returns (slot: nat, k: nat)
    requires IsRun(t, es) && n < m < |t| && Revoked(t, es, n, serial, now) && now != 0
    ensures RecordOf(t[n], serial).Some? && slot == RecordOf(t[n], serial).value.issuer
    ensures var all := Crl.AllEntries(t[m].issued, slot, thisUpdate);
            && k < |all| && all[k] == Crl.Entry(serial, now)
            && (Distinct(t[0].issued) ==> forall x :: x in all && x.serial == serial ==> x.at == now)
  {
    hide Step, Proper, Read, Has, Crl.AllEntries, Count, Revoked;
    RevokedStays(t, es, n, m, serial, now);
    slot := RecordOf(t[n], serial).value.issuer;
    var s := t[m].issued;
    var i, e := Find(s, serial), Crl.Entry(serial, now);
    k := Count(s[..i], slot);
    ListedInOrder(s, slot, thisUpdate, i, e);
    if Distinct(t[0].issued) {
      RunDistinct(t, es, m);
      forall x | x in Crl.AllEntries(s, slot, thisUpdate) && x.serial == serial
        ensures x.at == now
      {
        OnlyEntry(s, slot, thisUpdate, i, e, x);
      }
    }
  }

  /** And so a verifier reads it, when it is among the first 64. */
  lemma RevocationRead(t: seq<Vault>, es: seq<Event>, n: nat, m: nat, serial: bytes, at: nat, now: nat, validity: nat, issuer: bytes,
                       raw: bytes, list: bytes) returns (slot: nat, k: nat)
    requires IsRun(t, es) && n < m < |t| && Revoked(t, es, n, serial, at) && at != 0
    requires t[0] == Vault([], map[]) && Dated(es[..m])
    requires RecordOf(t[n], serial).Some?
    requires AllCounted(es[..m], RecordOf(t[n], serial).value.issuer)
    requires Count(t[m].issued, RecordOf(t[n], serial).value.issuer) < TWO_32
    requires Der.IsSequence(issuer) && |raw| == 64 && |list| < TWO_32 && CrlReader.Datable(now + validity)
    requires var slot := RecordOf(t[n], serial).value.issuer;
             var c := Crl.ContentsFor(t[m].issued, slot, now, validity, issuer, Number(t[m].numbers, slot));
             Crl.SerialsFit(c.entries) && list == Crl.ListBytes(Crl.TbsBytes(c), raw)
    ensures CrlReader.ReadCrl(list).Some? && k < Count(t[m].issued, slot)
    ensures k < 64 ==> var p := CrlReader.ReadCrl(list).value; k < |p.revoked| && p.revoked[k] == CrlReader.Revoked(FromBE(serial), at)
  {
    hide *;
    slot, k := RevocationListed(t, es, n, m, serial, at, now);
    var p := CrlOfRun(t, es, m, slot, now, validity, issuer, raw, list);
  }
}
