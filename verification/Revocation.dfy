/**
  The issued-certificate store: signing, revocation, expiry and protection of the certificates in
  it, and the CRL number kept for each slot.
 */
module Revocation {
  import opened Octets
  import opened IssuedMeta
  import Crl

  type Store = seq<Crl.Stored>

  /** The store in listing order, and the CRL numbers kept under the slots. */
  datatype Vault = Vault(issued: Store, numbers: map<nat, u32>)

  // ------------------------------------------------------------------- records

  lemma {:induction false} FromLEBound(s: bytes)
    ensures FromLE(s) < Pow256(|s|)
  {
    if s != [] {
      FromLEBound(s[1..]);
    }
  }

  /** Whatever is read can be written again. */
  lemma ReadValid(blob: bytes)
    ensures Read(blob).Some? ==> ValidMeta(Read(blob).value)
  {
    if Read(blob).Some? {
      Pow256Values();
      FromLEBound(blob[4..8]);
      FromLEBound(blob[8..16]);
      FromLEBound(blob[16..24]);
      if blob[0] == 2 {
        FromLEBound(blob[108..116]);
      }
    }
  }

  /** The record after a flag is set, written as version 2. */
  function Marked(st: Crl.Stored, m: Meta): (r: Crl.Stored)
    requires ValidMeta(m)
    ensures r.serial == st.serial && Read(r.blob) == Some(m)
  {
    ReadPack(m);
    Crl.Stored(st.serial, Pack(2, m))
  }

  function Find(s: Store, serial: bytes): (i: nat)
    ensures i <= |s|
    ensures i < |s| ==> s[i].serial == serial
    ensures i == |s| ==> forall j :: 0 <= j < |s| ==> s[j].serial != serial
    ensures forall j :: 0 <= j < i ==> s[j].serial != serial
  {
    if s == [] then 0 else if s[0].serial == serial then 0 else 1 + Find(s[1..], serial)
  }

  /** A new record where the file system comes to list it. */
  function Insert(s: Store, at: nat, st: Crl.Stored): (r: Store)
    ensures |r| == |s| + 1
  {
    var k := if at < |s| then at else |s|;
    s[..k] + [st] + s[k..]
  }

  /** A write under a serial: it replaces that record, or adds one. */
  function Put(s: Store, at: nat, st: Crl.Stored): (r: Store)
  {
    var i := Find(s, st.serial);
    if i == |s| then Insert(s, at, st) else s[i := st]
  }

  // ---------------------------------------------------------------- operations

  datatype Code = Done | Invalid | NotFound | Unreadable | Refused | Already | NotKept

  function Bumped(numbers: map<nat, u32>, slot: nat): (r: map<nat, u32>)
  {
    numbers[slot := (Number(numbers, slot) + 1) % TWO_32]
  }

  function Number(numbers: map<nat, u32>, slot: nat): (n: u32)
  {
    if slot in numbers then numbers[slot] else 0
  }

  function RevokedMeta(m: Meta, now: nat): (r: Meta)
  {
    m.(flags := With(m.flags, REVOKED), revokedAt := now, reason := 0)
  }

  function RevokeCode(v: Vault, serial: bytes, kept: bool): (r: Code)
  {
    if serial == [] || |serial| > 20 then Invalid
    else
      var i := Find(v.issued, serial);
      if i == |v.issued| then NotFound
      else match Read(v.issued[i].blob)
        case None => Unreadable
        case Some(m) =>
          if Has(m.flags, PROTECTED) then Refused else if Has(m.flags, REVOKED) then Already
          else if kept then Done else NotKept
  }

  /** ca_revoke_cert: `kept` and `numbered` say whether the record and then the number could be written. */
  function Revoke(v: Vault, serial: bytes, now: nat, kept: bool, numbered: bool): (r: Vault)
    requires now < TWO_64
  {
    if RevokeCode(v, serial, kept) != Done then v
    else
      var i := Find(v.issued, serial);
      var m := Read(v.issued[i].blob).value;
      ReadValid(v.issued[i].blob);
      Vault(v.issued[i := Marked(v.issued[i], RevokedMeta(m, now))],
            if numbered then Bumped(v.numbers, m.issuer) else v.numbers)
  }

  predicate Expires(m: Meta, now: nat)
  {
    m.notAfter != 0 && !Has(m.flags, EXPIRED) && now >= m.notAfter
  }

  /** expire_cb on one record. */
  function Expire1(st: Crl.Stored, now: nat): (r: Crl.Stored)
  {
    match Read(st.blob)
    case None => st
    case Some(m) =>
      ReadValid(st.blob);
      if Expires(m, now) then Marked(st, m.(flags := With(m.flags, EXPIRED))) else st
  }

  /** How many records an expiry pass marks. */
  function Expiring(s: Store, now: nat): (n: nat)
  {
    if s == [] then 0
    else
      var read := Read(s[|s| - 1].blob);
      Expiring(s[..|s| - 1], now) + if read.Some? && Expires(read.value, now) then 1 else 0
  }

  /** Which records can be written, by serial. */
  type Keeper = bytes -> bool

  predicate ExpiryFails(st: Crl.Stored, now: nat, kept: Keeper)
  {
    Read(st.blob).Some? && Expires(Read(st.blob).value, now) && !kept(st.serial)
  }

  /** The first record to be marked that cannot be written: the pass stops there. */
  function FirstFailure(s: Store, now: nat, kept: Keeper): (n: nat)
    ensures n <= |s| && forall i :: 0 <= i < n ==> !ExpiryFails(s[i], now, kept)
    ensures n < |s| ==> ExpiryFails(s[n], now, kept)
  {
    if s == [] || ExpiryFails(s[0], now, kept) then 0 else 1 + FirstFailure(s[1..], now, kept)
  }

  predicate Protects(m: Meta, slot: nat)
  {
    m.issuer == slot && !Has(m.flags, PROTECTED)
  }

  /** propagate_protected_cb on one record. */
  function Protect1(st: Crl.Stored, slot: nat): (r: Crl.Stored)
  {
    match Read(st.blob)
    case None => st
    case Some(m) =>
      ReadValid(st.blob);
      if Protects(m, slot) then Marked(st, m.(flags := With(m.flags, PROTECTED))) else st
  }

  function ExpireStore(s: Store, now: nat, kept: Keeper): (r: Store)
    ensures |r| == |s|
    ensures forall i :: 0 <= i < |s| ==> r[i] == if i < FirstFailure(s, now, kept) then Expire1(s[i], now) else s[i]
  {
    seq(|s|, i requires 0 <= i < |s| => if i < FirstFailure(s, now, kept) then Expire1(s[i], now) else s[i])
  }

  function ProtectStore(s: Store, slot: nat, kept: Keeper): (r: Store)
    ensures |r| == |s| && forall i :: 0 <= i < |s| ==> r[i] == if kept(s[i].serial) then Protect1(s[i], slot) else s[i]
  {
    seq(|s|, i requires 0 <= i < |s| => if kept(s[i].serial) then Protect1(s[i], slot) else s[i])
  }

  /** gen_serial: eight random octets, the first made odd and less than 128. */
  function GenSerial(random: bytes): (s: bytes)
    requires |random| == 8
    ensures |s| == 8 && s[0] < 0x80 && s[0] % 2 == 1 && s[1..] == random[1..]
    ensures s[0] == random[0] % 128 || s[0] == random[0] % 128 + 1
  {
    var low := random[0] % 128;
    [if low % 2 == 0 then low + 1 else low] + random[1..]
  }

  /** The record signing writes: version 1, no flags. */
  function Fresh(serial: bytes, issuer: u32, notBefore: nat, notAfter: nat, cn: bytes): (r: Crl.Stored)
    requires |serial| == 8 && notBefore < TWO_64 && notAfter < TWO_64 && |cn| == 64
    ensures r.serial == serial && Read(r.blob).Some?
    ensures Read(r.blob).value == Meta(0, 8, 0, issuer, notBefore, notAfter, serial + seq(12, i => 0), cn, 0)
    ensures r.blob[0] == 1
  {
    var m := Meta(0, 8, 0, issuer, notBefore, notAfter, serial + seq(12, i => 0), cn, 0);
    ReadPack(m);
    Crl.Stored(serial, Pack(1, m))
  }

  class Certs {
    var issued: Store
    var numbers: map<nat, u32>

    function Val(): (v: Vault)
      reads this
    {
      Vault(issued, numbers)
    }

    /** The record part of signing, listed at `at` when it is new; nothing is stored when the write fails. */
    method Sign(random: bytes, issuer: u32, notBefore: nat, notAfter: nat, cn: bytes, at: nat, kept: bool)
      requires |random| == 8 && notBefore < TWO_64 && notAfter < TWO_64 && |cn| == 64
      modifies this`issued
      ensures issued == if kept then Put(old(issued), at, Fresh(GenSerial(random), issuer, notBefore, notAfter, cn))
                        else old(issued)
    {
      var serial := GenSerial(random);
      var m := Meta(0, 8, 0, issuer, notBefore, notAfter, serial + seq(12, i => 0), cn, 0);
      var st := Crl.Stored(serial, Pack(1, m));
      if !kept {
        return;
      }
      var i := Find(issued, serial);
      if i == |issued| {
        var k := if at < |issued| then at else |issued|;
        issued := issued[..k] + [st] + issued[k..];
      } else {
        issued := issued[i := st];
      }
    }

    method RevokeCert(serial: bytes, now: nat, kept: bool, numbered: bool) returns (code: Code)
      requires now < TWO_64
      modifies this
      ensures code == RevokeCode(old(Val()), serial, kept) && Val() == Revoke(old(Val()), serial, now, kept, numbered)
    {
      hide Read, Pack, With, Has;
      if |serial| == 0 || |serial| > 20 {
        return Invalid;
      }
      var i := Find(issued, serial);
      if i == |issued| {
        return NotFound;
      }
      var read := Read(issued[i].blob);
      if read.None? {
        return Unreadable;
      }
      var m := read.value;
      if Has(m.flags, PROTECTED) {
        return Refused;
      }
      if Has(m.flags, REVOKED) {
        return Already;
      }
      ReadValid(issued[i].blob);
      m := m.(flags := With(m.flags, REVOKED), revokedAt := now, reason := 0);
      if !kept {
        return NotKept;
      }
      issued := issued[i := Crl.Stored(issued[i].serial, Pack(2, m))];
      var n: nat := Number(numbers, m.issuer);
      if numbered {
        numbers := numbers[m.issuer := (n + 1) % TWO_32];
      }
      return Done;
    }

    /** ca_auto_expire: refused without a time, otherwise a pass over the store that stops at a failing write. */
    method AutoExpire(now: nat, kept: Keeper) returns (count: Option<nat>)
      modifies this`issued
      ensures now == 0 ==> count.None? && issued == old(issued)
      ensures now > 0 ==> issued == ExpireStore(old(issued), now, kept)
      ensures now > 0 ==> count == if FirstFailure(old(issued), now, kept) == |old(issued)|
                                   then Some(Expiring(old(issued), now)) else None
    {
      hide Read, Pack, With, Has, Expires;
      if now == 0 {
        return None;
      }
      ghost var stop := FirstFailure(issued, now, kept);
      var n := 0;
      for i := 0 to |issued|
        invariant |issued| == |old(issued)| && n == Expiring(old(issued)[..i], now) && i <= stop
        invariant forall j :: 0 <= j < i ==> issued[j] == Expire1(old(issued)[j], now)
        invariant forall j :: i <= j < |issued| ==> issued[j] == old(issued)[j]
      {
        assert old(issued)[..i + 1][..i] == old(issued)[..i];
        var read := Read(issued[i].blob);
        if read.Some? {
          ReadValid(issued[i].blob);
          var m := read.value;
          if Expires(m, now) {
            m := m.(flags := With(m.flags, EXPIRED));
            if !kept(issued[i].serial) {
              assert ExpiryFails(old(issued)[i], now, kept);
              return None;
            }
            issued := issued[i := Crl.Stored(issued[i].serial, Pack(2, m))];
            n := n + 1;
          }
        }
        assert !ExpiryFails(old(issued)[i], now, kept);
      }
      assert old(issued)[..|issued|] == old(issued);
      return Some(n);
    }

    /** ca_protect_slot's walk over the certificates the slot issued; a failing write skips its record. */
    method ProtectIssued(slot: nat, kept: Keeper)
      modifies this`issued
      ensures issued == ProtectStore(old(issued), slot, kept)
    {
      hide Read, Pack, With, Has, Protects;
      for i := 0 to |issued|
        invariant |issued| == |old(issued)|
        invariant forall j :: 0 <= j < i ==>
                    issued[j] == if kept(old(issued)[j].serial) then Protect1(old(issued)[j], slot) else old(issued)[j]
        invariant forall j :: i <= j < |issued| ==> issued[j] == old(issued)[j]
      {
        var read := Read(issued[i].blob);
        if read.Some? {
          ReadValid(issued[i].blob);
          var m := read.value;
          if Protects(m, slot) {
            m := m.(flags := With(m.flags, PROTECTED));
            if kept(issued[i].serial) {
              issued := issued[i := Crl.Stored(issued[i].serial, Pack(2, m))];
            }
          }
        }
      }
    }
  }

  // ---------------------------------------------------------------------- runs

  datatype Event =
    | Signed(random: bytes, issuer: u32, notBefore: nat, notAfter: nat, cn: bytes, at: nat, kept: bool)
    | RevokeAsked(serial: bytes, now: nat, kept: bool, numbered: bool)
    | ExpireAll(now: nat, keeper: Keeper)
    | ProtectAll(slot: nat, keeper: Keeper)
    | SlotDeleted(slot: nat)

  /** Serials are fresh and times fit their fields. */
  predicate Proper(v: Vault, e: Event)
  {
    match e
    case Signed(random, _, notBefore, notAfter, cn, _, _) =>
      && |random| == 8 && notBefore < TWO_64 && notAfter < TWO_64 && |cn| == 64
      && Find(v.issued, GenSerial(random)) == |v.issued|
    case RevokeAsked(_, now, _, _) => now < TWO_64
    case _ => true
  }

  function Step(v: Vault, e: Event): (r: Vault)
    requires Proper(v, e)
  {
    match e
    case Signed(random, issuer, notBefore, notAfter, cn, at, kept) =>
      if kept then v.(issued := Put(v.issued, at, Fresh(GenSerial(random), issuer, notBefore, notAfter, cn))) else v
    case RevokeAsked(serial, now, kept, numbered) => Revoke(v, serial, now, kept, numbered)
    case ExpireAll(now, kept) => v.(issued := ExpireStore(v.issued, now, kept))
    case ProtectAll(slot, kept) => v.(issued := ProtectStore(v.issued, slot, kept))
    case SlotDeleted(slot) => v.(numbers := v.numbers - {slot})
  }

  /** `t` is the run of `es` from `t[0]`. */
  predicate IsRun(t: seq<Vault>, es: seq<Event>)
  {
    && |t| == |es| + 1
    && forall n :: 0 <= n < |es| ==> Proper(t[n], es[n]) && t[n + 1] == Step(t[n], es[n])
  }

  // -------------------------------------------------------------- what is kept

  /** No flag clears, a revocation keeps its time and reason, and what was protected unrevoked is not revoked. */
  ghost predicate Keeps(a: Meta, b: Meta)
  {
    && a.issuer == b.issuer && a.serial == b.serial && a.cn == b.cn
    && a.notBefore == b.notBefore && a.notAfter == b.notAfter
    && (forall f :: IsFlag(f) && Has(a.flags, f) ==> Has(b.flags, f))
    && (Has(a.flags, REVOKED) ==> b.revokedAt == a.revokedAt && b.reason == a.reason)
    && (Has(a.flags, PROTECTED) && !Has(a.flags, REVOKED) ==> !Has(b.flags, REVOKED))
  }

  ghost predicate KeepsRecord(a: Crl.Stored, b: Crl.Stored)
  {
    && a.serial == b.serial
    && (Read(a.blob).None? ==> a == b)
    && (Read(a.blob).Some? ==> Read(b.blob).Some? && Keeps(Read(a.blob).value, Read(b.blob).value))
  }

  lemma KeepsTransitive(a: Crl.Stored, b: Crl.Stored, c: Crl.Stored)
    requires KeepsRecord(a, b) && KeepsRecord(b, c)
    ensures KeepsRecord(a, c)
  {
  }

  lemma StepKeepsAt(v: Vault, e: Event, i: nat)
    requires Proper(v, e) && !e.Signed? && i < |v.issued|
    ensures var w := Step(v, e); |w.issued| == |v.issued| && KeepsRecord(v.issued[i], w.issued[i])
  {
    hide Read, Pack, With, Has;
  }

  lemma FindInsert(s: Store, at: nat, st: Crl.Stored, serial: bytes)
    requires st.serial != serial
    ensures var i, r := Find(s, serial), Insert(s, at, st);
            Find(r, serial) == if i < at && i < |s| then i else i + 1
  {
    var i, r := Find(s, serial), Insert(s, at, st);
    var k := if at < |s| then at else |s|;
    assert forall j :: 0 <= j < k ==> r[j] == s[j];
    assert r[k] == st && forall j :: k <= j < |s| ==> r[j + 1] == s[j];
    var f := if i < at && i < |s| then i else i + 1;
    assert f < |r| ==> r[f].serial == serial;
    assert forall j :: 0 <= j < f ==> r[j].serial != serial;
  }

  /** What happened to the record under a serial, wherever it is now listed. */
  ghost predicate KeepsSerial(a: Store, b: Store, serial: bytes)
    requires Find(a, serial) < |a|
  {
    Find(b, serial) < |b| && KeepsRecord(a[Find(a, serial)], b[Find(b, serial)])
  }

  lemma InsertKeeps(s: Store, at: nat, st: Crl.Stored, serial: bytes)
    requires st.serial != serial && Find(s, serial) < |s|
    ensures KeepsSerial(s, Insert(s, at, st), serial)
  {
    hide Find, KeepsRecord;
    FindInsert(s, at, st, serial);
    KeepsItself(s[Find(s, serial)]);
  }

  lemma EachKeeps(a: Store, b: Store, serial: bytes)
    requires |a| == |b| && Find(a, serial) < |a| && forall i :: 0 <= i < |a| ==> KeepsRecord(a[i], b[i])
    ensures KeepsSerial(a, b, serial)
  {
    hide Find, Keeps, Read;
    assert Find(b, serial) == Find(a, serial);
  }

  lemma StepKeeps(v: Vault, e: Event, serial: bytes)
    requires Proper(v, e) && Find(v.issued, serial) < |v.issued|
    ensures KeepsSerial(v.issued, Step(v, e).issued, serial)
  {
    hide Find, KeepsRecord, KeepsSerial, Fresh, GenSerial, Insert, Revoke, ExpireStore, ProtectStore;
    KeepsItself(v.issued[Find(v.issued, serial)]);
    if e.Signed? && e.kept {
      InsertKeeps(v.issued, e.at, Fresh(GenSerial(e.random), e.issuer, e.notBefore, e.notAfter, e.cn), serial);
    } else {
      var w := Step(v, e);
      forall i | 0 <= i < |v.issued|
        ensures |w.issued| == |v.issued| && KeepsRecord(v.issued[i], w.issued[i])
      {
        if e.Signed? { KeepsItself(v.issued[i]); } else { StepKeepsAt(v, e, i); }
      }
      EachKeeps(v.issued, w.issued, serial);
    }
  }

  /** Over every run, for every certificate ever issued. */
  lemma {:induction false} RunKeeps(t: seq<Vault>, es: seq<Event>, n: nat, m: nat, serial: bytes)
    requires IsRun(t, es) && n <= m < |t| && Find(t[n].issued, serial) < |t[n].issued|
    ensures KeepsSerial(t[n].issued, t[m].issued, serial)
    decreases m
  {
    hide Step, Proper, KeepsRecord, Find;
    var i := Find(t[n].issued, serial);
    if n == m {
      KeepsItself(t[n].issued[i]);
    } else {
      RunKeeps(t, es, n, m - 1, serial);
      StepKeeps(t[m - 1], es[m - 1], serial);
      var k, l := Find(t[m - 1].issued, serial), Find(t[m].issued, serial);
      KeepsTransitive(t[n].issued[i], t[m - 1].issued[k], t[m].issued[l]);
    }
  }

  lemma KeepsItself(a: Crl.Stored)
    ensures KeepsRecord(a, a)
  {
  }

  // ------------------------------------------------------- where flags come from

  /** The record of a certificate, as it is stored now. */
  function RecordOf(v: Vault, serial: bytes): (r: Option<Meta>)
  {
    var i := Find(v.issued, serial);
    if i < |v.issued| then Read(v.issued[i].blob) else None
  }

  /** A write under a serial is what is then read there, and leaves every other record alone. */
  lemma PutRecords(v: Vault, at: nat, st: Crl.Stored, serial: bytes)
    ensures RecordOf(v.(issued := Put(v.issued, at, st)), serial) == if serial == st.serial then Read(st.blob) else RecordOf(v, serial)
  {
    hide Read;
    var i, s := Find(v.issued, st.serial), v.issued;
    if i < |s| {
      var r := s[i := st];
      assert forall j :: 0 <= j < |s| ==> r[j].serial == s[j].serial;
      assert Find(r, serial) == Find(s, serial);
    } else {
      InsertFinds(s, at, st);
      if serial != st.serial {
        FindInsert(s, at, st, serial);
        if Find(s, serial) < |s| {
          InsertElsewhere(s, at, st, Find(s, serial));
        }
      }
    }
  }

  lemma InsertFinds(s: Store, at: nat, st: Crl.Stored)
    requires Find(s, st.serial) == |s|
    ensures var r := Insert(s, at, st); Find(r, st.serial) < |r| && r[Find(r, st.serial)] == st
  {
    var r, k := Insert(s, at, st), if at < |s| then at else |s|;
    assert r[k] == st;
    assert forall j :: 0 <= j < k ==> r[j] == s[j];
    assert Find(r, st.serial) == k;
  }

  /** Deleting a slot forgets its number and no other; its certificates stay on record. */
  lemma DeletedForgets(v: Vault, slot: nat, other: nat)
    ensures var w := Step(v, SlotDeleted(slot));
            w.issued == v.issued && Number(w.numbers, slot) == 0
            && (other != slot ==> Number(w.numbers, other) == Number(v.numbers, other))
  {
  }

  /** An expiry pass marks a record exactly when its certificate has an end and that is not in the future. */
  lemma ExpireMarks(st: Crl.Stored, now: nat)
    requires Read(st.blob).Some?
    ensures Read(Expire1(st, now).blob).Some? && Expire1(st, now).serial == st.serial
    ensures var m, m1 := Read(st.blob).value, Read(Expire1(st, now).blob).value;
            && m1 == m.(flags := m1.flags)
            && (Has(m1.flags, EXPIRED) <==> Has(m.flags, EXPIRED) || 0 < m.notAfter <= now)
            && (forall f :: IsFlag(f) && f != EXPIRED ==> (Has(m1.flags, f) <==> Has(m.flags, f)))
  {
    hide Read, Pack, With, Has;
  }

  /** Protecting a slot marks exactly the records of the certificates it issued. */
  lemma ProtectMarks(st: Crl.Stored, slot: nat)
    requires Read(st.blob).Some?
    ensures Read(Protect1(st, slot).blob).Some? && Protect1(st, slot).serial == st.serial
    ensures var m, m1 := Read(st.blob).value, Read(Protect1(st, slot).blob).value;
            && m1 == m.(flags := m1.flags)
            && (Has(m1.flags, PROTECTED) <==> Has(m.flags, PROTECTED) || m.issuer == slot)
            && (forall f :: IsFlag(f) && f != PROTECTED ==> (Has(m1.flags, f) <==> Has(m.flags, f)))
  {
    hide Read, Pack, With, Has;
  }

  /** What a pass is said to have marked is what it has marked. */
  function Flagged(s: Store, f: nat): (n: nat)
    requires IsFlag(f)
  {
    if s == [] then 0
    else
      var read := Read(s[|s| - 1].blob);
      Flagged(s[..|s| - 1], f) + if read.Some? && Has(read.value.flags, f) then 1 else 0
  }

  lemma {:induction false} ExpiringIsMarked(s: Store, now: nat, r: Store)
    requires |r| == |s| && forall i :: 0 <= i < |s| ==> r[i] == Expire1(s[i], now)
    ensures Flagged(r, EXPIRED) == Flagged(s, EXPIRED) + Expiring(s, now)
  {
    hide Read, Expire1, Has;
    if s != [] {
      var n := |s| - 1;
      ExpiringIsMarked(s[..n], now, r[..n]);
      if Read(s[n].blob).Some? {
        ExpireMarks(s[n], now);
      } else {
        ExpireUnread(s[n], now);
      }
    }
  }

  lemma ExpireUnread(st: Crl.Stored, now: nat)
    requires Read(st.blob).None?
    ensures Expire1(st, now) == st
  {
  }

  /** A revocation succeeds exactly for the record of a certificate that is neither protected nor revoked, if it can be written. */
  lemma RevokeExact(v: Vault, serial: bytes, kept: bool)
    ensures RevokeCode(v, serial, kept) == Done <==>
            && kept && 1 <= |serial| <= 20 && RecordOf(v, serial).Some?
            && !Has(RecordOf(v, serial).value.flags, PROTECTED) && !Has(RecordOf(v, serial).value.flags, REVOKED)
    ensures RevokeCode(v, serial, kept) == NotFound <==>
            1 <= |serial| <= 20 && forall i :: 0 <= i < |v.issued| ==> v.issued[i].serial != serial
    ensures RevokeCode(v, serial, kept) == Refused <==>
            1 <= |serial| <= 20 && RecordOf(v, serial).Some? && Has(RecordOf(v, serial).value.flags, PROTECTED)
  {
    hide Read, Has;
  }

  /** The event that set this flag on the certificate's record. */
  predicate Sets(e: Event, f: nat, serial: bytes, before: Meta, after: Meta)
  {
    if f == REVOKED then e.RevokeAsked? && e.serial == serial && !Has(before.flags, PROTECTED) && after.revokedAt == e.now
    else if f == PROTECTED then e.ProtectAll? && e.slot == before.issuer
    else e.ExpireAll? && 0 < before.notAfter <= e.now
  }

  lemma StepSets(v: Vault, e: Event, i: nat, f: nat)
    requires Proper(v, e) && !e.Signed? && i < |v.issued| && IsFlag(f) && Read(v.issued[i].blob).Some?
    ensures var st, w := v.issued[i], Step(v, e);
            && |w.issued| == |v.issued| && w.issued[i].serial == st.serial && Read(w.issued[i].blob).Some?
            && var m, m1 := Read(st.blob).value, Read(w.issued[i].blob).value;
               !Has(m.flags, f) && Has(m1.flags, f) ==> Sets(e, f, st.serial, m, m1)
  {
    hide Read, Pack, With, Has, Expire1, Protect1;
    match e
    case RevokeAsked(_, _, _, _) =>
    case ExpireAll(now, _) => ExpireMarks(v.issued[i], now);
    case ProtectAll(slot, _) => ProtectMarks(v.issued[i], slot);
    case SlotDeleted(_) =>
  }

  lemma StepSetsRecord(v: Vault, e: Event, serial: bytes, f: nat)
    requires Proper(v, e) && IsFlag(f) && RecordOf(v, serial).Some?
    ensures RecordOf(Step(v, e), serial).Some?
    ensures var m, m1 := RecordOf(v, serial).value, RecordOf(Step(v, e), serial).value;
            !Has(m.flags, f) && Has(m1.flags, f) ==> Sets(e, f, serial, m, m1)
  {
    hide Read, Has, Find, Fresh, GenSerial, Insert, Revoke, ExpireStore, ProtectStore;
    var i, w := Find(v.issued, serial), Step(v, e);
    StepKeeps(v, e, serial);
    if e.Signed? {
      if e.kept {
        var st := Fresh(GenSerial(e.random), e.issuer, e.notBefore, e.notAfter, e.cn);
        FindInsert(v.issued, e.at, st, serial);
        InsertElsewhere(v.issued, e.at, st, i);
      }
    } else {
      StepSets(v, e, i, f);
      SerialsStay(v, e);
      assert Find(w.issued, serial) == i;
    }
  }

  lemma InsertElsewhere(s: Store, at: nat, st: Crl.Stored, i: nat)
    requires i < |s|
    ensures Insert(s, at, st)[if i < at && i < |s| then i else i + 1] == s[i]
  {
  }

  lemma SerialsStay(v: Vault, e: Event)
    requires Proper(v, e) && !e.Signed?
    ensures var w := Step(v, e).issued; |w| == |v.issued| && forall i :: 0 <= i < |w| ==> w[i].serial == v.issued[i].serial
  {
    hide Read, Pack, With, Has;
  }

  /** Over every run: a flag that a record has gained was set by one event, for the reason that event has. */
  lemma {:induction false} FlagSetBy(t: seq<Vault>, es: seq<Event>, n: nat, m: nat, serial: bytes, f: nat) returns (k: nat)
    requires IsRun(t, es) && n <= m < |t| && IsFlag(f) && RecordOf(t[n], serial).Some? && !Has(RecordOf(t[n], serial).value.flags, f)
    requires RecordOf(t[m], serial).Some? && Has(RecordOf(t[m], serial).value.flags, f)
    ensures n <= k < m && RecordOf(t[k], serial).Some? && RecordOf(t[k + 1], serial).Some?
    ensures Sets(es[k], f, serial, RecordOf(t[k], serial).value, RecordOf(t[k + 1], serial).value)
    decreases m
  {
    hide Step, Proper, Read, Has, Find, Sets, RecordOf;
    assert RecordOf(t[m - 1], serial).Some? by { RecordStays(t, es, n, m - 1, serial); }
    StepSetsRecord(t[m - 1], es[m - 1], serial, f);
    if Has(RecordOf(t[m - 1], serial).value.flags, f) {
      k := FlagSetBy(t, es, n, m - 1, serial, f);
    } else {
      k := m - 1;
    }
  }

  lemma RecordStays(t: seq<Vault>, es: seq<Event>, n: nat, m: nat, serial: bytes)
    requires IsRun(t, es) && n <= m < |t| && RecordOf(t[n], serial).Some?
    ensures RecordOf(t[m], serial).Some?
  {
    hide Step, Proper, Read, Has, Find;
    RunKeeps(t, es, n, m, serial);
  }

  // --------------------------------------------------------------- CRL numbers

  predicate RevokedBy(st: Crl.Stored, slot: nat)
  {
    Read(st.blob).Some? && Read(st.blob).value.issuer == slot && Has(Read(st.blob).value.flags, REVOKED)
  }

  /** How many of the slot's certificates are revoked. */
  function Count(s: Store, slot: nat): (n: nat)
  {
    if s == [] then 0 else (if RevokedBy(s[0], slot) then 1 else 0) + Count(s[1..], slot)
  }

  /** It is the number of entries a CRL for the slot would list without its limit. */
  lemma {:induction false} CountIsListed(s: Store, slot: nat, thisUpdate: nat)
    ensures |Crl.AllEntries(s, slot, thisUpdate)| == Count(s, slot)
  {
    if s != [] {
      CountIsListed(s[1..], slot, thisUpdate);
    }
  }

  /** And they stand in the order of the store: a revoked record is listed behind the revoked records before it. */
  lemma {:induction false} ListedInOrder(s: Store, slot: nat, thisUpdate: nat, i: nat, e: Crl.Entry)
    requires i < |s| && Crl.Lists(s[i], slot, thisUpdate, e)
    ensures Count(s[..i], slot) < |Crl.AllEntries(s, slot, thisUpdate)|
    ensures Crl.AllEntries(s, slot, thisUpdate)[Count(s[..i], slot)] == e
    decreases i
  {
    if i > 0 {
      ListedInOrder(s[1..], slot, thisUpdate, i - 1, e);
      assert s[..i][1..] == s[1..][..i - 1];
    }
  }

  lemma {:induction false} CountSame(a: Store, b: Store, slot: nat)
    requires |a| == |b| && forall i :: 0 <= i < |a| ==> (RevokedBy(a[i], slot) <==> RevokedBy(b[i], slot))
    ensures Count(a, slot) == Count(b, slot)
  {
    hide RevokedBy;
    if a != [] {
      assert RevokedBy(a[0], slot) <==> RevokedBy(b[0], slot);
      CountSame(a[1..], b[1..], slot);
    }
  }

  lemma {:induction false} CountOneMore(a: Store, i: nat, x: Crl.Stored, slot: nat)
    requires i < |a| && !RevokedBy(a[i], slot) && RevokedBy(x, slot)
    ensures Count(a[i := x], slot) == Count(a, slot) + 1
  {
    hide RevokedBy;
    if i == 0 {
      assert a[i := x][1..] == a[1..];
    } else {
      CountOneMore(a[1..], i - 1, x, slot);
      assert a[i := x][1..] == a[1..][i - 1 := x];
    }
  }

  lemma {:induction false} CountInsert(s: Store, at: nat, x: Crl.Stored, slot: nat)
    requires !RevokedBy(x, slot)
    ensures Count(Insert(s, at, x), slot) == Count(s, slot)
  {
    hide RevokedBy;
    if s == [] || at == 0 {
      assert Insert(s, at, x)[1..] == s;
    } else {
      CountInsert(s[1..], at - 1, x, slot);
      assert Insert(s, at, x)[1..] == Insert(s[1..], at - 1, x);
    }
  }

  lemma RevokeCounts(v: Vault, serial: bytes, now: nat, kept: bool, slot: nat)
    requires now < TWO_64
    ensures var w := Revoke(v, serial, now, kept, true);
            || (Count(w.issued, slot) == Count(v.issued, slot) && Number(w.numbers, slot) == Number(v.numbers, slot))
            || (Count(w.issued, slot) == Count(v.issued, slot) + 1
                && Number(w.numbers, slot) == (Number(v.numbers, slot) + 1) % TWO_32)
  {
    if RevokeCode(v, serial, kept) == Done {
      var i := Find(v.issued, serial);
      var m := Read(v.issued[i].blob).value;
      ReadValid(v.issued[i].blob);
      var x := Marked(v.issued[i], RevokedMeta(m, now));
      RevokeFlips(v.issued[i], m, now, x, slot);
      if m.issuer == slot {
        CountOneMore(v.issued, i, x, slot);
      } else {
        CountSame(v.issued, v.issued[i := x], slot);
      }
    }
  }

  lemma RevokeFlips(st: Crl.Stored, m: Meta, now: nat, x: Crl.Stored, slot: nat)
    requires Read(st.blob) == Some(m) && !Has(m.flags, REVOKED) && Read(x.blob) == Some(RevokedMeta(m, now))
    ensures !RevokedBy(st, slot) && (RevokedBy(x, slot) <==> m.issuer == slot)
  {
    hide Read;
  }

  lemma MarksSame(st: Crl.Stored, slot: nat, now: nat, which: nat)
    ensures RevokedBy(Expire1(st, now), slot) <==> RevokedBy(st, slot)
    ensures RevokedBy(Protect1(st, which), slot) <==> RevokedBy(st, slot)
  {
    hide Pack, Has, With;
  }

  /** The slot is not deleted, and its number is written whenever a certificate is revoked. */
  predicate Counted(e: Event, slot: nat)
  {
    !(e.SlotDeleted? && e.slot == slot) && (e.RevokeAsked? ==> e.numbered)
  }

  predicate AllCounted(es: seq<Event>, slot: nat)
  {
    forall i :: 0 <= i < |es| ==> Counted(es[i], slot)
  }

  /** One step moves a slot's number exactly as it moves its count. */
  lemma StepCounts(v: Vault, e: Event, slot: nat)
    requires Proper(v, e) && Counted(e, slot)
    ensures var w := Step(v, e);
            || (Count(w.issued, slot) == Count(v.issued, slot) && Number(w.numbers, slot) == Number(v.numbers, slot))
            || (Count(w.issued, slot) == Count(v.issued, slot) + 1
                && Number(w.numbers, slot) == (Number(v.numbers, slot) + 1) % TWO_32)
  {
    hide Revoke, Expire1, Protect1;
    match e
    case Signed(random, issuer, notBefore, notAfter, cn, at, kept) =>
      CountInsert(v.issued, at, Fresh(GenSerial(random), issuer, notBefore, notAfter, cn), slot);
    case RevokeAsked(serial, now, kept, _) => RevokeCounts(v, serial, now, kept, slot);
    case ExpireAll(now, keeper) =>
      forall i | 0 <= i < |v.issued| ensures RevokedBy(Expire1(v.issued[i], now), slot) <==> RevokedBy(v.issued[i], slot) {
        MarksSame(v.issued[i], slot, now, 0);
      }
      CountSame(v.issued, ExpireStore(v.issued, now, keeper), slot);
    case ProtectAll(which, keeper) =>
      forall i | 0 <= i < |v.issued| ensures RevokedBy(Protect1(v.issued[i], which), slot) <==> RevokedBy(v.issued[i], slot) {
        MarksSame(v.issued[i], slot, 0, which);
      }
      CountSame(v.issued, ProtectStore(v.issued, which, keeper), slot);
    case SlotDeleted(_) =>
  }

  lemma NextMod(c: nat)
    ensures (c % TWO_32 + 1) % TWO_32 == (c + 1) % TWO_32
  {
  }

  /** While a slot is not deleted and its number can be written, the stored number is the count of its revoked certificates. */
  lemma {:induction false} NumberIsCount(t: seq<Vault>, es: seq<Event>, slot: nat, n: nat)
    requires IsRun(t, es) && n < |t| && AllCounted(es[..n], slot)
    requires Number(t[0].numbers, slot) == Count(t[0].issued, slot) % TWO_32
    ensures Number(t[n].numbers, slot) == Count(t[n].issued, slot) % TWO_32
    decreases n
  {
    hide Step, Proper;
    if n > 0 {
      assert es[..n][n - 1] == es[n - 1] && es[..n - 1] == es[..n][..n - 1];
      NumberIsCount(t, es, slot, n - 1);
      StepCounts(t[n - 1], es[n - 1], slot);
      NextMod(Count(t[n - 1].issued, slot));
    }
  }

  lemma {:induction false} CountGrows(t: seq<Vault>, es: seq<Event>, slot: nat, n: nat, m: nat)
    requires IsRun(t, es) && n <= m < |t| && AllCounted(es[..m], slot)
    ensures Count(t[n].issued, slot) <= Count(t[m].issued, slot)
    decreases m
  {
    hide Step, Proper;
    if n < m {
      assert es[..m][m - 1] == es[m - 1] && es[..m - 1] == es[..m][..m - 1];
      CountGrows(t, es, slot, n, m - 1);
      StepCounts(t[m - 1], es[m - 1], slot);
    }
  }

  /** So the number a CRL carries is the count, or 1 when it is zero, and never falls. */
  lemma EmittedNeverFalls(t: seq<Vault>, es: seq<Event>, slot: nat, n: nat, m: nat)
    requires IsRun(t, es) && n <= m < |t| && AllCounted(es[..m], slot)
    requires Number(t[0].numbers, slot) == Count(t[0].issued, slot) % TWO_32
    requires Count(t[m].issued, slot) < TWO_32
    ensures Crl.Emitted(Number(t[n].numbers, slot)) == if Count(t[n].issued, slot) == 0 then 1 else Count(t[n].issued, slot)
    ensures Crl.Emitted(Number(t[n].numbers, slot)) <= Crl.Emitted(Number(t[m].numbers, slot))
  {
    hide Step, Proper;
    assert es[..n] == es[..m][..n];
    CountGrows(t, es, slot, n, m);
    NumberIsCount(t, es, slot, n);
    NumberIsCount(t, es, slot, m);
  }
}
