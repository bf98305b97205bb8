/**
 The certificate chains carried inside the handshake: { 1: [cert, ...] },
 leaf first, from device to client and from client to device.
 */
module ChainPayload {
  import opened Octets
  import opened Cbor
  import opened CborEmit
  import opened CborDecode
  import opened CborWritten
  import opened DecodeWritten
  import Der

  /** SESSION_CBOR_KEY_CHAIN. */
  const KEY_CHAIN := 1
  const DEVICE_PAYLOAD_MAX := 2048
  const DEVICE_MAX_CERTS := 4
  const DEVICE_CHAIN_MAX := 2048
  const CLIENT_MAX_CERTS := 8
  const CLIENT_CHAIN_MAX := 4096

  /** A certificate: octets whose length fits 32 bits. */
  type Cert = b: bytes | |b| < TWO_32

  function CertsBytes(certs: seq<Cert>): (r: bytes)
  {
    if certs == [] then [] else BStr(certs[0]) + CertsBytes(certs[1..])
  }

  function PrefixBytes(n: nat): (r: bytes)
    requires n < TWO_32
  {
    Head(MT_MAP, 1) + Head(MT_UINT, KEY_CHAIN) + Head(MT_ARRAY, n)
  }

  function ChainBytes(certs: seq<Cert>): (r: bytes)
    requires |certs| < TWO_32
  {
    PrefixBytes(|certs|) + CertsBytes(certs)
  }

  // ----------------------------------------------------------------- encoding

  lemma {:induction false} CertsBytesSnoc(certs: seq<Cert>, x: Cert)
    ensures CertsBytes(certs + [x]) == CertsBytes(certs) + BStr(x)
  {
    if certs == [] {
      assert certs + [x] == [x] && [x][1..] == [];
      assert CertsBytes([x]) == BStr(x) + [];
    } else {
      assert (certs + [x])[1..] == certs[1..] + [x];
      CertsBytesSnoc(certs[1..], x);
    }
  }

  lemma {:induction false} CertsBytesGrow(certs: seq<Cert>, i: nat)
    requires i <= |certs|
    ensures |CertsBytes(certs[..i])| <= |CertsBytes(certs)|
    decreases i
  {
    if i > 0 {
      CertsBytesGrow(certs[1..], i - 1);
      assert certs[..i][1..] == certs[1..][..i - 1];
    }
  }

  method EmitPrefix(buf: array<byte>, cap: nat, n: nat) returns (rc: int, off: nat)
    requires cap <= buf.Length && n < TWO_32
    modifies buf
    ensures EmittedParts(old(buf[..]), buf[..], cap, 0, PrefixBytes(n), rc, off)
  {
    ghost var s0 := buf[..];
    ghost var a, b, d := Head(MT_MAP, 1), Head(MT_UINT, KEY_CHAIN), Head(MT_ARRAY, n);
    rc, off := EmitHead(buf, cap, 0, MT_MAP, 1);
    if rc != 0 { return; }
    ghost var s1 := buf[..];
    rc, off := EmitHead(buf, cap, off, MT_UINT, KEY_CHAIN);
    EmitSeq(s0, s1, buf[..], cap, 0, a, b, rc, off);
    if rc != 0 { return; }
    s1 := buf[..];
    rc, off := EmitHead(buf, cap, off, MT_ARRAY, n);
    EmitSeq(s0, s1, buf[..], cap, 0, a + b, d, rc, off);
  }

  /** One more certificate behind what has been emitted since `s0`. */
  method EmitCert(buf: array<byte>, cap: nat, off: nat, cert: Cert, ghost s0: bytes, ghost done: bytes)
    returns (rc: int, off': nat)
    requires cap <= buf.Length && |s0| == buf.Length && off == |done| <= cap && buf[..] == Splice(s0, 0, done)
    modifies buf
    ensures EmittedParts(s0, buf[..], cap, 0, done + BStr(cert), rc, off')
  {
    ghost var s1 := buf[..];
    rc, off' := EmitStr(buf, cap, off, false, cert);
    EmitSeq(s0, s1, buf[..], cap, 0, done, BStr(cert), rc, off');
  }

  /** Failing part way is failing. */
  lemma FailsWhole(s0: bytes, s': bytes, cap: nat, part: bytes, whole: bytes, rc: int, off: nat)
    requires EmittedParts(s0, s', cap, 0, part, rc, off) && rc != 0 && |part| <= |whole|
    ensures EmittedParts(s0, s', cap, 0, whole, rc, off)
  {
  }

  lemma NextDone(certs: seq<Cert>, i: nat, prefix: bytes)
    requires i < |certs|
    ensures prefix + CertsBytes(certs[..i]) + BStr(certs[i]) == prefix + CertsBytes(certs[..i + 1])
    ensures |CertsBytes(certs[..i + 1])| <= |CertsBytes(certs)|
  {
    assert certs[..i + 1] == certs[..i] + [certs[i]];
    CertsBytesSnoc(certs[..i], certs[i]);
    CertsBytesGrow(certs, i + 1);
  }

  /** `done` is the payload up to and including certificate `i - 1`, and the buffer holds it. */
  ghost predicate Emitting(s0: bytes, s: bytes, cap: nat, len: nat, prefix: bytes, all: seq<Cert>, i: nat)
  {
    && i <= |all| && |s| == |s0| && cap <= |s0|
    && var done := prefix + CertsBytes(all[..i]);
       len == |done| <= cap && s == Splice(s0, 0, done)
  }

  /** Emits certificate `i`. */
  method EmitNext(buf: array<byte>, cap: nat, off: nat, cert: Cert, ghost s0: bytes, ghost prefix: bytes,
                  ghost all: seq<Cert>, ghost i: nat) returns (rc: int, len: nat)
    requires i < |all| && cert == all[i] && Emitting(s0, buf[..], cap, off, prefix, all, i)
    modifies buf
    ensures rc == 0 ==> Emitting(s0, buf[..], cap, len, prefix, all, i + 1)
    ensures rc != 0 ==> EmittedParts(s0, buf[..], cap, 0, prefix + CertsBytes(all), rc, len)
  {
    ghost var done := prefix + CertsBytes(all[..i]);
    rc, len := EmitCert(buf, cap, off, cert, s0, done);
    NextDone(all, i, prefix);
    if rc != 0 {
      FailsWhole(s0, buf[..], cap, done + BStr(cert), prefix + CertsBytes(all), rc, len);
    }
  }

  /** encode_chain_cbor: succeeds exactly when the payload fits. */
  method EncodeChain(buf: array<byte>, cap: nat, certs: seq<Cert>) returns (rc: int, len: nat)
    requires cap <= buf.Length && |certs| < TWO_32
    modifies buf
    ensures EmittedParts(old(buf[..]), buf[..], cap, 0, ChainBytes(certs), rc, len)
  {
    ghost var s0 := buf[..];
    ghost var prefix := PrefixBytes(|certs|);
    rc, len := EmitPrefix(buf, cap, |certs|);
    if rc != 0 {
      FailsWhole(s0, buf[..], cap, prefix, ChainBytes(certs), rc, len);
      return;
    }
    assert certs[..0] == [] && prefix + [] == prefix;
    for i := 0 to |certs|
      modifies buf
      invariant rc == 0 && Emitting(s0, buf[..], cap, len, prefix, certs, i)
    {
      rc, len := EmitNext(buf, cap, len, certs[i], s0, prefix, certs, i);
      if rc != 0 {
        return;
      }
    }
    assert certs[..|certs|] == certs;
  }

  // ------------------------------------------------------------------ parsing

  /** What a receiver takes from a list before a limit stops it. */
  function WithinLimits(certs: seq<bytes>, maxCerts: nat, room: nat): (r: seq<bytes>)
    ensures r <= certs && |r| <= maxCerts
    decreases |certs|
  {
    if certs == [] || maxCerts == 0 || |certs[0]| > room then []
    else [certs[0]] + WithinLimits(certs[1..], maxCerts - 1, room - |certs[0]|)
  }

  /** A way of reading the byte string at an offset. */
  type StrReader = nat -> Read<bytes>

  function Reader(pt: bytes): (read: StrReader)
  {
    (off: nat) => ReadBstr(pt, off)
  }

  /** The array elements, up to the first that is missing, is no byte string, or exceeds a limit. */
  function ParseCerts(read: StrReader, off: nat, n: nat, maxCerts: nat, room: nat): (r: seq<bytes>)
    ensures |r| <= maxCerts
    decreases n
  {
    if n == 0 then []
    else
      var b := read(off);
      if b.Refused? || maxCerts == 0 || |b.value| > room then []
      else [b.value] + ParseCerts(read, b.next, n - 1, maxCerts - 1, room - |b.value|)
  }

  /** The array head behind the map head and the key, if the payload has that shape. */
  function ChainHead(pt: bytes, sizeT: nat): (r: HeadRead)
    requires sizeT > 0
  {
    var m := ReadHead(pt, 0);
    if m.NoHead? || m.major != MT_MAP || m.val % sizeT == 0 then NoHead
    else
      var k := ReadUint32(pt, m.next);
      if k.Refused? || k.value != KEY_CHAIN then NoHead
      else
        var a := ReadHead(pt, k.next);
        if a.NoHead? || a.major != MT_ARRAY then NoHead else a.(val := a.val % sizeT)
  }

  /** The chain in a payload, read by the grammar; `sizeT` is the modulus of the receiver's size_t. */
  function ParseChain(pt: bytes, sizeT: nat, maxCerts: nat, maxTotal: nat): (r: seq<bytes>)
    requires sizeT > 0
  {
    var h := ChainHead(pt, sizeT);
    if h.NoHead? then [] else ParseCerts(Reader(pt), h.next, h.val, maxCerts, maxTotal)
  }

  /** The payloads with a chain: a map with at least one entry, the key 1, and an array, all in any head widths. */
  lemma PayloadHead(pt: bytes, sizeT: nat, w1: Width, v1: nat, w2: Width, w3: Width, n: nat)
    requires sizeT > 0 && Fits(w1, v1) && Fits(w2, 1) && Fits(w3, n) && v1 % sizeT != 0
    requires At(pt, 0, HeadBytes(MT_MAP, w1, v1) + HeadBytes(MT_UINT, w2, 1) + HeadBytes(MT_ARRAY, w3, n))
    ensures ChainHead(pt, sizeT) == HeadAt(MT_ARRAY, n % sizeT, 3 + Octs(w1) + Octs(w2) + Octs(w3))
  {
    hide ReadHead, HeadBytes;
    var a, b, d := HeadBytes(MT_MAP, w1, v1), HeadBytes(MT_UINT, w2, 1), HeadBytes(MT_ARRAY, w3, n);
    AtSplit(pt, 0, a + b, d);
    AtSplit(pt, 0, a, b);
    ReadHeadOf(pt, 0, MT_MAP, w1, v1);
    ReadHeadOf(pt, |a|, MT_UINT, w2, 1);
    ReadHeadOf(pt, |a| + |b|, MT_ARRAY, w3, n);
  }

  /** And no others. */
  lemma PayloadHeadInv(pt: bytes, sizeT: nat) returns (w1: Width, v1: nat, w2: Width, w3: Width, n: nat)
    requires sizeT > 0 && ChainHead(pt, sizeT).HeadAt?
    ensures Fits(w1, v1) && Fits(w2, 1) && Fits(w3, n) && v1 % sizeT != 0
    ensures At(pt, 0, HeadBytes(MT_MAP, w1, v1) + HeadBytes(MT_UINT, w2, 1) + HeadBytes(MT_ARRAY, w3, n))
    ensures ChainHead(pt, sizeT) == HeadAt(MT_ARRAY, n % sizeT, 3 + Octs(w1) + Octs(w2) + Octs(w3))
  {
    hide ReadHead, HeadBytes;
    var m := ReadHead(pt, 0);
    var k := ReadHead(pt, m.next);
    var a := ReadHead(pt, k.next);
    v1, n := m.val, a.val;
    w1 := ReadHeadInv(pt, 0);
    w2 := ReadHeadInv(pt, m.next);
    w3 := ReadHeadInv(pt, k.next);
    var x, y, z := HeadBytes(MT_MAP, w1, v1), HeadBytes(MT_UINT, w2, 1), HeadBytes(MT_ARRAY, w3, n);
    AtSplit(pt, 0, x, y);
    AtSplit(pt, 0, x + y, z);
  }

  function TotalLength(certs: seq<bytes>): (n: nat)
  {
    if certs == [] then 0 else |certs[0]| + TotalLength(certs[1..])
  }

  /** What a receiver takes is as much as fits: the next certificate would break a limit. */
  lemma {:induction false} WithinLimitsLongest(certs: seq<bytes>, maxCerts: nat, room: nat)
    ensures var r := WithinLimits(certs, maxCerts, room);
            && r <= certs && |r| <= maxCerts && TotalLength(r) <= room
            && (|r| < |certs| ==> |r| == maxCerts || TotalLength(r) + |certs[|r|]| > room)
    decreases |certs|
  {
    if certs != [] && maxCerts > 0 && |certs[0]| <= room {
      WithinLimitsLongest(certs[1..], maxCerts - 1, room - |certs[0]|);
    }
  }

  // ---------------------------------------------------------- parsing as written

  /** What has been stored, and whether the code then copies from beyond the payload. */
  datatype Stored = Stored(certs: seq<bytes>, over: bool)

  /** The array loop of parse_client_chain and parse_device_chain, with `total` octets stored. */
  function TakeCerts(pt: bytes, off: nat, n: nat, maxCerts: nat, total: nat, maxTotal: nat, sizeT: nat): (r: Stored)
    requires sizeT > 0
    decreases n
  {
    if n == 0 then Stored([], false)
    else
      match TakeBstr(pt, off, sizeT)
      case No(_) => Stored([], false)
      case Endless => Stored([], false)
      case Yes(view, next) =>
        if maxCerts == 0 || (total + view.len) % sizeT > maxTotal then Stored([], false)
        else if view.at + view.len > |pt| then Stored([], true)
        else
          var rest := TakeCerts(pt, next, n - 1, maxCerts - 1, total + view.len, maxTotal, sizeT);
          Stored([pt[view.at..view.at + view.len]] + rest.certs, rest.over)
  }

  /** parse_client_chain and parse_device_chain. */
  function TakeChain(pt: bytes, sizeT: nat, maxCerts: nat, maxTotal: nat): (r: Stored)
    requires sizeT > 0
  {
    var h := ChainHead(pt, sizeT);
    if h.NoHead? then Stored([], false) else TakeCerts(pt, h.next, h.val, maxCerts, 0, maxTotal, sizeT)
  }

  /** A byte string is reached that claims 2^64 - k octets, so that the sum wraps, with k or more octets stored. */
  predicate Overruns(pt: bytes, off: nat, n: nat, maxCerts: nat, total: nat, maxTotal: nat)
    decreases n
  {
    && n > 0 && maxCerts > 0
    && match ReadBstr(pt, off)
       case Got(d, next) => total + |d| <= maxTotal && Overruns(pt, next, n - 1, maxCerts - 1, total + |d|, maxTotal)
       case Refused(e) => e.Wraps? && total + ReadHead(pt, off).val >= TWO_64
  }

  /** One read of the loop, with and without a wrap. */
  lemma TakeOne(pt: bytes, off: nat, total: nat, maxTotal: nat, sizeT: nat)
    requires IsSizeT(sizeT) && total <= maxTotal && |pt| + maxTotal < sizeT
    ensures var a, r := TakeBstr(pt, off, sizeT), ReadBstr(pt, off);
            && (r.Got? ==> && a.Yes? && a.next == r.next && a.value.len == |r.value| && Shows(pt, a.value, r.value)
                           && (total + a.value.len) % sizeT == total + |r.value|)
            && (r.Refused? && r.e != Wraps ==> a == No(r.e))
            && (r == Refused(Wraps) ==> && a.Yes? && a.value.at + a.value.len > |pt|
                                        && ((total + a.value.len) % sizeT <= maxTotal
                                            <==> total + ReadHead(pt, off).val >= TWO_64))
  {
    var r := ReadBstr(pt, off);
    if r != Refused(Wraps) {
      TakeBstrAgrees(pt, off, sizeT);
      if r.Got? {
        SmallMod(total + |r.value|, sizeT);
      }
    } else {
      hide ReadHead;
      var h := ReadHead(pt, off);
      var k := TWO_64 - h.val;
      WrapLength(h.val, k, sizeT);
      WrapSum(total, k, maxTotal, sizeT);
    }
  }

  lemma WrapSum(total: nat, k: nat, maxTotal: nat, sizeT: nat)
    requires total <= maxTotal && maxTotal + k < sizeT && k > 0
    ensures (total + (sizeT - k)) % sizeT <= maxTotal <==> total >= k
  {
    if total >= k {
      assert total + (sizeT - k) == (total - k) + sizeT;
      assert (total + (sizeT - k)) % sizeT == total - k;
    } else {
      SmallMod(total + (sizeT - k), sizeT);
    }
  }

  lemma WrapLength(v: nat, k: nat, sizeT: nat)
    requires IsSizeT(sizeT) && 0 < k <= sizeT && v == TWO_64 - k
    ensures k < sizeT ==> v % sizeT == sizeT - k
  {
    assert v == sizeT - k + (TWO_64 / sizeT - 1) * sizeT;
  }

  /** One turn of the loop, by what the grammar reads. */
  lemma TakeUnfolds(pt: bytes, off: nat, n: nat, maxCerts: nat, total: nat, maxTotal: nat, sizeT: nat)
    requires IsSizeT(sizeT) && total <= maxTotal && |pt| + maxTotal < sizeT && n > 0
    ensures var s, r := TakeCerts(pt, off, n, maxCerts, total, maxTotal, sizeT), ReadBstr(pt, off);
            if r.Got? && maxCerts > 0 && total + |r.value| <= maxTotal then
              var rest := TakeCerts(pt, r.next, n - 1, maxCerts - 1, total + |r.value|, maxTotal, sizeT);
              s == Stored([r.value] + rest.certs, rest.over)
            else s == Stored([], maxCerts > 0 && r == Refused(Wraps) && total + ReadHead(pt, off).val >= TWO_64)
  {
    hide ReadHead, TakeBstr, ReadBstr;
    TakeOne(pt, off, total, maxTotal, sizeT);
  }

  /**
   The code stores exactly the certificates the grammar finds, within its limits; it then copies from
   beyond the payload if and only if it reaches a wrapping string claiming 2^64 - k octets with k stored.
   */
  lemma {:induction false} TakeCertsExact(pt: bytes, off: nat, n: nat, maxCerts: nat, total: nat, maxTotal: nat, sizeT: nat)
    requires IsSizeT(sizeT) && total <= maxTotal && |pt| + maxTotal < sizeT
    ensures var s := TakeCerts(pt, off, n, maxCerts, total, maxTotal, sizeT);
            && s.certs == ParseCerts(Reader(pt), off, n, maxCerts, maxTotal - total)
            && (s.over <==> Overruns(pt, off, n, maxCerts, total, maxTotal))
    decreases n
  {
    hide ReadHead, TakeBstr, ReadBstr, IsSizeT;
    if n > 0 {
      TakeUnfolds(pt, off, n, maxCerts, total, maxTotal, sizeT);
      hide TakeCerts;
      var r := ReadBstr(pt, off);
      if r.Got? && maxCerts > 0 && total + |r.value| <= maxTotal {
        TakeCertsExact(pt, r.next, n - 1, maxCerts - 1, total + |r.value|, maxTotal, sizeT);
      }
    }
  }

  lemma TakeChainExact(pt: bytes, sizeT: nat, maxCerts: nat, maxTotal: nat)
    requires IsSizeT(sizeT) && |pt| + maxTotal < sizeT
    ensures var s, h := TakeChain(pt, sizeT, maxCerts, maxTotal), ChainHead(pt, sizeT);
            && s.certs == ParseChain(pt, sizeT, maxCerts, maxTotal)
            && (s.over <==> h.HeadAt? && Overruns(pt, h.next, h.val, maxCerts, 0, maxTotal))
  {
    hide TakeCerts, ParseCerts;
    var h := ChainHead(pt, sizeT);
    if h.HeadAt? {
      TakeCertsExact(pt, h.next, h.val, maxCerts, 0, maxTotal, sizeT);
    }
  }

  /** The heads of the payload below. */
  lemma OverrunHeads(pt: bytes, sizeT: nat)
    requires IsSizeT(sizeT)
    requires pt == [0xA1, 0x01, 0x82, 0x49] + [1, 2, 3, 4, 5, 6, 7, 8, 9] + [0x5B]
                   + [0xFF, 0xFF, 0xFF, 0xFF, 0xFF, 0xFF, 0xFF, 0xF8]
    ensures ChainHead(pt, sizeT) == HeadAt(MT_ARRAY, 2, 3) && ReadBstr(pt, 3) == Got([1, 2, 3, 4, 5, 6, 7, 8, 9], 13)
    ensures ReadHead(pt, 13) == HeadAt(MT_BSTR, TWO_64 - 8, 22) && ReadBstr(pt, 13) == Refused(Wraps)
  {
    assert ReadHead(pt, 0) == HeadAt(MT_MAP, 1, 1) && ReadHead(pt, 1) == HeadAt(MT_UINT, 1, 2);
    assert ReadHead(pt, 2) == HeadAt(MT_ARRAY, 2, 3) && ReadHead(pt, 3) == HeadAt(MT_BSTR, 9, 4);
    assert pt[4..13] == [1, 2, 3, 4, 5, 6, 7, 8, 9];
    WideHead(pt, 13, 0xF8);
  }

  /** Nine octets, then a string said to have 2^64 - 8: the copy runs beyond the payload. */
  lemma OverrunExample(pt: bytes, sizeT: nat)
    requires IsSizeT(sizeT)
    requires pt == [0xA1, 0x01, 0x82, 0x49] + [1, 2, 3, 4, 5, 6, 7, 8, 9] + [0x5B]
                   + [0xFF, 0xFF, 0xFF, 0xFF, 0xFF, 0xFF, 0xFF, 0xF8]
    ensures TakeChain(pt, sizeT, DEVICE_MAX_CERTS, DEVICE_CHAIN_MAX) == Stored([[1, 2, 3, 4, 5, 6, 7, 8, 9]], true)
  {
    hide ReadHead, TakeBstr, ReadBstr, ChainHead;
    OverrunHeads(pt, sizeT);
    TakeOne(pt, 3, 0, DEVICE_CHAIN_MAX, sizeT);
    TakeOne(pt, 13, 9, DEVICE_CHAIN_MAX, sizeT);
    assert TakeCerts(pt, 13, 1, 3, 9, DEVICE_CHAIN_MAX, sizeT) == Stored([], true);
    assert TakeCerts(pt, 3, 2, 4, 0, DEVICE_CHAIN_MAX, sizeT) == Stored([[1, 2, 3, 4, 5, 6, 7, 8, 9]] + [], true);
  }

  /** The receiver's store: one buffer, with an offset and a length for each certificate. */
  class ChainStore {
    const data: array<byte>
    const maxCerts: nat
    var total: nat
    var offs: seq<nat>
    var lens: seq<nat>
    /** The certificates as the accessors hand them out. */
    ghost var certs: seq<bytes>

    ghost predicate Valid()
      reads this, data
    {
      && total <= data.Length && |offs| == |lens| == |certs| <= maxCerts
      && forall i :: 0 <= i < |offs| ==> offs[i] + lens[i] <= total && data[offs[i]..offs[i] + lens[i]] == certs[i]
    }

    constructor (capacity: nat, maxCerts: nat)
      ensures Valid() && fresh(data) && certs == [] && total == 0
      ensures data.Length == capacity && this.maxCerts == maxCerts
    {
      data := new byte[capacity](_ => 0);
      this.maxCerts := maxCerts;
      total, offs, lens, certs := 0, [], [], [];
    }

    /** session_get_client_cert and cantil_session_device_cert. */
    method Get(i: nat) returns (r: Option<bytes>)
      requires Valid()
      ensures r == if i < |certs| then Some(certs[i]) else None
    {
      if i >= |offs| {
        return None;
      }
      return Some(data[offs[i]..offs[i] + lens[i]]);
    }

    /** Copies one certificate behind the others, unless a limit forbids it. */
    method Append(cert: bytes) returns (ok: bool)
      requires Valid()
      modifies this, data
      ensures Valid()
      ensures ok <==> old(|certs|) < maxCerts && old(total) + |cert| <= data.Length
      ensures certs == (if ok then old(certs) + [cert] else old(certs))
      ensures total == old(total) + if ok then |cert| else 0
    {
      if |offs| >= maxCerts || total + |cert| > data.Length {
        return false;
      }
      ghost var s0 := data[..];
      CopyIn(data, total, cert);
      forall i | 0 <= i < |offs|
        ensures data[offs[i]..offs[i] + lens[i]] == certs[i]
      {
        SpliceKeeps(s0, total, cert, offs[i], offs[i] + lens[i]);
        assert data[offs[i]..offs[i] + lens[i]] == data[..][offs[i]..offs[i] + lens[i]];
        assert s0[offs[i]..offs[i] + lens[i]] == old(data[offs[i]..offs[i] + lens[i]]);
      }
      assert data[total..total + |cert|] == data[..][total..total + |cert|] == cert;
      offs, lens, certs := offs + [total], lens + [|cert|], certs + [cert];
      total := total + |cert|;
      return true;
    }

    /** The loop over the array elements. It stops where the copy would run beyond the payload. */
    method Fill(pt: bytes, start: nat, n: nat, sizeT: nat) returns (over: bool)
      requires Valid() && total == 0 && certs == [] && IsSizeT(sizeT) && |pt| + data.Length < sizeT
      modifies this, data
      ensures Valid() && Stored(certs, over) == TakeCerts(pt, start, n, maxCerts, 0, data.Length, sizeT)
    {
      hide TakeBstr, TakeCerts, Filling;
      ghost var whole := TakeCerts(pt, start, n, maxCerts, 0, data.Length, sizeT);
      FillStarts(whole, pt, start, n, maxCerts, data.Length, sizeT);
      var off, i := start, 0;
      while i < n
        invariant 0 <= i <= n && off >= 0 && Valid() && |certs| == i
        invariant Filling(whole, certs, pt, off, n - i, maxCerts - i, total, data.Length, sizeT)
      {
        var b := ReadBstrView(pt, off, sizeT);
        FillStops(whole, certs, pt, off, n - i, maxCerts - i, total, data.Length, sizeT);
        if !b.Yes? {
          return false;
        }
        if |offs| >= maxCerts || (total + b.value.len) % sizeT > data.Length {
          return false;
        }
        if b.value.at + b.value.len > |pt| {
          return true;
        }
        FillStep(whole, certs, pt, off, n - i, maxCerts - i, total, data.Length, sizeT);
        SmallMod(total + b.value.len, sizeT);
        var ok := Append(pt[b.value.at..b.value.at + b.value.len]);
        off, i := b.next, i + 1;
      }
      FillStops(whole, certs, pt, off, 0, maxCerts - i, total, data.Length, sizeT);
      return false;
    }

    /** parse_client_chain and parse_device_chain: fill the store as the payload is walked. */
    method Parse(pt: bytes, sizeT: nat) returns (over: bool)
      requires Valid() && total == 0 && certs == [] && IsSizeT(sizeT) && |pt| + data.Length < sizeT
      modifies this, data
      ensures Valid() && Stored(certs, over) == TakeChain(pt, sizeT, maxCerts, data.Length)
    {
      hide TakeCerts;
      var h := ChainHead(pt, sizeT);
      if |pt| == 0 || h.NoHead? {
        return false;
      }
      over := Fill(pt, h.next, h.val, sizeT);
    }
  }

  /** `had` has been stored and the loop goes on at `off` to store the rest of `whole`. */
  ghost predicate Filling(whole: Stored, had: seq<bytes>, pt: bytes, off: nat, n: nat, maxCerts: nat, total: nat, maxTotal: nat,
                          sizeT: nat)
    requires sizeT > 0
  {
    var rest := TakeCerts(pt, off, n, maxCerts, total, maxTotal, sizeT);
    whole == Stored(had + rest.certs, rest.over)
  }

  lemma FillStarts(whole: Stored, pt: bytes, off: nat, n: nat, maxCerts: nat, maxTotal: nat, sizeT: nat)
    requires sizeT > 0 && whole == TakeCerts(pt, off, n, maxCerts, 0, maxTotal, sizeT)
    ensures Filling(whole, [], pt, off, n, maxCerts, 0, maxTotal, sizeT)
  {
    assert [] + whole.certs == whole.certs;
  }

  /** Where the loop stops, and with what. */
  lemma FillStops(whole: Stored, had: seq<bytes>, pt: bytes, off: nat, n: nat, maxCerts: nat, total: nat, maxTotal: nat, sizeT: nat)
    requires sizeT > 0 && Filling(whole, had, pt, off, n, maxCerts, total, maxTotal, sizeT)
    ensures var b := TakeBstr(pt, off, sizeT);
            && (n == 0 || !b.Yes? || maxCerts == 0 || (total + b.value.len) % sizeT > maxTotal ==> whole == Stored(had, false))
            && ((n > 0 && b.Yes? && maxCerts > 0 && (total + b.value.len) % sizeT <= maxTotal
                 && b.value.at + b.value.len > |pt|) ==> whole == Stored(had, true))
  {
    hide TakeBstr;
    assert had + [] == had;
  }

  lemma FillStep(whole: Stored, had: seq<bytes>, pt: bytes, off: nat, n: nat, maxCerts: nat, total: nat, maxTotal: nat, sizeT: nat)
    requires sizeT > 0 && n > 0 && maxCerts > 0 && TakeBstr(pt, off, sizeT).Yes?
    requires var view := TakeBstr(pt, off, sizeT).value;
             (total + view.len) % sizeT <= maxTotal && view.at + view.len <= |pt|
    requires Filling(whole, had, pt, off, n, maxCerts, total, maxTotal, sizeT)
    ensures var b := TakeBstr(pt, off, sizeT);
            Filling(whole, had + [pt[b.value.at..b.value.at + b.value.len]], pt, b.next, n - 1, maxCerts - 1,
                    total + b.value.len, maxTotal, sizeT)
  {
    hide TakeBstr;
    var b := TakeBstr(pt, off, sizeT);
    var rest := TakeCerts(pt, b.next, n - 1, maxCerts - 1, total + b.value.len, maxTotal, sizeT);
    var x := pt[b.value.at..b.value.at + b.value.len];
    assert had + ([x] + rest.certs) == had + [x] + rest.certs;
  }

  lemma SpliceKeeps(s: bytes, off: nat, data: bytes, a: nat, b: nat)
    requires off + |data| <= |s| && a <= b <= off
    ensures Splice(s, off, data)[a..b] == s[a..b]
  {
  }

  // --------------------------------------------------------------- round trip

  lemma ReadBstrAt(pt: bytes, off: nat, d: Cert)
    requires At(pt, off, BStr(d)) && |pt| < TWO_64
    ensures Reader(pt)(off) == Got(d, off + |BStr(d)|)
  {
    ShortestFits(|d|);
    assert BStr(d) == Enc(Str(false, Shortest(|d|), d));
    ReadBstrOf(pt, off, Shortest(|d|), d);
  }

  /** The reader finds these certificates one after the other from `off` on. */
  ghost predicate Finds(read: StrReader, off: nat, certs: seq<bytes>)
    decreases |certs|
  {
    certs == [] || (read(off).Got? && read(off).value == certs[0] && Finds(read, read(off).next, certs[1..]))
  }

  lemma FindsCons(read: StrReader, off: nat, certs: seq<bytes>, next: nat)
    requires certs != [] && read(off) == Got(certs[0], next) && Finds(read, next, certs[1..])
    ensures Finds(read, off, certs)
  {
  }

  lemma {:induction false} ReaderFinds(pt: bytes, off: nat, certs: seq<Cert>)
    requires At(pt, off, CertsBytes(certs)) && |pt| < TWO_64
    ensures Finds(Reader(pt), off, certs)
    decreases |certs|
  {
    if certs != [] {
      var next := off + |BStr(certs[0])|;
      AtSplit(pt, off, BStr(certs[0]), CertsBytes(certs[1..]));
      ReaderFinds(pt, next, certs[1..]);
      ReadBstrAt(pt, off, certs[0]);
      FindsCons(Reader(pt), off, certs, next);
    }
  }

  lemma {:induction false} ParseCertsOf(read: StrReader, off: nat, certs: seq<bytes>, maxCerts: nat, room: nat)
    requires Finds(read, off, certs)
    ensures ParseCerts(read, off, |certs|, maxCerts, room) == WithinLimits(certs, maxCerts, room)
    decreases |certs|
  {
    if certs != [] && maxCerts > 0 && |certs[0]| <= room {
      ParseCertsOf(read, read(off).next, certs[1..], maxCerts - 1, room - |certs[0]|);
    }
  }

  lemma HeadReads(pt: bytes, off: nat, m: byte, v: nat)
    requires IsMajor(m) && v < TWO_64 && At(pt, off, Head(m, v))
    ensures ReadHead(pt, off) == HeadAt(m, v, off + |Head(m, v)|)
  {
    ShortestFits(v);
    ReadHeadOf(pt, off, m, Shortest(v), v);
  }

  lemma ChainHeadAt(pt: bytes, sizeT: nat, n: nat, i: nat, j: nat, l: nat)
    requires n < TWO_32 <= sizeT
    requires ReadHead(pt, 0) == HeadAt(MT_MAP, 1, i) && ReadUint32(pt, i) == Got(KEY_CHAIN, j)
    requires ReadHead(pt, j) == HeadAt(MT_ARRAY, n, l)
    ensures ChainHead(pt, sizeT) == HeadAt(MT_ARRAY, n, l)
  {
    hide ReadHead, ReadUint32;
    SmallMod(n, sizeT);
    SmallMod(1, sizeT);
  }

  lemma ChainHeadOf(pt: bytes, n: nat, sizeT: nat)
    requires n < TWO_32 <= sizeT && At(pt, 0, PrefixBytes(n))
    ensures ChainHead(pt, sizeT) == HeadAt(MT_ARRAY, n, |PrefixBytes(n)|)
  {
    var a, b, d := Head(MT_MAP, 1), Head(MT_UINT, KEY_CHAIN), Head(MT_ARRAY, n);
    AtSplit(pt, 0, a + b, d);
    AtSplit(pt, 0, a, b);
    HeadReads(pt, 0, MT_MAP, 1);
    KeyReads(pt, |a|);
    HeadReads(pt, |a| + |b|, MT_ARRAY, n);
    ChainHeadAt(pt, sizeT, n, |a|, |a| + |b|, |a| + |b| + |d|);
  }

  lemma KeyReads(pt: bytes, off: nat)
    requires At(pt, off, Head(MT_UINT, KEY_CHAIN))
    ensures ReadUint32(pt, off) == Got(KEY_CHAIN, off + |Head(MT_UINT, KEY_CHAIN)|)
  {
    HeadReads(pt, off, MT_UINT, KEY_CHAIN);
  }

  lemma {:induction false} NoOverrunOf(pt: bytes, off: nat, certs: seq<bytes>, maxCerts: nat, total: nat, maxTotal: nat)
    requires Finds(Reader(pt), off, certs)
    ensures !Overruns(pt, off, |certs|, maxCerts, total, maxTotal)
    decreases |certs|
  {
    hide ReadBstr, ReadHead;
    if certs != [] && maxCerts > 0 {
      assert ReadBstr(pt, off) == Reader(pt)(off);
      NoOverrunOf(pt, ReadBstr(pt, off).next, certs[1..], maxCerts - 1, total + |certs[0]|, maxTotal);
    }
  }

  /** A chain payload parses to the same list, cut only where the receiver's limits cut it. */
  lemma ChainRoundTrip(certs: seq<Cert>, sizeT: nat, maxCerts: nat, maxTotal: nat)
    requires |certs| < TWO_32 && IsSizeT(sizeT) && |ChainBytes(certs)| + maxTotal < sizeT
    ensures TakeChain(ChainBytes(certs), sizeT, maxCerts, maxTotal) == Stored(WithinLimits(certs, maxCerts, maxTotal), false)
  {
    hide TakeChain, ChainHead, PrefixBytes, CertsBytes, Overruns, ParseCerts;
    var pt, p := ChainBytes(certs), PrefixBytes(|certs|);
    assert pt[0..|pt|] == pt;
    AtSplit(pt, 0, p, CertsBytes(certs));
    ChainHeadOf(pt, |certs|, sizeT);
    ReaderFinds(pt, |p|, certs);
    ParseCertsOf(Reader(pt), |p|, certs, maxCerts, maxTotal);
    NoOverrunOf(pt, |p|, certs, maxCerts, 0, maxTotal);
    TakeChainExact(pt, sizeT, maxCerts, maxTotal);
  }

  lemma {:induction false} NothingCut(certs: seq<bytes>, maxCerts: nat, room: nat)
    ensures WithinLimits(certs, maxCerts, room) == certs <==> |certs| <= maxCerts && |Concat(certs)| <= room
    decreases |certs|
  {
    if certs != [] {
      if maxCerts > 0 && |certs[0]| <= room {
        NothingCut(certs[1..], maxCerts - 1, room - |certs[0]|);
        assert certs == [certs[0]] + certs[1..];
      }
    }
  }

  lemma {:induction false} CertsFitPayload(certs: seq<Cert>)
    ensures |Concat(certs)| <= |CertsBytes(certs)|
    decreases |certs|
  {
    if certs != [] {
      CertsFitPayload(certs[1..]);
    }
  }

  /** Every chain the device can send (four certificates, 2048 octets of payload) reaches the client whole. */
  lemma DeviceChainArrives(certs: seq<Cert>, sizeT: nat)
    requires IsSizeT(sizeT)
    requires |certs| <= DEVICE_MAX_CERTS && |ChainBytes(certs)| <= DEVICE_PAYLOAD_MAX
    ensures TakeChain(ChainBytes(certs), sizeT, CLIENT_MAX_CERTS, CLIENT_CHAIN_MAX) == Stored(certs, false)
  {
    ChainRoundTrip(certs, sizeT, CLIENT_MAX_CERTS, CLIENT_CHAIN_MAX);
    CertsFitPayload(certs);
    NothingCut(certs, CLIENT_MAX_CERTS, CLIENT_CHAIN_MAX);
  }

  /** The device stores every chain whole that has at most four certificates and fits its payload buffer of 2048. */
  lemma ClientChainStored(certs: seq<Cert>, sizeT: nat)
    requires |certs| < TWO_32 && IsSizeT(sizeT) && |ChainBytes(certs)| <= DEVICE_PAYLOAD_MAX
    ensures TakeChain(ChainBytes(certs), sizeT, DEVICE_MAX_CERTS, DEVICE_CHAIN_MAX) == Stored(certs, false)
            <==> |certs| <= DEVICE_MAX_CERTS
  {
    ChainRoundTrip(certs, sizeT, DEVICE_MAX_CERTS, DEVICE_CHAIN_MAX);
    CertsFitPayload(certs);
    NothingCut(certs, DEVICE_MAX_CERTS, DEVICE_CHAIN_MAX);
  }

  /**
   collect_local_certs, encode_chain_cbor and parse_device_chain together: from
   a leaf and a stored blob of concatenated issuers, the client receives the
   leaf and the first three issuers, in order.
   */
  lemma DeviceIdentityArrives(leaf: Cert, issuers: seq<bytes>, sent: seq<Cert>, sizeT: nat)
    requires forall i :: 0 <= i < |issuers| ==> Der.IsSequence(issuers[i])
    requires IsSizeT(sizeT)
    requires sent == [leaf] + Der.Split(Concat(issuers), DEVICE_MAX_CERTS - 1, Der.SequenceMeasurer(4))
    requires |ChainBytes(sent)| <= DEVICE_PAYLOAD_MAX
    ensures TakeChain(ChainBytes(sent), sizeT, CLIENT_MAX_CERTS, CLIENT_CHAIN_MAX)
            == Stored([leaf] + issuers[..if |issuers| <= 3 then |issuers| else 3], false)
  {
    Der.SplitConcat(issuers, DEVICE_MAX_CERTS - 1, 4);
    DeviceChainArrives(sent, sizeT);
  }

  // -------------------------------------------- what the client puts in a chain

  /** The client's own length parse of one SEQUENCE: at most three length octets. */
  function ClientMeasure(p: bytes): (r: Option<nat>)
    ensures r.Some? ==> 2 <= r.value <= |p|
  {
    if |p| <= 2 || p[0] != Der.TAG_SEQUENCE then None
    else if p[1] < 0x80 then (if 2 + p[1] as int > |p| then None else Some(2 + p[1] as int))
    else
      var nb := p[1] - 0x80;
      if nb > 3 || 2 + nb > |p| then None
      else
        var n := 2 + nb + FromBE(p[2..2 + nb]);
        if n > |p| then None else Some(n)
  }

  /** All leading SEQUENCEs of the issuer blob. */
  function ClientSplit(blob: bytes): (parts: seq<bytes>)
    ensures |parts| <= |blob|
  {
    Der.Split(blob, |blob|, ClientMeasure)
  }

  lemma ClientMeasuresWith(content: bytes, rest: bytes)
    requires 1 <= |content| < 0x100_0000
    ensures var part := Der.Tlv(Der.TAG_SEQUENCE, content); ClientMeasure(part + rest) == Some(|part|)
  {
    var n, k := |content|, Der.LenOctets(|content|);
    var s := Der.Tlv(Der.TAG_SEQUENCE, content) + rest;
    assert s == [Der.TAG_SEQUENCE] + Der.LenBytes(n) + (content + rest);
    if k > 0 {
      assert s[2..2 + k] == ToBE(n, k);
      Der.LenFits(n);
      FromToBE(n, k);
      hide FromBE, ToBE;
    }
  }

  /** A DER SEQUENCE with content of 1 to 2^24 - 1 octets is measured exactly, whatever follows. */
  lemma ClientMeasures(content: bytes)
    requires 1 <= |content| < 0x100_0000
    ensures Der.Measures(ClientMeasure, Der.Tlv(Der.TAG_SEQUENCE, content))
  {
    hide Der.Tlv, ClientMeasure;
    forall rest: bytes
      ensures ClientMeasure(Der.Tlv(Der.TAG_SEQUENCE, content) + rest) == Some(|Der.Tlv(Der.TAG_SEQUENCE, content)|)
    {
      ClientMeasuresWith(content, rest);
    }
  }

  /**
   The client's parse measures exactly the SEQUENCEs, of more than two octets, whose length is written in
   at most three; to it a length octet of 0x80 also announces an empty content.
   */
  lemma ClientMeasureExact(p: bytes, n: nat)
    ensures ClientMeasure(p) == Some(n) <==>
            && |p| > 2
            && ((p[0] == 0x30 && p[1] == 0x80 && n == 2) || Der.Measure(p, 0x30, 3) == Some(n))
  {
  }

  /** Concatenated certificates split back into themselves. */
  lemma ClientSplitConcat(contents: seq<bytes>, parts: seq<bytes>)
    requires |parts| == |contents|
    requires forall i :: 0 <= i < |parts| ==>
               1 <= |contents[i]| < 0x100_0000 && parts[i] == Der.Tlv(Der.TAG_SEQUENCE, contents[i])
    ensures ClientSplit(Concat(parts)) == parts
  {
    forall i | 0 <= i < |parts|
      ensures Der.Measures(ClientMeasure, parts[i])
    {
      ClientMeasures(contents[i]);
    }
    ConcatLonger(parts);
    Der.SplitMeasured(parts, |Concat(parts)|, ClientMeasure);
  }

  lemma {:induction false} ConcatLonger(parts: seq<bytes>)
    requires forall i :: 0 <= i < |parts| ==> |parts[i]| >= 1
    ensures |Concat(parts)| >= |parts|
  {
    if parts != [] {
      ConcatLonger(parts[1..]);
    }
  }

  method MeasureHere(p: bytes) returns (r: Option<nat>)
    requires |p| > 2
    ensures r == ClientMeasure(p)
  {
    if p[0] != Der.TAG_SEQUENCE {
      return None;
    }
    var hlen, inner: nat := 2, p[1];
    if p[1] >= 0x80 {
      var nb := p[1] - 0x80;
      if nb > 3 || 2 + nb > |p| {
        return None;
      }
      inner := 0;
      for b := 0 to nb
        invariant inner == FromBE(p[2..2 + b])
      {
        assert p[2..2 + b + 1][..b] == p[2..2 + b];
        inner := inner * 256 + p[2 + b];
      }
      hlen := 2 + nb;
    }
    if hlen + inner > |p| {
      return None;
    }
    return Some(hlen + inner);
  }

  lemma SplitBudget(blob: bytes, off: nat, n: nat)
    requires off <= |blob| && n >= |blob| - off
    ensures Der.Split(blob[off..], n, ClientMeasure) == ClientSplit(blob[off..])
  {
    EnoughBudget(blob[off..], n, |blob| - off);
  }

  lemma {:induction false} EnoughBudget(blob: bytes, m: nat, n: nat)
    requires m >= |blob| && n >= |blob|
    ensures Der.Split(blob, m, ClientMeasure) == Der.Split(blob, n, ClientMeasure)
    decreases |blob|
  {
    if |blob| > 1 && ClientMeasure(blob).Some? {
      EnoughBudget(blob[ClientMeasure(blob).value..], m - 1, n - 1);
    }
  }

  lemma SplitNext(blob: bytes, off: nat)
    requires off <= |blob|
    ensures |blob| - off <= 2 ==> ClientSplit(blob[off..]) == []
    ensures |blob| - off > 2 ==>
            var m := ClientMeasure(blob[off..]);
            ClientSplit(blob[off..]) == if m.None? then []
                                        else [blob[off..off + m.value]] + ClientSplit(blob[off + m.value..])
  {
    if |blob| - off > 2 && ClientMeasure(blob[off..]).Some? {
      var n := ClientMeasure(blob[off..]).value;
      assert blob[off..][n..] == blob[off + n..];
      assert blob[off..][..n] == blob[off..off + n];
      SplitBudget(blob, off + n, |blob| - off - 1);
    }
  }

  /** The counting pass: one leaf and every part the emitting pass will find. */
  method CountCerts(blob: bytes) returns (n: nat)
    ensures n == 1 + |ClientSplit(blob)|
  {
    n := 1;
    var co := 0;
    assert blob[0..] == blob;
    while co + 2 < |blob|
      invariant 0 <= co <= |blob| && n + |ClientSplit(blob[co..])| == 1 + |ClientSplit(blob)|
      decreases |blob| - co
    {
      SplitNext(blob, co);
      var m := MeasureHere(blob[co..]);
      if m.None? {
        return;
      }
      n, co := n + 1, co + m.value;
    }
    SplitNext(blob, co);
  }

  /** Every part is no longer than the blob it was cut from. */
  lemma {:induction false} PartsShort(blob: bytes, max: nat)
    ensures forall i :: 0 <= i < |Der.Split(blob, max, ClientMeasure)| ==>
              |Der.Split(blob, max, ClientMeasure)[i]| <= |blob|
    decreases max
  {
    if |blob| > 1 && max > 0 && ClientMeasure(blob).Some? {
      PartsShort(blob[ClientMeasure(blob).value..], max - 1);
    }
  }

  /** What the client sends as its chain: the leaf, then the parts of the issuer blob. */
  ghost function ClientCerts(leaf: Cert, blob: Cert): (r: seq<Cert>)
    ensures |r| == 1 + |ClientSplit(blob)| && r[0] == leaf
    ensures forall i :: 0 <= i < |ClientSplit(blob)| ==> r[i + 1] == ClientSplit(blob)[i]
  {
    PartsShort(blob, |blob|);
    var parts := ClientSplit(blob);
    seq(1 + |parts|, i requires 0 <= i < 1 + |parts| => if i == 0 then leaf else parts[i - 1])
  }

  /**
   The client's payload: the count in the array head is always the number of
   certificates that follow, so the payload is exactly the chain of the leaf
   and the parts of the issuer blob, or it does not fit (the source's buffer
   has 3000 octets).
   */
  method BuildClientChain(buf: array<byte>, cap: nat, leaf: Cert, blob: Cert) returns (rc: int, len: nat)
    requires cap <= buf.Length && |blob| < TWO_32 - 1
    modifies buf
    ensures EmittedParts(old(buf[..]), buf[..], cap, 0, ChainBytes(ClientCerts(leaf, blob)), rc, len)
  {
    ghost var s0 := buf[..];
    ghost var all := ClientCerts(leaf, blob);
    var n := CountCerts(blob);
    ghost var prefix := PrefixBytes(n);
    rc, len := EmitPrefix(buf, cap, n);
    if rc != 0 {
      FailsWhole(s0, buf[..], cap, prefix, ChainBytes(all), rc, len);
      return;
    }
    assert all[..0] == [] && prefix + [] == prefix;
    rc, len := EmitNext(buf, cap, len, leaf, s0, prefix, all, 0);
    if rc != 0 {
      return;
    }
    assert all[1..] == ClientSplit(blob);
    rc, len := EmitParts(buf, cap, len, blob, s0, prefix, all);
  }

  lemma PartsLeft(blob: bytes, co: nat, all: seq<bytes>, i: nat)
    requires co <= |blob| && 1 <= i <= |all| && all[i..] == ClientSplit(blob[co..])
    ensures |blob| - co <= 2 ==> i == |all|
    ensures |blob| - co > 2 ==>
            var m := ClientMeasure(blob[co..]);
            if m.None? then i == |all|
            else i < |all| && all[i] == blob[co..co + m.value] && all[i + 1..] == ClientSplit(blob[co + m.value..])
  {
    SplitNext(blob, co);
    if i < |all| {
      assert all[i] == all[i..][0] && all[i + 1..] == all[i..][1..];
    }
  }

  /** The emitting pass over the issuer blob. */
  method EmitParts(buf: array<byte>, cap: nat, off: nat, blob: Cert, ghost s0: bytes, ghost prefix: bytes,
                   ghost all: seq<Cert>) returns (rc: int, len: nat)
    requires |all| >= 1 && all[1..] == ClientSplit(blob) && Emitting(s0, buf[..], cap, off, prefix, all, 1)
    modifies buf
    ensures EmittedParts(s0, buf[..], cap, 0, prefix + CertsBytes(all), rc, len)
  {
    rc, len := 0, off;
    ghost var i := 1;
    var co := 0;
    assert blob[0..] == blob;
    while co + 2 < |blob|
      invariant 0 <= co <= |blob| && 1 <= i <= |all| && rc == 0
      invariant all[i..] == ClientSplit(blob[co..])
      invariant Emitting(s0, buf[..], cap, len, prefix, all, i)
      decreases |blob| - co
    {
      PartsLeft(blob, co, all, i);
      var m := MeasureHere(blob[co..]);
      if m.None? {
        assert all[..i] == all;
        return;
      }
      rc, len := EmitNext(buf, cap, len, blob[co..co + m.value], s0, prefix, all, i);
      if rc != 0 {
        return;
      }
      i := i + 1;
      co := co + m.value;
    }
    PartsLeft(blob, co, all, i);
    assert all[..i] == all;
  }
}
