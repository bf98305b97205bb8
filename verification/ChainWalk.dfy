/** Assembling a slot's certificate chain by following issuer slots, with a depth bound against cycles. */
module ChainWalk {
  import opened Octets

  /**
    The slots on the volume: their certificates, the chains the host pushed for them, how a
    certificate's serial is read, and which slot issued a serial.
   */
  datatype Slots = Slots(n: nat, cert: map<nat, bytes>, chain: map<nat, bytes>,
                         serial: bytes -> Option<bytes>, issuedBy: bytes -> Option<nat>)

  datatype Outcome = Done(der: bytes) | Loop | Invalid | Missing | Io

  /** A file read into `room` octets: what does not fit is left behind. */
  function ReadInto(file: bytes, room: nat): (r: bytes)
    ensures |r| <= room && r <= file && (|r| == room || r == file)
  {
    if |file| <= room then file else file[..room]
  }

  /** The slot that issued the certificate of `slot`; a serial with no record belongs to a root. */
  function Issuer(v: Slots, slot: nat, der: bytes): (i: nat)
  {
    match v.serial(der)
    case None => slot
    case Some(s) => match v.issuedBy(s) { case None => slot case Some(i) => i }
  }

  /** chain_walk, as what it appends to the buffer. */
  function Walk(v: Slots, slot: nat, room: nat, depth: nat): (r: Outcome)
    ensures r.Done? ==> |r.der| <= room
    decreases if depth < v.n then v.n - depth else 0
  {
    if depth >= v.n then Loop
    else if slot >= v.n then Invalid
    else if slot !in v.cert then Missing
    else
      var c := ReadInto(v.cert[slot], room);
      if slot in v.chain then Done(c + ReadInto(v.chain[slot], room - |c|))
      else if v.serial(c).None? then Io
      else if Issuer(v, slot, c) == slot then Done(c)
      else
        match Walk(v, Issuer(v, slot, c), room - |c|, depth + 1)
        case Done(rest) => Done(c + rest)
        case other => other
  }

  method ReadFile(file: bytes, out: array<byte>, off: nat) returns (len: nat)
    requires off <= out.Length
    modifies out
    ensures var got := ReadInto(file, out.Length - off);
            len == |got| && out[..] == Splice(old(out[..]), off, got)
  {
    ghost var before := out[..];
    var got := ReadInto(file, out.Length - off);
    len := |got|;
    for i := 0 to len
      invariant out[..] == before[..off] + got[..i] + before[off + i..]
    {
      out[off + i] := got[i];
    }
  }

  method Append(v: Slots, slot: nat, out: array<byte>, off: nat, depth: nat) returns (r: Outcome, off': nat)
    requires off <= out.Length
    modifies out
    ensures r == Walk(v, slot, out.Length - off, depth)
    ensures r.Done? ==> off' == off + |r.der| && out[..] == Splice(old(out[..]), off, r.der)
    decreases if depth < v.n then v.n - depth else 0
  {
    hide Issuer;
    off' := off;
    if depth >= v.n {
      return Loop, off';
    }
    if slot >= v.n {
      return Invalid, off';
    }
    if slot !in v.cert {
      return Missing, off';
    }
    ghost var before := out[..];
    var len := ReadFile(v.cert[slot], out, off');
    off' := off' + len;
    ghost var c := ReadInto(v.cert[slot], out.Length - off);
    if slot in v.chain {
      var more := ReadFile(v.chain[slot], out, off');
      ghost var rest := ReadInto(v.chain[slot], out.Length - off');
      SpliceSplice(before, off, c, rest);
      off' := off' + more;
      return Done(out[off..off']), off';
    }
    var der := out[off..off'];
    assert der == c;
    if v.serial(der).None? {
      return Io, off';
    }
    var issuer := Issuer(v, slot, der);
    if issuer == slot {
      return Done(der), off';
    }
    var tail: Outcome;
    tail, off' := Append(v, issuer, out, off', depth + 1);
    if tail.Done? {
      SpliceSplice(before, off, c, tail.der);
      return Done(der + tail.der), off';
    }
    return tail, off';
  }

  // ------------------------------------------------------------ following links

  /**
    By the volume's own records: the slot holds a certificate and no pushed chain, and the
    certificate's serial is on record as issued by another slot.
   */
  predicate Links(v: Slots, s: nat, i: nat)
  {
    && s in v.cert && s !in v.chain && i != s
    && v.serial(v.cert[s]).Some? && v.issuedBy(v.serial(v.cert[s]).value) == Some(i)
  }

  /** A pushed chain, or a certificate with no record or with one that names its own slot. */
  predicate Final(v: Slots, s: nat)
  {
    s < v.n && s in v.cert
    && (s in v.chain || v.serial(v.cert[s]).None? || v.issuedBy(v.serial(v.cert[s]).value).None?
        || v.issuedBy(v.serial(v.cert[s]).value).value == s)
  }

  /** A way from slot to slot along the links. */
  predicate LinkPath(v: Slots, p: seq<nat>): (r: bool)
    ensures r ==> p != []
  {
    p != [] && forall k :: 0 <= k < |p| - 1 ==> p[k] < v.n && Links(v, p[k], p[k + 1])
  }

  /** Where the walk goes from `s`, if it goes on. */
  function Next(v: Slots, s: nat): (r: Option<nat>)
  {
    if s >= v.n || s !in v.cert || s in v.chain || Issuer(v, s, v.cert[s]) == s then None
    else Some(Issuer(v, s, v.cert[s]))
  }

  /** The slot `k` links away. */
  function Nth(v: Slots, s: nat, k: nat): (r: Option<nat>)
    decreases k
  {
    if k == 0 then Some(s)
    else match Next(v, s) { case None => None case Some(i) => Nth(v, i, k - 1) }
  }

  /** The slots visited in at most `fuel` steps that have a certificate. */
  function Trail(v: Slots, s: nat, fuel: nat): (t: seq<nat>)
    ensures forall x :: x in t ==> x in v.cert
    decreases fuel
  {
    if fuel == 0 || s >= v.n || s !in v.cert then []
    else [s] + match Next(v, s) { case None => [] case Some(i) => Trail(v, i, fuel - 1) }
  }

  function CertsOf(v: Slots, t: seq<nat>): (r: seq<bytes>)
    requires forall x :: x in t ==> x in v.cert
  {
    if t == [] then [] else [v.cert[t[0]]] + CertsOf(v, t[1..])
  }

  /** The chain pushed for the last slot visited. */
  function Tail(v: Slots, t: seq<nat>): (r: bytes)
  {
    if t != [] && t[|t| - 1] in v.chain then v.chain[t[|t| - 1]] else []
  }

  function FullChain(v: Slots, s: nat, fuel: nat): (r: bytes)
  {
    Concat(CertsOf(v, Trail(v, s, fuel))) + Tail(v, Trail(v, s, fuel))
  }

  predicate Readable(v: Slots)
  {
    forall s :: s in v.cert ==> v.serial(v.cert[s]).Some?
  }

  /** The chain of `s` is its certificate followed by the chain of the next slot, or by its pushed chain. */
  lemma FullChainUnfolds(v: Slots, s: nat, fuel: nat)
    requires fuel > 0 && s < v.n && s in v.cert
    ensures Next(v, s).None? ==> FullChain(v, s, fuel) == v.cert[s] + if s in v.chain then v.chain[s] else []
    ensures Next(v, s).Some? ==> FullChain(v, s, fuel) == v.cert[s] + FullChain(v, Next(v, s).value, fuel - 1)
  {
    var t := Trail(v, s, fuel);
    if Next(v, s).None? {
      assert t == [s] && CertsOf(v, t) == [v.cert[s]];
      assert Concat([v.cert[s]]) == v.cert[s] + Concat([]);
    } else {
      var rest := Trail(v, Next(v, s).value, fuel - 1);
      assert t == [s] + rest && t[1..] == rest;
      assert CertsOf(v, t) == [v.cert[s]] + CertsOf(v, rest);
      assert CertsOf(v, t)[1..] == CertsOf(v, rest);
      assert Tail(v, t) == Tail(v, rest);
    }
  }

  /** Where the walk stops after `fuel` steps at most: at a chain or a root, or because something is missing. */
  predicate Ends(v: Slots, s: nat, k: nat)
  {
    Nth(v, s, k).Some? && var e := Nth(v, s, k).value; e < v.n && e in v.cert && Next(v, e).None?
  }

  /** With readable certificates and room for the whole chain, what the walk returns, step by step. */
  lemma {:induction false} WalkSteps(v: Slots, s: nat, room: nat, depth: nat)
    requires Readable(v) && depth <= v.n && |FullChain(v, s, v.n - depth)| <= room
    ensures var r := Walk(v, s, room, depth);
            && (r.Loop? <==> Nth(v, s, v.n - depth).Some?)
            && (r.Done? <==> exists k: nat :: k < v.n - depth && Ends(v, s, k))
            && (r.Done? ==> r.der == FullChain(v, s, v.n - depth))
            && !r.Io?
    decreases v.n - depth
  {
    hide FullChain, Issuer;
    var fuel := v.n - depth;
    if fuel > 0 && s < v.n && s in v.cert {
      FullChainUnfolds(v, s, fuel);
      if Next(v, s).None? {
        assert Ends(v, s, 0);
      } else {
        var i := Next(v, s).value;
        WalkSteps(v, i, room - |v.cert[s]|, depth + 1);
        EndsShift(v, s, i, fuel);
      }
    } else {
      NeverEnds(v, s, fuel);
    }
  }

  lemma NeverEnds(v: Slots, s: nat, fuel: nat)
    requires fuel == 0 || s >= v.n || s !in v.cert
    ensures !exists k: nat :: k < fuel && Ends(v, s, k)
  {
    forall k: nat | k < fuel ensures !Ends(v, s, k) {
      if k > 0 {
        assert Next(v, s).None?;
      }
    }
  }

  lemma EndsShift(v: Slots, s: nat, i: nat, fuel: nat)
    requires fuel > 0 && Next(v, s) == Some(i)
    ensures (exists k: nat :: k < fuel && Ends(v, s, k)) <==> (exists k: nat :: k < fuel - 1 && Ends(v, i, k))
  {
    if k: nat :| k < fuel && Ends(v, s, k) {
      assert k > 0 && Ends(v, i, k - 1);
    }
    if k: nat :| k < fuel - 1 && Ends(v, i, k) {
      assert Ends(v, s, k + 1);
    }
  }

  // ------------------------------------------------------- the walk and the links

  lemma NextLinks(v: Slots, s: nat, i: nat)
    ensures Next(v, s) == Some(i) <==> s < v.n && Links(v, s, i)
    ensures s < v.n && s in v.cert ==> (Next(v, s).None? <==> Final(v, s))
  {
  }

  lemma {:induction false} PathNth(v: Slots, p: seq<nat>)
    requires LinkPath(v, p)
    ensures Nth(v, p[0], |p| - 1) == Some(p[|p| - 1])
    decreases |p|
  {
    hide Links, Next;
    if |p| > 1 {
      NextLinks(v, p[0], p[1]);
      assert LinkPath(v, p[1..]);
      PathNth(v, p[1..]);
    }
  }

  lemma {:induction false} NthPath(v: Slots, s: nat, k: nat)
    requires Nth(v, s, k).Some?
    ensures LinkPath(v, Path(v, s, k)) && Path(v, s, k)[0] == s && Path(v, s, k)[k] == Nth(v, s, k).value
    decreases k
  {
    hide Links, Next;
    if k > 0 {
      var i := Next(v, s).value;
      NextLinks(v, s, i);
      NthPath(v, i, k - 1);
      var p, q := Path(v, s, k), Path(v, i, k - 1);
      assert p == [s] + q;
      forall j | 0 <= j < |p| - 1
        ensures p[j] < v.n && Links(v, p[j], p[j + 1])
      {
        if j > 0 {
          assert p[j] == q[j - 1] && p[j + 1] == q[j];
        }
      }
    }
  }

  lemma {:induction false} TrailIsPath(v: Slots, s: nat, fuel: nat)
    requires fuel > 0 && s < v.n && s in v.cert
    ensures var t := Trail(v, s, fuel); LinkPath(v, t) && t[0] == s && |t| <= fuel
    decreases fuel
  {
    hide Links, Next;
    if fuel > 1 && Next(v, s).Some? {
      var i := Next(v, s).value;
      NextLinks(v, s, i);
      if i < v.n && i in v.cert {
        TrailIsPath(v, i, fuel - 1);
        var t, q := Trail(v, s, fuel), Trail(v, i, fuel - 1);
        assert t == [s] + q;
        forall j | 0 <= j < |t| - 1
          ensures t[j] < v.n && Links(v, t[j], t[j + 1])
        {
          if j > 0 {
            assert t[j] == q[j - 1] && t[j + 1] == q[j];
          }
        }
      }
    }
  }

  /** A path to a final slot is what the walk visits. */
  lemma {:induction false} FinalIsTrail(v: Slots, p: seq<nat>, fuel: nat)
    requires LinkPath(v, p) && Final(v, p[|p| - 1]) && |p| <= fuel
    ensures Trail(v, p[0], fuel) == p
    decreases |p|
  {
    hide Links, Next, Final;
    if |p| == 1 {
      FinalStays(v, p[0]);
    } else {
      NextLinks(v, p[0], p[1]);
      LinksHold(v, p[0], p[1]);
      assert LinkPath(v, p[1..]);
      FinalIsTrail(v, p[1..], fuel - 1);
    }
  }

  lemma FinalStays(v: Slots, s: nat)
    requires Final(v, s)
    ensures s < v.n && s in v.cert && Next(v, s).None?
  {
  }

  lemma LinksHold(v: Slots, s: nat, i: nat)
    requires Links(v, s, i)
    ensures s in v.cert
  {
  }

  /** The certificates along a path, and the chain pushed for its last slot. */
  function ChainAlong(v: Slots, p: seq<nat>): (r: bytes)
    requires forall x :: x in p ==> x in v.cert
  {
    Concat(CertsOf(v, p)) + Tail(v, p)
  }

  /** Nothing read on the way is cut off. */
  ghost predicate Roomy(v: Slots, s: nat, room: nat)
  {
    forall p :: LinkPath(v, p) && p[0] == s && |p| <= v.n && (forall x :: x in p ==> x in v.cert) ==> |ChainAlong(v, p)| <= room
  }

  lemma RoomyFits(v: Slots, s: nat, room: nat)
    requires Roomy(v, s, room)
    ensures |FullChain(v, s, v.n)| <= room
  {
    if v.n > 0 && s < v.n && s in v.cert {
      TrailIsPath(v, s, v.n);
      assert |ChainAlong(v, Trail(v, s, v.n))| <= room;
    }
  }

  lemma EndsIsFinal(v: Slots, s: nat, k: nat)
    ensures Ends(v, s, k) <==> exists p :: LinkPath(v, p) && p[0] == s && |p| == k + 1 && Final(v, p[k])
  {
    hide Links, Next, Final;
    if Ends(v, s, k) {
      NthPath(v, s, k);
      var e := Nth(v, s, k).value;
      NextLinks(v, e, 0);
      assert Final(v, Path(v, s, k)[k]);
    }
    if p :| LinkPath(v, p) && p[0] == s && |p| == k + 1 && Final(v, p[k]) {
      PathNth(v, p);
      FinalStays(v, p[k]);
    }
  }

  /** The links lead, within as many slots as there are, to a pushed chain or a root. */
  ghost predicate Arrives(v: Slots, s: nat)
  {
    exists p :: LinkPath(v, p) && p[0] == s && |p| <= v.n && Final(v, p[|p| - 1])
  }

  /** They lead further than there are slots. */
  ghost predicate Overlong(v: Slots, s: nat)
  {
    exists p :: LinkPath(v, p) && p[0] == s && |p| == v.n + 1
  }

  lemma EndsAlong(v: Slots, s: nat)
    ensures (exists k: nat :: k < v.n && Ends(v, s, k)) <==> Arrives(v, s)
  {
    hide LinkPath, Ends, Final;
    if k: nat :| k < v.n && Ends(v, s, k) {
      EndsIsFinal(v, s, k);
      var p :| LinkPath(v, p) && p[0] == s && |p| == k + 1 && Final(v, p[k]);
      assert Final(v, p[|p| - 1]);
    }
    if p :| LinkPath(v, p) && p[0] == s && |p| <= v.n && Final(v, p[|p| - 1]) {
      EndsIsFinal(v, s, |p| - 1);
      assert Ends(v, s, |p| - 1);
    }
  }

  lemma LoopsAlong(v: Slots, s: nat)
    ensures Nth(v, s, v.n).Some? <==> Overlong(v, s)
  {
    hide Links, Next;
    if Nth(v, s, v.n).Some? {
      NthPath(v, s, v.n);
    }
    if p :| LinkPath(v, p) && p[0] == s && |p| == v.n + 1 {
      PathNth(v, p);
    }
  }

  /**
    With readable certificates and room for them: the walk succeeds exactly when the links arrive,
    and reports a loop exactly when they lead further than there are slots.
   */
  lemma WalkFollows(v: Slots, s: nat, room: nat)
    requires Readable(v) && Roomy(v, s, room)
    ensures var r := Walk(v, s, room, 0); (r.Done? <==> Arrives(v, s)) && (r.Loop? <==> Overlong(v, s)) && !r.Io?
  {
    hide *;
    RoomyFits(v, s, room);
    WalkSteps(v, s, room, 0);
    EndsAlong(v, s);
    LoopsAlong(v, s);
  }

  /** What it then returns: the certificates along the links, and the chain pushed for the last slot. */
  lemma WalkReturns(v: Slots, p: seq<nat>, room: nat)
    requires Readable(v) && LinkPath(v, p) && |p| <= v.n && Final(v, p[|p| - 1]) && Roomy(v, p[0], room)
    ensures (forall x :: x in p ==> x in v.cert) && Walk(v, p[0], room, 0) == Done(ChainAlong(v, p))
  {
    hide *;
    RoomyFits(v, p[0], room);
    WalkSteps(v, p[0], room, 0);
    EndsIsFinal(v, p[0], |p| - 1);
    assert Ends(v, p[0], |p| - 1);
    FinalIsTrail(v, p, v.n);
    TrailChain(v, p[0], v.n);
  }

  lemma TrailChain(v: Slots, s: nat, fuel: nat)
    ensures FullChain(v, s, fuel) == ChainAlong(v, Trail(v, s, fuel))
  {
  }

  lemma {:induction false} WalkStopsAt(v: Slots, s: nat, room: nat, depth: nat, k: nat)
    requires Readable(v) && depth <= v.n && |FullChain(v, s, v.n - depth)| <= room
    requires k < v.n - depth && Nth(v, s, k).Some? && (Nth(v, s, k).value >= v.n || Nth(v, s, k).value !in v.cert)
    ensures Walk(v, s, room, depth) == if Nth(v, s, k).value >= v.n then Invalid else Missing
    decreases v.n - depth
  {
    hide FullChain, Issuer;
    if k > 0 {
      FullChainUnfolds(v, s, v.n - depth);
      WalkStopsAt(v, Next(v, s).value, room - |v.cert[s]|, depth + 1, k - 1);
    }
  }

  /** And links that lead astray are told apart: to no slot of the device, or to one without a certificate. */
  lemma WalkStops(v: Slots, p: seq<nat>, room: nat)
    requires Readable(v) && LinkPath(v, p) && |p| <= v.n && Roomy(v, p[0], room)
    requires p[|p| - 1] >= v.n || p[|p| - 1] !in v.cert
    ensures Walk(v, p[0], room, 0) == if p[|p| - 1] >= v.n then Invalid else Missing
  {
    hide *;
    RoomyFits(v, p[0], room);
    PathNth(v, p);
    WalkStopsAt(v, p[0], room, 0, |p| - 1);
  }

  // ------------------------------------------------------------------ loops

  /** The links from `s` come back to a slot already visited; no slot links to itself, so the cycle has two or more. */
  ghost predicate InCycle(v: Slots, s: nat)
  {
    exists p, i, j :: LinkPath(v, p) && p[0] == s && 0 <= i < j < |p| && p[i] == p[j]
  }

  ghost predicate Returns(v: Slots, s: nat)
  {
    exists i: nat, j: nat :: i < j && Nth(v, s, i).Some? && Nth(v, s, i) == Nth(v, s, j)
  }

  lemma CycleReturns(v: Slots, s: nat)
    ensures InCycle(v, s) <==> Returns(v, s)
  {
    hide Links, Next;
    if p, i, j :| LinkPath(v, p) && p[0] == s && 0 <= i < j < |p| && p[i] == p[j] {
      PrefixPath(v, p, i);
      PrefixPath(v, p, j);
      assert Nth(v, s, i) == Nth(v, s, j);
    }
    if i: nat, j: nat :| i < j && Nth(v, s, i).Some? && Nth(v, s, i) == Nth(v, s, j) {
      NthPath(v, s, j);
      var p := Path(v, s, j);
      assert p[i] == p[j];
    }
  }

  lemma PrefixPath(v: Slots, p: seq<nat>, i: nat)
    requires LinkPath(v, p) && i < |p|
    ensures Nth(v, p[0], i) == Some(p[i])
  {
    hide Links;
    var q := p[..i + 1];
    assert LinkPath(v, q);
    PathNth(v, q);
  }

  lemma {:induction false} NthAdd(v: Slots, s: nat, a: nat, b: nat)
    requires Nth(v, s, a).Some?
    ensures Nth(v, s, a + b) == Nth(v, Nth(v, s, a).value, b)
    decreases a
  {
    if a > 0 {
      NthAdd(v, Next(v, s).value, a - 1, b);
    }
  }

  lemma {:induction false} NthPrefix(v: Slots, s: nat, k: nat, m: nat)
    requires k <= m && Nth(v, s, m).Some?
    ensures Nth(v, s, k).Some? && (k < m ==> Nth(v, s, k).value < v.n)
    decreases k
  {
    if k > 0 {
      NthPrefix(v, Next(v, s).value, k - 1, m - 1);
    }
  }

  lemma {:induction false} CycleForever(v: Slots, s: nat, i: nat, j: nat, k: nat)
    requires i < j && Nth(v, s, i).Some? && Nth(v, s, i) == Nth(v, s, j)
    ensures Nth(v, s, k).Some?
    decreases k
  {
    if k <= j {
      NthPrefix(v, s, k, j);
    } else {
      CycleForever(v, s, i, j, k - (j - i));
      NthAdd(v, s, i, k - j);
      NthAdd(v, s, j, k - j);
    }
  }

  /** Of more than `n` numbers below `n`, two are equal. */
  lemma {:induction false} Pigeonhole(p: seq<nat>, n: nat) returns (i: nat, j: nat)
    requires |p| > n && forall k :: 0 <= k < |p| ==> p[k] < n
    ensures i < j < |p| && p[i] == p[j]
    decreases n
  {
    var m := |p| - 1;
    if a :| 0 <= a < m && p[a] == p[m] {
      return a, m;
    }
    // The last value is not repeated: swap it out of the range below n - 1.
    var q := seq(m, k requires 0 <= k < m => if p[k] == n - 1 then p[m] else p[k]);
    i, j := Pigeonhole(q, n - 1);
  }

  function Path(v: Slots, s: nat, k: nat): (p: seq<nat>)
    requires Nth(v, s, k).Some?
    ensures |p| == k + 1 && forall i :: 0 <= i <= k ==> Nth(v, s, i) == Some(p[i])
    decreases k
  {
    if k == 0 then [s] else [s] + Path(v, Next(v, s).value, k - 1)
  }

  /** The depth bound is met exactly by cycles, and by a walk of every slot whose last issuer is out of range. */
  lemma DepthBoundExact(v: Slots, s: nat)
    ensures Nth(v, s, v.n).Some? <==> Returns(v, s) || (Nth(v, s, v.n).Some? && Nth(v, s, v.n).value >= v.n)
    ensures !(Returns(v, s) && Nth(v, s, v.n).Some? && Nth(v, s, v.n).value >= v.n)
  {
    if Nth(v, s, v.n).Some? && Nth(v, s, v.n).value < v.n {
      var p := Path(v, s, v.n);
      forall k | 0 <= k < |p| ensures p[k] < v.n {
        NthPrefix(v, s, k, v.n);
      }
      var i, j := Pigeonhole(p, v.n);
      assert Nth(v, s, i) == Nth(v, s, j);
    }
    if i: nat, j: nat :| i < j && Nth(v, s, i).Some? && Nth(v, s, i) == Nth(v, s, j) {
      CycleForever(v, s, i, j, v.n + 1);
      NthPrefix(v, s, v.n, v.n + 1);
    }
  }

  /** Every issuer on record is a slot of this device. */
  ghost predicate IssuersInRange(v: Slots)
  {
    forall s: nat, i: nat :: Links(v, s, i) ==> i < v.n
  }

  /** The walk has visited every slot and the last of them names an issuer out of range. */
  ghost predicate RunsOut(v: Slots, s: nat)
  {
    exists p :: LinkPath(v, p) && p[0] == s && |p| == v.n + 1 && p[v.n] >= v.n
  }

  lemma RunsOutNth(v: Slots, s: nat)
    ensures RunsOut(v, s) <==> Nth(v, s, v.n).Some? && Nth(v, s, v.n).value >= v.n
  {
    hide Links, Next;
    if Nth(v, s, v.n).Some? && Nth(v, s, v.n).value >= v.n {
      NthPath(v, s, v.n);
    }
    if p :| LinkPath(v, p) && p[0] == s && |p| == v.n + 1 && p[v.n] >= v.n {
      PathNth(v, p);
    }
  }

  /** ca_get_chain_slot answers "loop" exactly for cycles and for walks that run out; never are they both. */
  lemma LoopExact(v: Slots, s: nat, room: nat)
    requires Readable(v) && Roomy(v, s, room)
    ensures Walk(v, s, room, 0).Loop? <==> InCycle(v, s) || RunsOut(v, s)
    ensures !(InCycle(v, s) && RunsOut(v, s))
  {
    hide Links, Next, Walk, FullChain, Readable;
    RoomyFits(v, s, room);
    WalkSteps(v, s, room, 0);
    DepthBoundExact(v, s);
    CycleReturns(v, s);
    RunsOutNth(v, s);
  }

  /** So exactly for cycles, when the recorded issuers are slots of this device. */
  lemma LoopIsCycle(v: Slots, s: nat, room: nat)
    requires Readable(v) && Roomy(v, s, room) && IssuersInRange(v) && v.n > 0
    ensures Walk(v, s, room, 0).Loop? <==> InCycle(v, s)
  {
    hide Walk, Readable, Next, InCycle;
    LoopExact(v, s, room);
    NeverRunsOut(v, s);
  }

  lemma NeverRunsOut(v: Slots, s: nat)
    requires IssuersInRange(v) && v.n > 0
    ensures !RunsOut(v, s)
  {
    hide Links;
    forall p | LinkPath(v, p) && |p| == v.n + 1
      ensures p[v.n] < v.n
    {
      assert Links(v, p[v.n - 1], p[v.n]);
    }
  }

  /**
    A device with one slot, whose certificate was issued by slot 5: a loop is reported, and there is none.
    Signing refuses issuers out of range, so such a record comes from a build with more slots.
   */
  lemma OutOfRangeExample(v: Slots)
    requires v.n == 1 && v.cert == map[0 := [0x30, 0x00]] && v.chain == map[]
    requires v.serial([0x30, 0x00]) == Some([0x07]) && v.issuedBy([0x07]) == Some(5)
    ensures Walk(v, 0, 4096, 0).Loop? && !InCycle(v, 0)
  {
    assert Walk(v, 5, 4094, 1).Loop?;
    forall p, i, j | LinkPath(v, p) && p[0] == 0 && 0 <= i < j < |p|
      ensures p[i] != p[j]
    {
      assert p[1] == 5;
      assert |p| == 2;
    }
  }
}
