/**
 Certificate path building: rounds of promotion over intermediates given in
 any order. The reference is plain reachability along signature links.
 */
module PathBuilder {
  import opened Octets

  const EINVAL := -22

  /** The decoded fields a link depends on. */
  datatype Cert = Cert(der: bytes, issuer: bytes, subject: bytes, isCA: bool, publicKey: bytes)

  /** Certificate decoding; None is a certificate that does not parse. */
  type Decoder = bytes -> Option<Cert>

  /** Does the signature on these octets verify under this key? */
  type SigCheck = (bytes, bytes) -> bool

  /** signed_by: name chaining, a CA parent, and a verifying signature. */
  predicate SignedBy(child: Cert, parent: Cert, check: SigCheck)
  {
    && child.issuer == parent.subject && child.issuer != []
    && parent.isCA
    && check(child.der, parent.publicKey)
  }

  /** The intermediates after decoding, the anchor, and the signature oracle. */
  datatype Pool = Pool(inter: seq<Option<Cert>>, anchor: Cert, check: SigCheck)

  predicate Link(k: Pool, child: Cert, i: int)
  {
    0 <= i < |k.inter| && k.inter[i].Some? && SignedBy(child, k.inter[i].value, k.check)
  }

  /** `p` names intermediates, each signing the one before it, the first signing `child`, the anchor signing the last. */
  predicate IsPath(k: Pool, child: Cert, p: seq<int>)
    decreases |p|
  {
    if p == [] then SignedBy(child, k.anchor, k.check)
    else Link(k, child, p[0]) && IsPath(k, k.inter[p[0]].value, p[1..])
  }

  ghost predicate Anchored(k: Pool, child: Cert)
  {
    exists p :: IsPath(k, child, p)
  }

  // ------------------------------------------------------- soundness and closure

  lemma AnchoredDirect(k: Pool, child: Cert)
    requires SignedBy(child, k.anchor, k.check)
    ensures Anchored(k, child)
  {
    assert IsPath(k, child, []);
  }

  lemma AnchoredVia(k: Pool, child: Cert, i: int)
    requires Link(k, child, i) && Anchored(k, k.inter[i].value)
    ensures Anchored(k, child)
  {
    var p :| IsPath(k, k.inter[i].value, p);
    assert ([i] + p)[1..] == p;
    assert IsPath(k, child, [i] + p);
  }

  /** Trust that another round would not extend. */
  ghost predicate Closed(k: Pool, trusted: set<int>)
  {
    forall i :: 0 <= i < |k.inter| && k.inter[i].Some? && i !in trusted ==>
      !SignedBy(k.inter[i].value, k.anchor, k.check)
      && forall j :: j in trusted && j != i ==> !Link(k, k.inter[i].value, j)
  }

  /** Whatever the anchor reaches is in every closed set. */
  lemma {:induction false} ClosedIsComplete(k: Pool, trusted: set<int>, i: int, p: seq<int>)
    requires Closed(k, trusted)
    requires 0 <= i < |k.inter| && k.inter[i].Some? && IsPath(k, k.inter[i].value, p)
    ensures i in trusted
    decreases |p|
  {
    if p != [] {
      ClosedIsComplete(k, trusted, p[0], p[1..]);
    }
  }

  lemma LeafRefused(k: Pool, trusted: set<int>, leaf: Cert)
    requires Closed(k, trusted)
    requires !SignedBy(leaf, k.anchor, k.check)
    requires forall i :: i in trusted ==> !Link(k, leaf, i)
    ensures !Anchored(k, leaf)
  {
    forall p | IsPath(k, leaf, p)
      ensures false
    {
      assert p != [];
      ClosedIsComplete(k, trusted, p[0], p[1..]);
    }
  }

  // --------------------------------------------------------------- the rounds

  ghost function Members(t: seq<bool>): (s: set<int>)
    ensures forall i :: i in s <==> 0 <= i < |t| && t[i]
  {
    set i | 0 <= i < |t| && t[i]
  }

  ghost predicate Sound(k: Pool, t: seq<bool>)
  {
    && |t| == |k.inter|
    && forall i :: 0 <= i < |t| && t[i] ==> k.inter[i].Some? && Anchored(k, k.inter[i].value)
  }

  /** Is the leaf signed by the anchor or by a trusted intermediate? */
  method TryLeaf(k: Pool, leaf: Cert, trusted: array<bool>) returns (done: bool)
    requires Sound(k, trusted[..])
    ensures done <==> SignedBy(leaf, k.anchor, k.check) || exists i :: i in Members(trusted[..]) && Link(k, leaf, i)
    ensures done ==> Anchored(k, leaf)
  {
    if SignedBy(leaf, k.anchor, k.check) {
      AnchoredDirect(k, leaf);
      return true;
    }
    done := false;
    var i := 0;
    while i < |k.inter| && !done
      invariant 0 <= i <= |k.inter|
      invariant done <==> exists j :: 0 <= j < i && j in Members(trusted[..]) && Link(k, leaf, j)
      invariant done ==> Anchored(k, leaf)
    {
      if k.inter[i].Some? && trusted[i] && SignedBy(leaf, k.inter[i].value, k.check) {
        assert trusted[..][i] && Link(k, leaf, i);
        AnchoredVia(k, leaf, i);
        done := true;
      }
      i := i + 1;
    }
  }

  /** Can intermediate `i` be promoted: by the anchor, or by another trusted intermediate? */
  method TryPromote(k: Pool, trusted: array<bool>, i: nat) returns (ok: bool)
    requires Sound(k, trusted[..]) && i < |k.inter| && k.inter[i].Some?
    ensures ok ==> Anchored(k, k.inter[i].value)
    ensures ok <==> || SignedBy(k.inter[i].value, k.anchor, k.check)
                    || exists j :: j in Members(trusted[..]) && j != i && Link(k, k.inter[i].value, j)
  {
    var c := k.inter[i].value;
    ok := SignedBy(c, k.anchor, k.check);
    if ok { AnchoredDirect(k, c); }
    var j := 0;
    while j < |k.inter| && !ok
      invariant 0 <= j <= |k.inter|
      invariant ok ==> Anchored(k, c)
      invariant ok ==> SignedBy(c, k.anchor, k.check) || exists l :: l in Members(trusted[..]) && l != i && Link(k, c, l)
      invariant !ok ==> !SignedBy(c, k.anchor, k.check)
                        && forall l :: 0 <= l < j && l in Members(trusted[..]) && l != i ==> !Link(k, c, l)
    {
      if j != i && k.inter[j].Some? && trusted[j] {
        ok := SignedBy(c, k.inter[j].value, k.check);
        if ok {
          assert trusted[..][j] && j in Members(trusted[..]) && Link(k, c, j);
          AnchoredVia(k, c, j);
        }
      }
      j := j + 1;
    }
  }

  /** One round: a promotion is visible to the rest of the same round; no progress means the set is closed. */
  method Promote(k: Pool, trusted: array<bool>) returns (progress: bool)
    requires Sound(k, trusted[..])
    modifies trusted
    ensures Sound(k, trusted[..])
    ensures progress ==> Members(old(trusted[..])) < Members(trusted[..])
    ensures !progress ==> trusted[..] == old(trusted[..]) && Closed(k, Members(trusted[..]))
  {
    progress := false;
    for i := 0 to |k.inter|
      modifies trusted
      invariant Sound(k, trusted[..])
      invariant Members(old(trusted[..])) <= Members(trusted[..])
      invariant progress ==> Members(old(trusted[..])) < Members(trusted[..])
      invariant !progress ==> trusted[..] == old(trusted[..])
      invariant !progress ==> forall l :: 0 <= l < i && k.inter[l].Some? && l !in Members(trusted[..]) ==>
                  !SignedBy(k.inter[l].value, k.anchor, k.check)
                  && forall j :: j in Members(trusted[..]) && j != l ==> !Link(k, k.inter[l].value, j)
    {
      if k.inter[i].Some? && !trusted[i] {
        var ok := TryPromote(k, trusted, i);
        if ok {
          ghost var before := trusted[..];
          trusted[i] := true;
          assert trusted[..] == before[i := true];
          assert i in Members(trusted[..]) && i !in Members(before);
          progress := true;
        }
      }
    }
  }

  lemma MembersBound(t: seq<bool>)
    ensures |Members(t)| <= |t|
  {
    BoundedSize(Members(t), |t|);
  }

  /** The promotion loop: at most one round more than there are intermediates, and that always suffices. */
  method BuildPath(k: Pool, leaf: Cert) returns (ok: bool)
    ensures ok <==> Anchored(k, leaf)
  {
    var n := |k.inter|;
    var trusted := new bool[n](_ => false);
    var round := 0;
    while round <= n
      invariant 0 <= round <= n + 1
      invariant Sound(k, trusted[..])
      invariant |Members(trusted[..])| >= round
    {
      var done := TryLeaf(k, leaf, trusted);
      if done {
        return true;
      }
      ghost var before := trusted[..];
      var progress := Promote(k, trusted);
      if !progress {
        LeafRefused(k, Members(trusted[..]), leaf);
        return false;
      }
      SubsetSize(Members(before), Members(trusted[..]));
      round := round + 1;
    }
    MembersBound(trusted[..]);
    assert false;
    ok := false;
  }

  function DecodeAll(ders: seq<bytes>, decode: Decoder): (r: seq<Option<Cert>>)
    ensures |r| == |ders|
  {
    seq(|ders|, i requires 0 <= i < |ders| => if ders[i] == [] then None else decode(ders[i]))
  }

  /** The chains to accept: parsed ends, no more intermediates than `max`, and a path. */
  ghost predicate Accepted(leafDer: bytes, inters: seq<bytes>, anchorDer: bytes, max: nat, decode: Decoder, check: SigCheck)
  {
    && leafDer != [] && anchorDer != [] && |inters| <= max
    && decode(leafDer).Some? && decode(anchorDer).Some?
    && Anchored(Pool(DecodeAll(inters, decode), decode(anchorDer).value, check), decode(leafDer).value)
  }

  /**
   certparse_verify_chain. An empty octet string stands for a missing or
   zero-length certificate: fatal for the leaf and the anchor, skipped among
   the intermediates. The source allows eight intermediates.
   */
  method VerifyChain(leafDer: bytes, inters: seq<bytes>, anchorDer: bytes, max: nat, decode: Decoder, check: SigCheck)
    returns (rc: int)
    ensures rc == 0 || rc == EINVAL
    ensures rc == 0 <==> Accepted(leafDer, inters, anchorDer, max, decode, check)
  {
    if |leafDer| == 0 || |anchorDer| == 0 || |inters| > max {
      return EINVAL;
    }
    var leaf := decode(leafDer);
    var anchor := decode(anchorDer);
    if leaf.None? || anchor.None? {
      return EINVAL;
    }
    var ok := BuildPath(Pool(DecodeAll(inters, decode), anchor.value, check), leaf.value);
    return if ok then 0 else EINVAL;
  }

  // -------------------------------------------------------------- what it means

  /** One of the intermediates parses as this certificate. */
  ghost predicate Given(c: Cert, inters: seq<bytes>, decode: Decoder)
  {
    exists d :: d in inters && d != [] && decode(d) == Some(c)
  }

  /**
   A chain from leaf to anchor, every certificate between them one of the intermediates: each is
   named as issuer by the one before it, under a name, is a CA, and its key verifies that one's signature.
   */
  ghost predicate ValidChain(chain: seq<Cert>, inters: seq<bytes>, decode: Decoder, check: SigCheck): (r: bool)
    ensures r ==> |chain| >= 2
  {
    && |chain| >= 2
    && (forall k :: 0 < k < |chain| - 1 ==> Given(chain[k], inters, decode))
    && forall i, j :: 0 <= i && i + 1 == j < |chain| ==>
         && chain[i].issuer == chain[j].subject && chain[i].issuer != []
         && chain[j].isCA && check(chain[i].der, chain[j].publicKey)
  }

  lemma {:induction false} PathChain(k: Pool, inters: seq<bytes>, decode: Decoder, child: Cert, p: seq<int>) returns (chain: seq<Cert>)
    requires k.inter == DecodeAll(inters, decode) && IsPath(k, child, p)
    ensures ValidChain(chain, inters, decode, k.check) && chain[0] == child && chain[|chain| - 1] == k.anchor
    decreases |p|
  {
    if p == [] {
      chain := [child, k.anchor];
    } else {
      var c := k.inter[p[0]].value;
      var rest := PathChain(k, inters, decode, c, p[1..]);
      assert inters[p[0]] in inters && inters[p[0]] != [] && decode(inters[p[0]]) == Some(c);
      ChainCons(child, rest, inters, decode, k.check);
      chain := [child] + rest;
    }
  }

  lemma ChainCons(child: Cert, rest: seq<Cert>, inters: seq<bytes>, decode: Decoder, check: SigCheck)
    requires ValidChain(rest, inters, decode, check) && Given(rest[0], inters, decode) && SignedBy(child, rest[0], check)
    ensures ValidChain([child] + rest, inters, decode, check)
  {
    var chain := [child] + rest;
    assert forall j :: 1 <= j < |chain| ==> chain[j] == rest[j - 1];
    forall i, j | 0 <= i && i + 1 == j < |chain|
      ensures chain[i].issuer == chain[j].subject && chain[i].issuer != []
      ensures chain[j].isCA && check(chain[i].der, chain[j].publicKey)
    {
      if i > 0 {
        assert chain[i] == rest[i - 1] && chain[j] == rest[j - 1] && (i - 1) + 1 == j - 1;
      }
    }
  }

  lemma {:induction false} ChainPath(k: Pool, inters: seq<bytes>, decode: Decoder, chain: seq<Cert>)
    requires k.inter == DecodeAll(inters, decode) && ValidChain(chain, inters, decode, k.check) && chain[|chain| - 1] == k.anchor
    ensures Anchored(k, chain[0])
    decreases |chain|
  {
    if |chain| == 2 {
      AnchoredDirect(k, chain[0]);
    } else {
      var rest := chain[1..];
      assert forall j :: 0 <= j < |rest| ==> rest[j] == chain[j + 1];
      ChainPath(k, inters, decode, rest);
      assert Given(chain[1], inters, decode);
      var d :| d in inters && d != [] && decode(d) == Some(chain[1]);
      var i :| 0 <= i < |inters| && inters[i] == d;
      assert k.inter[i] == Some(chain[1]);
      AnchoredVia(k, chain[0], i);
    }
  }

  /** What certparse_verify_chain accepts: ends that parse, few enough intermediates, and such a chain between them. */
  lemma AcceptedMeans(leafDer: bytes, inters: seq<bytes>, anchorDer: bytes, max: nat, decode: Decoder, check: SigCheck)
    ensures Accepted(leafDer, inters, anchorDer, max, decode, check) <==>
            && leafDer != [] && anchorDer != [] && |inters| <= max
            && exists chain :: && ValidChain(chain, inters, decode, check)
                               && decode(leafDer) == Some(chain[0]) && decode(anchorDer) == Some(chain[|chain| - 1])
  {
    hide ValidChain;
    if Accepted(leafDer, inters, anchorDer, max, decode, check) {
      var k := Pool(DecodeAll(inters, decode), decode(anchorDer).value, check);
      var p :| IsPath(k, decode(leafDer).value, p);
      var chain := PathChain(k, inters, decode, decode(leafDer).value, p);
    }
    if chain :| ValidChain(chain, inters, decode, check)
                && decode(leafDer) == Some(chain[0]) && decode(anchorDer) == Some(chain[|chain| - 1]) {
      if leafDer != [] && anchorDer != [] && |inters| <= max {
        ChainPath(Pool(DecodeAll(inters, decode), decode(anchorDer).value, check), inters, decode, chain);
      }
    }
  }

  // ---------------------------------------------------------- consequences

  /** Every parsed intermediate of `a` is somewhere among those of `b`. */
  ghost predicate Covered(a: seq<Option<Cert>>, b: seq<Option<Cert>>)
  {
    forall i :: 0 <= i < |a| && a[i].Some? ==> a[i] in b
  }

  lemma {:induction false} PathCarriesOver(k: Pool, k': Pool, child: Cert, p: seq<int>)
    requires k.anchor == k'.anchor && k.check == k'.check && Covered(k.inter, k'.inter)
    requires IsPath(k, child, p)
    ensures Anchored(k', child)
    decreases |p|
  {
    if p == [] {
      AnchoredDirect(k', child);
    } else {
      var c := k.inter[p[0]].value;
      PathCarriesOver(k, k', c, p[1..]);
      var j :| 0 <= j < |k'.inter| && k'.inter[j] == k.inter[p[0]];
      AnchoredVia(k', child, j);
    }
  }

  lemma ReachCarriesOver(k: Pool, k': Pool, leaf: Cert)
    requires k.anchor == k'.anchor && k.check == k'.check && Covered(k.inter, k'.inter)
    ensures Anchored(k, leaf) ==> Anchored(k', leaf)
  {
    if Anchored(k, leaf) {
      var p :| IsPath(k, leaf, p);
      PathCarriesOver(k, k', leaf, p);
    }
  }

  /**
   An accepted chain given with more intermediates, in any order and with any
   repetition, is accepted exactly while their number is within the limit.
   */
  lemma MoreNeverHurts(leafDer: bytes, inters: seq<bytes>, more: seq<bytes>, anchorDer: bytes, max: nat,
                       decode: Decoder, check: SigCheck)
    requires forall d :: d in inters ==> d in more
    requires Accepted(leafDer, inters, anchorDer, max, decode, check)
    ensures Accepted(leafDer, more, anchorDer, max, decode, check) <==> |more| <= max
  {
    var k := Pool(DecodeAll(inters, decode), decode(anchorDer).value, check);
    var k' := Pool(DecodeAll(more, decode), decode(anchorDer).value, check);
    forall i | 0 <= i < |k.inter| && k.inter[i].Some?
      ensures k.inter[i] in k'.inter
    {
      assert inters[i] in more;
      var j :| 0 <= j < |more| && more[j] == inters[i];
      assert k'.inter[j] == k.inter[i];
    }
    ReachCarriesOver(k, k', decode(leafDer).value);
  }

  /** The order of the intermediates never matters. */
  lemma OrderNeverMatters(leafDer: bytes, inters: seq<bytes>, other: seq<bytes>, anchorDer: bytes, max: nat,
                          decode: Decoder, check: SigCheck)
    requires multiset(inters) == multiset(other)
    ensures Accepted(leafDer, inters, anchorDer, max, decode, check)
            <==> Accepted(leafDer, other, anchorDer, max, decode, check)
  {
    assert |inters| == |multiset(inters)| == |other|;
    assert forall d :: d in inters <==> d in multiset(inters);
    assert forall d :: d in other <==> d in multiset(other);
    if Accepted(leafDer, inters, anchorDer, max, decode, check) {
      MoreNeverHurts(leafDer, inters, other, anchorDer, max, decode, check);
    } else if Accepted(leafDer, other, anchorDer, max, decode, check) {
      MoreNeverHurts(leafDer, other, inters, anchorDer, max, decode, check);
    }
  }

  /** Intermediates vouching only for each other, in any cycle, never get a leaf accepted. */
  lemma NoAnchorNoTrust(k: Pool, leaf: Cert)
    requires !SignedBy(leaf, k.anchor, k.check)
    requires forall i :: 0 <= i < |k.inter| && k.inter[i].Some? ==> !SignedBy(k.inter[i].value, k.anchor, k.check)
    ensures !Anchored(k, leaf)
  {
    LeafRefused(k, {}, leaf);
  }
}
