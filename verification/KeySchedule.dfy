/**
 Key schedules in the abstract: a derivation turns a chaining key and an input
 into the next chaining key and a cipher key.
 */
module KeySchedule {

  /** A derivation and the chaining key everyone starts from. */
  datatype Kdf<!T> = Kdf(derive: (T, T) -> (T, T), start: T)

  /** The chaining key after `j` inputs. */
  function Ck<T>(f: Kdf<T>, ikms: seq<T>, j: nat): (r: T)
    requires j <= |ikms|
  {
    if j == 0 then f.start else f.derive(Ck(f, ikms, j - 1), ikms[j - 1]).0
  }

  /** The cipher key of input `j`, counted from one. */
  function CipherKey<T>(f: Kdf<T>, ikms: seq<T>, j: nat): (r: T)
    requires 1 <= j <= |ikms|
  {
    f.derive(Ck(f, ikms, j - 1), ikms[j - 1]).1
  }

  /** Call `j` of a schedule. */
  function Call<T>(f: Kdf<T>, ikms: seq<T>, j: nat): (x: (T, T))
    requires j < |ikms|
  {
    (Ck(f, ikms, j), ikms[j])
  }

  /** The derivations a schedule makes. */
  ghost function Calls<T>(f: Kdf<T>, ikms: seq<T>): (d: set<(T, T)>)
  {
    set j | 0 <= j < |ikms| :: Call(f, ikms, j)
  }

  ghost predicate Apart<T>(f: Kdf<T>, x: (T, T), y: (T, T))
  {
    && f.derive(x.0, x.1).0 != f.derive(y.0, y.1).1
    && (f.derive(x.0, x.1).0 == f.derive(y.0, y.1).0 ==> x == y)
    && (f.derive(x.0, x.1).1 == f.derive(y.0, y.1).1 ==> x == y)
  }

  /** On these calls the derivation behaves ideally: outputs coincide only when the calls do. */
  ghost predicate NoCollision<T(!new)>(f: Kdf<T>, d: set<(T, T)>)
  {
    && (forall x :: x in d ==> f.derive(x.0, x.1).0 != f.start)
    && (forall x, y {:trigger Apart(f, x, y)} :: x in d && y in d ==> Apart(f, x, y))
  }

  lemma CallsApart<T(!new)>(f: Kdf<T>, a: seq<T>, b: seq<T>, d: set<(T, T)>, j: nat, l: nat)
    requires Calls(f, a) <= d && Calls(f, b) <= d && NoCollision(f, d) && j < |a| && l < |b|
    ensures Apart(f, Call(f, a, j), Call(f, b, l))
    ensures Ck(f, a, j + 1) != f.start
  {
    assert Call(f, a, j) in Calls(f, a) && Call(f, b, l) in Calls(f, b);
  }

  /** Two schedules, of one end or of two, meet only at equal depth. */
  lemma {:induction false} SameDepth<T(!new)>(f: Kdf<T>, a: seq<T>, b: seq<T>, d: set<(T, T)>, j: nat, l: nat)
    requires Calls(f, a) <= d && Calls(f, b) <= d && NoCollision(f, d)
    requires j <= |a| && l <= |b| && Ck(f, a, j) == Ck(f, b, l)
    ensures j == l
    decreases j
  {
    if j > 0 && l > 0 {
      CallsApart(f, a, b, d, j - 1, l - 1);
      assert Call(f, a, j - 1) == Call(f, b, l - 1);
      SameDepth(f, a, b, d, j - 1, l - 1);
    } else if j > 0 {
      CallsApart(f, a, a, d, j - 1, j - 1);
    } else if l > 0 {
      CallsApart(f, b, b, d, l - 1, l - 1);
    }
  }

  lemma CipherKeysDiffer<T(!new)>(f: Kdf<T>, a: seq<T>, b: seq<T>, d: set<(T, T)>, j: nat, l: nat)
    requires Calls(f, a) <= d && Calls(f, b) <= d && NoCollision(f, d)
    requires 1 <= j <= |a| && 1 <= l <= |b| && j != l
    ensures CipherKey(f, a, j) != CipherKey(f, b, l)
  {
    CallsApart(f, a, b, d, j - 1, l - 1);
    if CipherKey(f, a, j) == CipherKey(f, b, l) {
      assert Call(f, a, j - 1) == Call(f, b, l - 1);
      SameDepth(f, a, b, d, j - 1, l - 1);
    }
  }

  lemma ChainKeyIsNoCipherKey<T(!new)>(f: Kdf<T>, a: seq<T>, b: seq<T>, d: set<(T, T)>, j: nat, l: nat)
    requires Calls(f, a) <= d && Calls(f, b) <= d && NoCollision(f, d)
    requires 1 <= j <= |a| && 1 <= l <= |b|
    ensures Ck(f, a, j) != CipherKey(f, b, l)
  {
    CallsApart(f, a, b, d, j - 1, l - 1);
  }

  // -------------------------------------------- the pairs two ends encrypt under

  datatype Pair<T> = Pair(key: T, nonce: nat)

  /** A transport key with the counters 0, 1, and so on. */
  function Counted<T>(key: T, n: nat): (r: seq<Pair<T>>)
    ensures |r| == n && forall i :: 0 <= i < n ==> r[i] == Pair(key, i)
  {
    if n == 0 then [] else Counted(key, n - 1) + [Pair(key, n - 1)]
  }

  /** The device encrypts once after its first input and once after its second; in transport after four. */
  predicate DeviceStage<T>(ikms: seq<T>, sent: nat)
  {
    |ikms| == 4 || (|ikms| <= 2 && sent == 0)
  }

  function DevicePairs<T>(f: Kdf<T>, ikms: seq<T>, sent: nat): (r: seq<Pair<T>>)
    requires DeviceStage(ikms, sent)
  {
    if |ikms| == 0 then []
    else if |ikms| == 1 then [Pair(CipherKey(f, ikms, 1), 0)]
    else [Pair(CipherKey(f, ikms, 1), 0), Pair(CipherKey(f, ikms, 2), 0)]
         + if |ikms| == 4 then Counted(CipherKey(f, ikms, 4), sent) else []
  }

  /** The client encrypts once after its second input, under the counter that reading left, and once after its third. */
  predicate ClientStage<T>(ikms: seq<T>, sent: nat)
  {
    |ikms| == 4 || ((|ikms| == 0 || |ikms| == 2) && sent == 0)
  }

  function ClientPairs<T>(f: Kdf<T>, ikms: seq<T>, sent: nat): (r: seq<Pair<T>>)
    requires ClientStage(ikms, sent)
  {
    if |ikms| == 0 then []
    else if |ikms| == 2 then [Pair(CipherKey(f, ikms, 2), 1)]
    else [Pair(CipherKey(f, ikms, 2), 1), Pair(CipherKey(f, ikms, 3), 0)] + Counted(Ck(f, ikms, 4), sent)
  }

  predicate AllDistinct<T(==)>(u: seq<Pair<T>>)
  {
    forall i, j :: 0 <= i < j < |u| ==> u[i] != u[j]
  }

  lemma DeviceDistinct<T(!new)>(f: Kdf<T>, ikms: seq<T>, d: set<(T, T)>, sent: nat)
    requires DeviceStage(ikms, sent) && Calls(f, ikms) <= d && NoCollision(f, d)
    ensures AllDistinct(DevicePairs(f, ikms, sent))
  {
    if |ikms| >= 2 {
      CipherKeysDiffer(f, ikms, ikms, d, 1, 2);
    }
    if |ikms| == 4 {
      CipherKeysDiffer(f, ikms, ikms, d, 1, 4);
      CipherKeysDiffer(f, ikms, ikms, d, 2, 4);
    }
  }

  lemma ClientDistinct<T(!new)>(f: Kdf<T>, ikms: seq<T>, d: set<(T, T)>, sent: nat)
    requires ClientStage(ikms, sent) && Calls(f, ikms) <= d && NoCollision(f, d)
    ensures AllDistinct(ClientPairs(f, ikms, sent))
  {
    if |ikms| == 4 {
      CipherKeysDiffer(f, ikms, ikms, d, 2, 3);
      ChainKeyIsNoCipherKey(f, ikms, ikms, d, 4, 2);
      ChainKeyIsNoCipherKey(f, ikms, ikms, d, 4, 3);
    }
  }

  lemma EndsDiffer<T(!new)>(f: Kdf<T>, dev: seq<T>, cli: seq<T>, d: set<(T, T)>, m: nat, n: nat, i: nat, j: nat)
    requires DeviceStage(dev, m) && ClientStage(cli, n) && Calls(f, dev) <= d && Calls(f, cli) <= d && NoCollision(f, d)
    requires i < |DevicePairs(f, dev, m)| && j < |ClientPairs(f, cli, n)|
    ensures DevicePairs(f, dev, m)[i] != ClientPairs(f, cli, n)[j]
  {
    var l := if i == 0 then 1 else if i == 1 then 2 else 4;
    assert DevicePairs(f, dev, m)[i].key == CipherKey(f, dev, l);
    if j >= 2 {
      ChainKeyIsNoCipherKey(f, cli, dev, d, 4, l);
    } else if l != j + 2 {
      CipherKeysDiffer(f, dev, cli, d, l, j + 2);
    }
  }

  /** However far each end gets and however many transport messages follow, no pair occurs twice among both ends. */
  lemma PairsDistinct<T(!new)>(f: Kdf<T>, dev: seq<T>, cli: seq<T>, m: nat, n: nat)
    requires DeviceStage(dev, m) && ClientStage(cli, n) && NoCollision(f, Calls(f, dev) + Calls(f, cli))
    ensures AllDistinct(DevicePairs(f, dev, m) + ClientPairs(f, cli, n))
  {
    var d := Calls(f, dev) + Calls(f, cli);
    DeviceDistinct(f, dev, d, m);
    ClientDistinct(f, cli, d, n);
    var u, v := DevicePairs(f, dev, m), ClientPairs(f, cli, n);
    forall i, j | 0 <= i < j < |u + v|
      ensures (u + v)[i] != (u + v)[j]
    {
      if i < |u| <= j {
        EndsDiffer(f, dev, cli, d, m, n, i, j - |u|);
        assert (u + v)[i] == u[i] && (u + v)[j] == v[j - |u|];
      }
    }
  }
}
