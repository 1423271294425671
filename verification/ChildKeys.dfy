/** Derivation of child keys along a path: every node adds the same tweak to its own share, and
    the shares stay shares of the derived public key. */
module ChildKeys {
  import opened Common
  import opened Bytes

  datatype Point = Point(x: nat, y: nat)

  /** The curve: multiples of the base point, point addition, the group order, and HMAC-SHA512. */
  datatype Suite = Suite(order: int, mulG: int -> Point, add: (Point, Point) -> Point, hmac: (bytes, bytes) -> bytes)

  ghost predicate Congruent(a: int, b: int, n: int) {
    exists k :: SameUpTo(a, b, k, n)
  }

  predicate SameUpTo(a: int, b: int, k: int, n: int) { a == b + k * n }

  ghost predicate ValidSuite(u: Suite) {
    && u.order > 0
    && (forall a, b :: u.add(u.mulG(a), u.mulG(b)) == u.mulG(a + b))
    && (forall a, b :: Congruent(a, b, u.order) ==> u.mulG(a) == u.mulG(b))
    && (forall k, m :: |u.hmac(k, m)| == 64)
  }

  // ------------------------------------------------------------------- derivation

  /** What is public at a position of the path: chain code and public key. */
  datatype Key = Key(chain: bytes, pk: Point)

  /** What a node holds there. */
  datatype NodeKey = NodeKey(key: Key, share: int)

  function Digest(u: Suite, k: Key, index: bytes): (t: bytes)
    requires ValidSuite(u)
    ensures |t| == 64
  {
    u.hmac(k.chain, ToBytes(k.pk.x) + ToBytes(k.pk.y) + index)
  }

  function Tweak(u: Suite, k: Key, index: bytes): nat
    requires ValidSuite(u)
  {
    FromBytes(Digest(u, k, index)[..32])
  }

  /** One round of the loop, for one node. */
  function Child(u: Suite, n: NodeKey, index: bytes): NodeKey
    requires ValidSuite(u)
  {
    var tl := Tweak(u, n.key, index);
    NodeKey(Key(Digest(u, n.key, index)[32..], u.add(u.mulG(tl), n.key.pk)), (tl + n.share) % u.order)
  }

  function Derive(u: Suite, n: NodeKey, path: seq<bytes>): NodeKey
    requires ValidSuite(u)
  {
    if path == [] then n else Child(u, Derive(u, n, path[..|path| - 1]), path[|path| - 1])
  }

  /** The derivation that anybody can follow who knows the root key, the chain code and the path. */
  function PublicChild(u: Suite, k: Key, index: bytes): Key
    requires ValidSuite(u)
  {
    Key(Digest(u, k, index)[32..], u.add(u.mulG(Tweak(u, k, index)), k.pk))
  }

  function PublicDerive(u: Suite, k: Key, path: seq<bytes>): Key
    requires ValidSuite(u)
  {
    if path == [] then k else PublicChild(u, PublicDerive(u, k, path[..|path| - 1]), path[|path| - 1])
  }

  /** The loops of `GetBip32ChildKey` and of pre-signing. */
  method DeriveChild(u: Suite, root: Point, bip32c: nat, sku1: int, indexs: seq<bytes>) returns (r: NodeKey)
    requires ValidSuite(u) && |indexs| >= 1
    ensures r == Derive(u, NodeKey(Key(ToBytes(bip32c), root), sku1), indexs[1..])
  {
    hide ToBytes, FromBytes;
    var trb, childPK, childSKU1 := ToBytes(bip32c), root, sku1;
    ghost var start := NodeKey(Key(trb, root), sku1);
    assert indexs[1..1] == [];
    var i := 1;
    while i < |indexs|
      invariant 1 <= i <= |indexs|
      invariant NodeKey(Key(trb, childPK), childSKU1) == Derive(u, start, indexs[1..i])
    {
      var t := u.hmac(trb, ToBytes(childPK.x) + ToBytes(childPK.y) + indexs[i]);
      assert t == Digest(u, Key(trb, childPK), indexs[i]);
      trb := t[32..];
      var tl := FromBytes(t[..32]);
      childSKU1 := (tl + childSKU1) % u.order;
      childPK := u.add(u.mulG(tl), childPK);
      assert indexs[1..i + 1][..i - 1] == indexs[1..i];
      i := i + 1;
    }
    assert indexs[1..i] == indexs[1..];
    r := NodeKey(Key(trb, childPK), childSKU1);
  }

  // ---------------------------------------------------------------- public part

  /** The child key and chain code depend on the root key, the chain code and the path only. */
  lemma {:induction false} PublicPart(u: Suite, n: NodeKey, path: seq<bytes>)
    requires ValidSuite(u)
    ensures Derive(u, n, path).key == PublicDerive(u, n.key, path)
  {
    if path != [] {
      PublicPart(u, n, path[..|path| - 1]);
    }
  }

  /** Deriving along a path in two steps. */
  lemma {:induction false} TwoSteps(u: Suite, n: NodeKey, path: seq<bytes>, more: seq<bytes>)
    requires ValidSuite(u)
    ensures Derive(u, n, path + more) == Derive(u, Derive(u, n, path), more)
  {
    if more == [] {
      assert path + more == path;
    } else {
      var before := more[..|more| - 1];
      TwoSteps(u, n, path, before);
      assert (path + more)[..|path + more| - 1] == path + before;
    }
  }

  // ------------------------------------------------------------------- the shares

  function Sum(weights: seq<int>): int {
    if weights == [] then 0 else Sum(weights[..|weights| - 1]) + weights[|weights| - 1]
  }

  function Weighted(weights: seq<int>, shares: seq<int>): int
    requires |weights| == |shares|
  {
    if shares == [] then 0
    else
      var n := |shares| - 1;
      Weighted(weights[..n], shares[..n]) + Times(weights[n], shares[n])
  }

  /** The shares after one round in which every node adds the tweak. */
  function Tweaked(shares: seq<int>, tl: int, order: int): (r: seq<int>)
    requires order > 0
    ensures |r| == |shares|
  {
    seq(|shares|, i requires 0 <= i < |shares| => (tl + shares[i]) % order)
  }

  lemma MulDistributes(w: int, tl: int, s: int, q: int, n: int)
    ensures w * (tl + s - q * n) == w * tl + w * s - (w * q) * n
  {
    assert w * (tl + s - q * n) == w * (tl + s) - w * (q * n);
    assert w * (tl + s) == w * tl + w * s;
    assert w * (q * n) == (w * q) * n;
  }

  lemma StepArithmetic(x': int, x: int, tl: int, sum: int, w: int, s: int, q: int, k: int, n: int)
    requires x' == x + Times(tl, sum) + Times(k, n)
    ensures x' + Times(w, tl + s - Times(q, n)) == x + Times(w, s) + Times(tl, sum + w) + Times(k - Times(w, q), n)
  {
    MulDistributes(w, tl, s, q, n);
    assert tl * (sum + w) == tl * sum + w * tl;
    assert (k - w * q) * n == k * n - (w * q) * n;
  }

  lemma TweakedLast(tl: int, s: int, n: int)
    requires n > 0
    ensures (tl + s) % n == tl + s - (tl + s) / n * n
  {
  }

  lemma WeightedLast(weights: seq<int>, shares: seq<int>)
    requires |weights| == |shares| > 0
    ensures var n := |shares| - 1;
            Weighted(weights, shares) == Weighted(weights[..n], shares[..n]) + Times(weights[n], shares[n])
  {
  }

  lemma TweakedParts(shares: seq<int>, tl: int, order: int)
    requires order > 0 && shares != []
    ensures var n := |shares| - 1;
            && Tweaked(shares, tl, order)[..n] == Tweaked(shares[..n], tl, order)
            && Tweaked(shares, tl, order)[n] == tl + shares[n] - Times((tl + shares[n]) / order, order)
  {
    TweakedLast(tl, shares[|shares| - 1], order);
  }

  /** Tweaking every share moves the weighted sum by the tweak times the sum of the weights. */
  lemma {:induction false} TweakedSum(weights: seq<int>, shares: seq<int>, tl: int, order: int) returns (k: int)
    requires |weights| == |shares| && order > 0
    ensures Weighted(weights, Tweaked(shares, tl, order))
            == Weighted(weights, shares) + Times(tl, Sum(weights)) + Times(k, order)
  {
    if shares == [] {
      k := 0;
    } else {
      hide Tweaked, Weighted, Times;
      var n := |shares| - 1;
      var ws, ss, w, s := weights[..n], shares[..n], weights[n], shares[n];
      var k0 := TweakedSum(ws, ss, tl, order);
      var after := Tweaked(shares, tl, order);
      var q := (tl + s) / order;
      TweakedParts(shares, tl, order);
      WeightedLast(weights, shares);
      WeightedLast(weights, after);
      StepArithmetic(Weighted(ws, after[..n]), Weighted(ws, ss), tl, Sum(ws), w, s, q, k0, order);
      k := k0 - Times(w, q);
    }
  }

  /** Shares of a key, for weights that sum to 1: the weighted sum of the shares is a discrete
      logarithm of the public key. */
  ghost predicate SharesOf(u: Suite, weights: seq<int>, shares: seq<int>, pk: Point)
    requires |weights| == |shares|
  {
    u.mulG(Weighted(weights, shares)) == pk
  }

  lemma OneRound(u: Suite, weights: seq<int>, shares: seq<int>, k: Key, index: bytes)
    requires ValidSuite(u) && |weights| == |shares| && Congruent(Sum(weights), 1, u.order)
    requires SharesOf(u, weights, shares, k.pk)
    ensures SharesOf(u, weights, Tweaked(shares, Tweak(u, k, index), u.order), PublicChild(u, k, index).pk)
  {
    var tl := Tweak(u, k, index);
    var j := TweakedSum(weights, shares, tl, u.order);
    var m :| SameUpTo(Sum(weights), 1, m, u.order);
    var w, w' := Weighted(weights, shares), Weighted(weights, Tweaked(shares, tl, u.order));
    TweakTimesOne(tl, Sum(weights), m, u.order);
    assert w' == w + tl + (tl * m) * u.order + j * u.order;
    SumMultiples(tl * m, j, u.order);
    assert SameUpTo(w', tl + w, tl * m + j, u.order);
    assert Congruent(w', tl + w, u.order);
    assert u.mulG(w') == u.mulG(tl + w) == u.add(u.mulG(tl), u.mulG(w));
  }

  lemma TweakTimesOne(tl: int, sum: int, m: int, n: int)
    requires sum == 1 + m * n
    ensures tl * sum == tl + (tl * m) * n
  {
    assert tl * (1 + m * n) == tl + tl * (m * n);
    assert tl * (m * n) == (tl * m) * n;
  }

  lemma SumMultiples(a: int, b: int, n: int)
    ensures a * n + b * n == (a + b) * n
  {
  }

  /** The shares that the nodes derive, each on its own, from the root key. */
  function DerivedShares(u: Suite, k: Key, shares: seq<int>, path: seq<bytes>): (r: seq<int>)
    requires ValidSuite(u)
    ensures |r| == |shares|
  {
    seq(|shares|, i requires 0 <= i < |shares| => Derive(u, NodeKey(k, shares[i]), path).share)
  }

  lemma DerivedShareStep(u: Suite, k: Key, share: int, path: seq<bytes>)
    requires ValidSuite(u) && path != []
    ensures var before := path[..|path| - 1];
            Derive(u, NodeKey(k, share), path).share
            == (Tweak(u, PublicDerive(u, k, before), path[|path| - 1])
                + Derive(u, NodeKey(k, share), before).share) % u.order
  {
    hide Digest, ValidSuite;
    PublicPart(u, NodeKey(k, share), path[..|path| - 1]);
  }

  lemma DerivedSharesStep(u: Suite, k: Key, shares: seq<int>, path: seq<bytes>)
    requires ValidSuite(u) && path != []
    ensures var before := path[..|path| - 1];
            DerivedShares(u, k, shares, path)
            == Tweaked(DerivedShares(u, k, shares, before), Tweak(u, PublicDerive(u, k, before), path[|path| - 1]),
                       u.order)
  {
    hide Derive, PublicDerive, Tweak;
    forall i | 0 <= i < |shares|
      ensures DerivedShares(u, k, shares, path)[i]
              == (Tweak(u, PublicDerive(u, k, path[..|path| - 1]), path[|path| - 1])
                  + DerivedShares(u, k, shares, path[..|path| - 1])[i]) % u.order
    {
      DerivedShareStep(u, k, shares[i], path);
    }
  }

  /** For every share vector and weights summing to 1 modulo the order, if the weighted shares make
      the root public key, then along every path the weighted derived shares make the derived
      public key. */
  lemma {:induction false} SharesFollowKey(u: Suite, k: Key, weights: seq<int>, shares: seq<int>, path: seq<bytes>)
    requires ValidSuite(u) && |weights| == |shares| && Congruent(Sum(weights), 1, u.order)
    requires SharesOf(u, weights, shares, k.pk)
    ensures SharesOf(u, weights, DerivedShares(u, k, shares, path), PublicDerive(u, k, path).pk)
  {
    if path == [] {
      assert DerivedShares(u, k, shares, path) == shares;
    } else {
      hide SharesOf, Congruent, Sum;
      var before, index := path[..|path| - 1], path[|path| - 1];
      SharesFollowKey(u, k, weights, shares, before);
      OneRound(u, weights, DerivedShares(u, k, shares, before), PublicDerive(u, k, before), index);
      DerivedSharesStep(u, k, shares, path);
    }
  }

  // ------------------------------------------------------- what a path determines

  /** What goes into the HMAC of a round: the chain code as its key, and the two coordinates and the
      index as its message. */
  datatype Input = Input(chain: bytes, message: bytes)

  function InputOf(k: Key, index: bytes): Input {
    Input(k.chain, ToBytes(k.pk.x) + ToBytes(k.pk.y) + index)
  }

  /** The child of one round in terms of the HMAC alone: the last 32 bytes are its chain code, and the
      first 32 are added to the share, modulo the order, and times the base point to the key. */
  lemma ChildFormat(u: Suite, n: NodeKey, index: bytes)
    requires ValidSuite(u)
    ensures var t := u.hmac(n.key.chain, ToBytes(n.key.pk.x) + ToBytes(n.key.pk.y) + index);
            var child := Child(u, n, index);
            && child.key.chain == t[32..]
            && child.key.pk == u.add(u.mulG(FromBytes(t[..32])), n.key.pk)
            && 0 <= child.share < u.order
            && Congruent(child.share, n.share + FromBytes(t[..32]), u.order)
  {
    var t := u.hmac(n.key.chain, ToBytes(n.key.pk.x) + ToBytes(n.key.pk.y) + index);
    var tl := FromBytes(t[..32]);
    TweakedLast(tl, n.share, u.order);
    var q := (tl + n.share) / u.order;
    NegatedMultiple(q, u.order);
    assert SameUpTo(Child(u, n, index).share, n.share + tl, -q, u.order);
  }

  lemma NegatedMultiple(q: int, n: int)
    ensures (-q) * n == -(q * n)
  {
  }

  /** Two different inputs with the same last half of the HMAC. */
  predicate Collide(u: Suite, a: Input, b: Input) {
    a != b && Tail(u, a) == Tail(u, b)
  }

  function Tail(u: Suite, a: Input): bytes {
    var t := u.hmac(a.chain, a.message);
    if |t| < 32 then [] else t[32..]
  }

  /** Children of one key under different indexes have different chain codes, or the HMAC collides. */
  lemma ChildBindsIndex(u: Suite, n: NodeKey, i: bytes, j: bytes)
    requires ValidSuite(u) && Child(u, n, i).key.chain == Child(u, n, j).key.chain
    ensures i == j || Collide(u, InputOf(n.key, i), InputOf(n.key, j))
  {
    SameInput(n.key, i, j);
  }

  lemma SameInput(k: Key, i: bytes, j: bytes)
    ensures InputOf(k, i) == InputOf(k, j) <==> i == j
  {
    var prefix := ToBytes(k.pk.x) + ToBytes(k.pk.y);
    assert (prefix + i)[|prefix|..] == i && (prefix + j)[|prefix|..] == j;
  }

  /** The input of the round at position `d` of a path. */
  function InputAt(u: Suite, n: NodeKey, path: seq<bytes>, d: nat): Input
    requires ValidSuite(u) && d < |path|
  {
    InputOf(Derive(u, n, path[..d]).key, path[d])
  }

  /** The inputs of two paths collide in the round at position `d`. */
  ghost predicate CollideAt(u: Suite, n: NodeKey, p: seq<bytes>, q: seq<bytes>, d: nat)
    requires ValidSuite(u)
  {
    d < |p| && d < |q| && Collide(u, InputAt(u, n, p, d), InputAt(u, n, q, d))
  }

  lemma CollidePrefix(u: Suite, n: NodeKey, p: seq<bytes>, q: seq<bytes>, k: nat, d: nat)
    requires ValidSuite(u) && k <= |p| && k <= |q| && CollideAt(u, n, p[..k], q[..k], d)
    ensures CollideAt(u, n, p, q, d)
  {
    hide ValidSuite, Derive, Collide, InputOf;
    assert p[..k][..d] == p[..d] && q[..k][..d] == q[..d];
  }

  /** Equal chain codes after the last round: the round collides, or its chain codes and, from one key,
      its indexes are equal. */
  lemma LastRound(u: Suite, n: NodeKey, p: seq<bytes>, q: seq<bytes>)
    requires ValidSuite(u) && |p| == |q| > 0 && Derive(u, n, p).key.chain == Derive(u, n, q).key.chain
    ensures var last := |p| - 1;
            || CollideAt(u, n, p, q, last)
            || (&& Derive(u, n, p[..last]).key.chain == Derive(u, n, q[..last]).key.chain
                && (p[..last] == q[..last] ==> p[last] == q[last]))
  {
    hide ValidSuite, Derive, Tail, InputOf;
    var last := |p| - 1;
    ChainIsTail(u, n, p);
    ChainIsTail(u, n, q);
    if InputAt(u, n, p, last) == InputAt(u, n, q, last) {
      SameChain(Derive(u, n, p[..last]).key, p[last], Derive(u, n, q[..last]).key, q[last]);
      SameInput(Derive(u, n, p[..last]).key, p[last], q[last]);
    }
  }

  /** Different paths of one length lead to different chain codes, or the HMAC collides in some round. */
  lemma {:induction false} PathsDiffer(u: Suite, n: NodeKey, p: seq<bytes>, q: seq<bytes>)
    requires ValidSuite(u) && |p| == |q| && Derive(u, n, p).key.chain == Derive(u, n, q).key.chain
    ensures p == q || exists d :: CollideAt(u, n, p, q, d)
    decreases |p|
  {
    hide *;
    if p == [] {
      assert p == q;
    } else {
      var last := |p| - 1;
      var p', q' := p[..last], q[..last];
      LastRound(u, n, p, q);
      if !CollideAt(u, n, p, q, last) {
        PathsDiffer(u, n, p', q');
        if exists d :: CollideAt(u, n, p', q', d) {
          var d :| CollideAt(u, n, p', q', d);
          CollidePrefix(u, n, p, q, last, d);
        } else {
          SamePath(p, q);
        }
      }
    }
  }

  lemma SamePath(p: seq<bytes>, q: seq<bytes>)
    requires |p| == |q| > 0 && p[..|p| - 1] == q[..|p| - 1] && p[|p| - 1] == q[|p| - 1]
    ensures p == q
  {
    assert p == p[..|p| - 1] + [p[|p| - 1]] && q == q[..|p| - 1] + [q[|p| - 1]];
  }

  lemma ChainIsTail(u: Suite, n: NodeKey, path: seq<bytes>)
    requires ValidSuite(u) && path != []
    ensures var a := InputAt(u, n, path, |path| - 1);
            Derive(u, n, path).key.chain == Tail(u, a)
  {
  }

  lemma SameChain(k: Key, i: bytes, l: Key, j: bytes)
    requires InputOf(k, i) == InputOf(l, j)
    ensures k.chain == l.chain
  {
  }
}
