/** The history of recent dials: a binary min-heap on the expiry, changed in place. */
module DialHistory {
  import opened Common
  import Dialer

  datatype PastDial = PastDial(id: NodeID, exp: Time)

  function Parent(i: nat): nat
    requires i > 0
  {
    (i - 1) / 2
  }

  /** Entry `i` is not below its parent. */
  predicate InOrder(h: seq<PastDial>, i: nat) {
    1 <= i < |h| ==> h[Parent(i)].exp <= h[i].exp
  }

  ghost predicate IsHeap(h: seq<PastDial>) { forall i: nat :: InOrder(h, i) }

  /** `h` lists every entry of `m` exactly once and nothing else; so its ids are distinct. */
  ghost predicate Represents(h: seq<PastDial>, m: map<NodeID, Time>) {
    forall e :: multiset(h)[e] == if e.id in m && m[e.id] == e.exp then 1 else 0
  }

  function Swap(h: seq<PastDial>, i: nat, j: nat): (r: seq<PastDial>)
    requires i < |h| && j < |h|
    ensures |r| == |h| && r[i] == h[j] && r[j] == h[i]
    ensures forall k :: 0 <= k < |h| && k != i && k != j ==> r[k] == h[k]
    ensures multiset(r) == multiset(h)
  {
    h[i := h[j]][j := h[i]]
  }

  /** The root of a heap is its minimum. */
  lemma {:induction false} RootIsMin(h: seq<PastDial>, i: nat)
    requires IsHeap(h) && i < |h|
    ensures h[0].exp <= h[i].exp
    decreases i
  {
    if i > 0 {
      assert InOrder(h, i);
      RootIsMin(h, Parent(i));
    }
  }

  lemma EntryListed(h: seq<PastDial>, m: map<NodeID, Time>, id: NodeID)
    requires Represents(h, m)
    ensures id in m ==> PastDial(id, m[id]) in h
    ensures forall i :: 0 <= i < |h| && h[i].id == id ==> id in m && m[id] == h[i].exp
  {
    if id in m {
      assert multiset(h)[PastDial(id, m[id])] == 1;
    }
    forall i | 0 <= i < |h| && h[i].id == id
      ensures id in m && m[id] == h[i].exp
    {
      assert h[i] in multiset(h);
    }
  }

  lemma EmptyTogether(h: seq<PastDial>, m: map<NodeID, Time>)
    requires Represents(h, m)
    ensures |h| == 0 <==> |m| == 0
  {
    if |h| == 0 && |m| != 0 {
      var id :| id in m;
      EntryListed(h, m, id);
    }
    if |m| == 0 && |h| != 0 {
      EntryListed(h, m, h[0].id);
    }
  }

  /** In order, except possibly at `j`; and the children of `j` are not below the parent of `j`. */
  ghost predicate HeapButUp(h: seq<PastDial>, j: nat) {
    && (forall i: nat :: i != j ==> InOrder(h, i))
    && (forall i: nat :: 1 <= i < |h| && Parent(i) == j && j > 0 ==> h[Parent(j)].exp <= h[i].exp)
  }

  /** In order, except possibly below `j`; and the children of `j` are not below the parent of `j`. */
  ghost predicate HeapButDown(h: seq<PastDial>, j: nat) {
    && (forall i: nat :: 1 <= i && Parent(i) != j ==> InOrder(h, i))
    && (forall i: nat :: 1 <= i < |h| && Parent(i) == j && j > 0 ==> h[Parent(j)].exp <= h[i].exp)
  }

  /** `up` of the standard library's heap. */
  function Up(h: seq<PastDial>, j: nat): (r: seq<PastDial>)
    requires j < |h| && HeapButUp(h, j)
    ensures IsHeap(r) && multiset(r) == multiset(h) && |r| == |h|
    decreases j
  {
    if j > 0 && h[j].exp < h[Parent(j)].exp then
      UpStep(h, j);
      Up(Swap(h, Parent(j), j), Parent(j))
    else
      assert InOrder(h, j);
      h
  }

  lemma UpStep(h: seq<PastDial>, j: nat)
    requires 0 < j < |h| && HeapButUp(h, j) && h[j].exp < h[Parent(j)].exp
    ensures HeapButUp(Swap(h, Parent(j), j), Parent(j))
  {
    var p := Parent(j);
    var r := Swap(h, p, j);
    forall i: nat | i != p
      ensures InOrder(r, i)
    {
      assert InOrder(h, i) || i == j;
    }
    assert p > 0 ==> InOrder(h, p);
    forall i: nat | 1 <= i < |r| && Parent(i) == p && p > 0
      ensures r[Parent(p)].exp <= r[i].exp
    {
      assert InOrder(h, i) || i == j;
    }
  }

  /** The smaller child of `i`. */
  function Child(h: seq<PastDial>, i: nat): nat
    requires 2 * i + 1 < |h|
  {
    if 2 * i + 2 < |h| && h[2 * i + 2].exp < h[2 * i + 1].exp then 2 * i + 2 else 2 * i + 1
  }

  /** `down` of the standard library's heap. */
  function Down(h: seq<PastDial>, i: nat): (r: seq<PastDial>)
    requires i < |h| && HeapButDown(h, i)
    ensures IsHeap(r) && multiset(r) == multiset(h) && |r| == |h|
    decreases |h| - i
  {
    if 2 * i + 1 < |h| && h[Child(h, i)].exp < h[i].exp then
      DownStep(h, i);
      Down(Swap(h, i, Child(h, i)), Child(h, i))
    else
      assert forall k: nat :: 1 <= k && Parent(k) == i ==> InOrder(h, k);
      h
  }

  lemma DownStep(h: seq<PastDial>, i: nat)
    requires i < |h| && HeapButDown(h, i) && 2 * i + 1 < |h| && h[Child(h, i)].exp < h[i].exp
    ensures HeapButDown(Swap(h, i, Child(h, i)), Child(h, i))
  {
    var c := Child(h, i);
    var r := Swap(h, i, c);
    forall k: nat | 1 <= k && Parent(k) != c
      ensures InOrder(r, k)
    {
      assert Parent(k) != i ==> InOrder(h, k);
    }
    forall k: nat | 1 <= k < |r| && Parent(k) == c && c > 0
      ensures r[Parent(c)].exp <= r[k].exp
    {
      assert InOrder(h, k);
    }
  }

  /** Without its last entry, a heap is a heap. */
  lemma DropLast(h: seq<PastDial>)
    requires IsHeap(h) && |h| > 0
    ensures IsHeap(h[..|h| - 1])
  {
    var g := h[..|h| - 1];
    forall i: nat
      ensures InOrder(g, i)
    {
      assert InOrder(h, i);
    }
  }

  /** After the last entry of a heap has replaced entry `i`, at most the order around `i` is
      broken: upwards if the new entry is below the parent, downwards otherwise. */
  lemma Replaced(h: seq<PastDial>, i: nat)
    requires IsHeap(h) && i < |h| - 1
    ensures var g := h[i := h[|h| - 1]][..|h| - 1];
            if i > 0 && g[i].exp < g[Parent(i)].exp then HeapButUp(g, i) else HeapButDown(g, i)
  {
    var n := |h| - 1;
    var g := h[i := h[n]][..n];
    assert i > 0 ==> InOrder(h, i);
    forall k: nat
      ensures k != i && (k == 0 || Parent(k) != i) ==> InOrder(g, k)
      ensures 1 <= k < |g| && Parent(k) == i ==> h[i].exp <= g[k].exp
    {
      assert InOrder(h, k);
    }
  }

  /** Take out entry `i`, as `heap.Remove` does: the last entry takes its place and moves up or
      down, whichever restores the order. */
  function RemoveAt(h: seq<PastDial>, i: nat): (r: seq<PastDial>)
    requires IsHeap(h) && i < |h|
    ensures IsHeap(r) && multiset(r) == multiset(h) - multiset{h[i]} && |r| == |h| - 1
  {
    var n := |h| - 1;
    assert h == h[..n] + [h[n]];
    if i == n then
      DropLast(h);
      h[..n]
    else
      var g := h[i := h[n]][..n];
      Replaced(h, i);
      ReplacedContents(h, i);
      if i > 0 && g[i].exp < g[Parent(i)].exp then Up(g, i) else Down(g, i)
  }

  lemma ReplacedContents(h: seq<PastDial>, i: nat)
    requires i < |h| - 1
    ensures multiset(h[i := h[|h| - 1]][..|h| - 1]) == multiset(h) - multiset{h[i]}
  {
    var n := |h| - 1;
    var g := h[i := h[n]];
    assert g == g[..n] + [h[n]];
    assert multiset(g) == multiset(g[..n]) + multiset([h[n]]);
    assert multiset(g) == multiset(h) - multiset{h[i]} + multiset{h[n]};
    assert multiset(g[..n]) == multiset(g) - multiset{h[n]};
  }

  /** Taking one entry out of the list takes its id out of the map. */
  lemma RepresentsWithout(h: seq<PastDial>, m: map<NodeID, Time>, i: nat, r: seq<PastDial>)
    requires Represents(h, m) && i < |h| && multiset(r) == multiset(h) - multiset{h[i]}
    ensures h[i].id in m && Represents(r, m - {h[i].id})
  {
    EntryListed(h, m, h[i].id);
    forall e
      ensures multiset(r)[e] == if e.id in m - {h[i].id} && m[e.id] == e.exp then 1 else 0
    {
      assert multiset(h)[e] == if e.id in m && m[e.id] == e.exp then 1 else 0;
    }
  }

  lemma RepresentsWith(h: seq<PastDial>, m: map<NodeID, Time>, e: PastDial)
    requires Represents(h, m) && e.id !in m
    ensures Represents(h + [e], m[e.id := e.exp])
  {
    var m' := m[e.id := e.exp];
    forall x
      ensures multiset(h + [e])[x] == if x.id in m' && m'[x.id] == x.exp then 1 else 0
    {
      assert multiset(h)[x] == if x.id in m && m[x.id] == x.exp then 1 else 0;
    }
  }

  lemma AppendKeepsOrder(h: seq<PastDial>, e: PastDial)
    requires IsHeap(h)
    ensures HeapButUp(h + [e], |h|)
  {
    forall i: nat | i != |h|
      ensures InOrder(h + [e], i)
    {
      assert InOrder(h, i);
    }
  }

  lemma AddRepresents(h: seq<PastDial>, m: map<NodeID, Time>, e: PastDial, r: seq<PastDial>)
    requires Represents(h, m) && e.id !in m && multiset(r) == multiset(h) + multiset{e}
    ensures Represents(r, m[e.id := e.exp])
  {
    RepresentsWith(h, m, e);
    assert multiset(h + [e]) == multiset(r);
  }

  predicate FirstOf(h: seq<PastDial>, id: NodeID, i: int) {
    0 <= i < |h| && h[i].id == id && forall k :: 0 <= k < i ==> h[k].id != id
  }

  /** The first entry of `id` is gone from `h`, if there was one; nothing else has changed. */
  ghost predicate Forgotten(h: seq<PastDial>, id: NodeID, found: bool, r: seq<PastDial>) {
    if found then
      exists i :: FirstOf(h, id, i) && multiset(r) == multiset(h) - multiset{h[i]}
    else r == h && forall i :: 0 <= i < |h| ==> h[i].id != id
  }

  lemma ForgottenRepresents(h: seq<PastDial>, m: map<NodeID, Time>, id: NodeID, found: bool, r: seq<PastDial>)
    requires Represents(h, m) && Forgotten(h, id, found, r)
    ensures Represents(r, m - {id})
  {
    if found {
      var i :| FirstOf(h, id, i) && multiset(r) == multiset(h) - multiset{h[i]};
      RepresentsWithout(h, m, i, r);
    } else {
      EntryListed(h, m, id);
      assert id !in m;
      assert m - {id} == m;
    }
  }

  /** The history as a heap; nothing here asks that ids are different. */
  class History {
    var h: seq<PastDial>

    ghost predicate Valid()
      reads this
    {
      IsHeap(h)
    }

    constructor ()
      ensures Valid() && h == []
    {
      h := [];
    }

    /** Remember that a dial of `id` completed. */
    method Add(id: NodeID, exp: Time)
      requires Valid()
      modifies this
      ensures Valid() && multiset(h) == old(multiset(h)) + multiset{PastDial(id, exp)}
    {
      var e := PastDial(id, exp);
      AppendKeepsOrder(h, e);
      h := Up(h + [e], |h|);
    }

    method Contains(id: NodeID) returns (found: bool)
      requires Valid()
      ensures found <==> exists i :: 0 <= i < |h| && h[i].id == id
    {
      for i := 0 to |h|
        invariant forall k :: 0 <= k < i ==> h[k].id != id
      {
        if h[i].id == id { return true; }
      }
      return false;
    }

    /** Forget the first entry of `id` in the heap. */
    method Remove(id: NodeID) returns (found: bool)
      requires Valid()
      modifies this
      ensures Valid()
      ensures Forgotten(old(h), id, found, h)
    {
      for i := 0 to |h|
        invariant h == old(h) && Valid()
        invariant forall k :: 0 <= k < i ==> h[k].id != id
      {
        if h[i].id == id {
          assert FirstOf(h, id, i);
          h := RemoveAt(h, i);
          return true;
        }
      }
      return false;
    }

    method Min() returns (e: PastDial)
      requires Valid() && |h| > 0
      ensures e in h && forall x :: x in h ==> e.exp <= x.exp
    {
      e := h[0];
      forall x | x in h
        ensures e.exp <= x.exp
      {
        var i :| 0 <= i < |h| && h[i] == x;
        RootIsMin(h, i);
      }
    }

    /** Drop exactly the entries that expired before `now`. */
    method Expire(now: Time)
      requires Valid()
      modifies this
      ensures Valid() && Unexpired(old(h), h, now)
    {
      while |h| > 0 && h[0].exp < now
        invariant Valid() && multiset(h) <= multiset(old(h))
        invariant forall e: PastDial :: e.exp >= now ==> multiset(h)[e] == multiset(old(h))[e]
        decreases |h|
      {
        h := RemoveAt(h, 0);
      }
      forall e | e in multiset(h)
        ensures e.exp >= now
      {
        var i :| 0 <= i < |h| && h[i] == e;
        RootIsMin(h, i);
      }
    }
  }

  /** `r` holds the entries of `h` that had not expired before `now`, and no others. */
  ghost predicate Unexpired(h: seq<PastDial>, r: seq<PastDial>, now: Time) {
    forall e :: multiset(r)[e] == if e.exp < now then 0 else multiset(h)[e]
  }

  lemma ContainsRepresents(h: seq<PastDial>, m: map<NodeID, Time>, id: NodeID)
    requires Represents(h, m)
    ensures id in m <==> exists i :: 0 <= i < |h| && h[i].id == id
  {
    EntryListed(h, m, id);
  }

  lemma MinRepresents(h: seq<PastDial>, m: map<NodeID, Time>, e: PastDial)
    requires Represents(h, m) && e in h && forall x :: x in h ==> e.exp <= x.exp
    ensures |m| > 0 && Dialer.IsMinExp(m, e.exp)
  {
    EmptyTogether(h, m);
    EntryListed(h, m, e.id);
    forall id | id in m
      ensures e.exp <= m[id]
    {
      EntryListed(h, m, id);
    }
  }

  lemma ExpireRepresents(h: seq<PastDial>, m: map<NodeID, Time>, r: seq<PastDial>, now: Time)
    requires Represents(h, m) && Unexpired(h, r, now)
    ensures Represents(r, Dialer.Expire(m, now))
  {
    forall e
      ensures multiset(r)[e]
              == if e.id in Dialer.Expire(m, now) && Dialer.Expire(m, now)[e.id] == e.exp then 1 else 0
    {
      assert multiset(h)[e] == if e.id in m && m[e.id] == e.exp then 1 else 0;
    }
  }
}
