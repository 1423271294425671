/** The barrier after pre-signing: every node of the group announces whether its pre-sign entry is
    stored, collects the announcements of all, and keeps the entry only if nobody failed. */
module Barrier {
  import opened Common

  /** One announcement of a session; equal texts are equal announcements. */
  datatype Sync = Sync(node: nat, success: bool)

  /** The collecting side of one node: the list, how often the signal was raised, and what
      `SynchronizePreSignData` returned. */
  datatype Collector = Collector(list: seq<Sync>, raised: nat, result: Option<bool>)

  /** A session of `n` nodes. `sent` holds every announcement ever sent: the network may deliver
      each of them to each node at any time, in any order, any number of times, or never. */
  datatype System = System(n: nat, outcome: seq<Option<bool>>, sent: set<Sync>, nodes: seq<Collector>)

  function Start(n: nat): System {
    System(n, seq(n, _ => None), {}, seq(n, _ => Collector([], 0, None)))
  }

  /** The push into the list, the same when announcing and when receiving. */
  function Push(n: nat, c: Collector, m: Sync): Collector {
    if |c.list| < n && m !in c.list then
      var list := c.list + [m];
      Collector(list, if |list| == n then c.raised + 1 else c.raised, c.result)
    else c
  }

  /** The verdict over the collected announcements. */
  predicate Verdict(list: seq<Sync>) {
    forall m :: m in list ==> m.success
  }

  datatype Step =
    | Announce(i: nat, success: bool)
    | Deliver(i: nat, m: Sync)
    | Wake(i: nat)
    | Expire(i: nat)

  predicate Enabled(s: System, step: Step)
    requires |s.outcome| == s.n && |s.nodes| == s.n
  {
    && step.i < s.n
    && match step
       case Announce(i, success) => s.outcome[i] == None
       case Deliver(i, m) => m in s.sent
       case Wake(i) => s.outcome[i].Some? && s.nodes[i].result == None && s.nodes[i].raised > 0
       case Expire(i) => s.outcome[i].Some? && s.nodes[i].result == None
  }

  function Next(s: System, step: Step): System
    requires |s.outcome| == s.n && |s.nodes| == s.n && step.i < s.n
  {
    match step
    case Announce(i, success) =>
      var m := Sync(i, success);
      s.(outcome := s.outcome[i := Some(success)], sent := s.sent + {m},
         nodes := s.nodes[i := Push(s.n, s.nodes[i], m)])
    case Deliver(i, m) => s.(nodes := s.nodes[i := Push(s.n, s.nodes[i], m)])
    case Wake(i) => s.(nodes := s.nodes[i := s.nodes[i].(result := Some(Verdict(s.nodes[i].list)))])
    case Expire(i) => s.(nodes := s.nodes[i := s.nodes[i].(result := Some(false))])
  }

  // ----------------------------------------------------------------- invariant

  ghost predicate NoRepeats(list: seq<Sync>) {
    forall i, j :: 0 <= i < j < |list| ==> list[i] != list[j]
  }

  /** A node has announced one outcome at most. */
  ghost predicate Announced(n: nat, outcome: seq<Option<bool>>, sent: set<Sync>) {
    |outcome| == n && forall m :: m in sent ==> m.node < n && outcome[m.node] == Some(m.success)
  }

  ghost predicate Collected(n: nat, sent: set<Sync>, c: Collector) {
    && (forall m :: m in c.list ==> m in sent)
    && NoRepeats(c.list)
    && |c.list| <= n
    && (c.raised == if |c.list| == n && n > 0 then 1 else 0)
    && (c.result == Some(true) ==> |c.list| == n > 0 && Verdict(c.list))
  }

  ghost predicate Inv(s: System) {
    && Announced(s.n, s.outcome, s.sent)
    && |s.nodes| == s.n
    && forall i :: 0 <= i < s.n ==> Collected(s.n, s.sent, s.nodes[i])
  }

  lemma PushKeepsCollected(n: nat, sent: set<Sync>, c: Collector, m: Sync)
    requires Collected(n, sent, c) && m in sent
    ensures Collected(n, sent, Push(n, c, m))
  {
  }

  lemma NextKeepsInv(s: System, step: Step)
    requires Inv(s) && Enabled(s, step)
    ensures Inv(Next(s, step))
  {
    var s', i := Next(s, step), step.i;
    match step
    case Announce(_, success) =>
      forall j | 0 <= j < s.n
        ensures Collected(s.n, s'.sent, s.nodes[j])
      {
        assert Collected(s.n, s.sent, s.nodes[j]);
      }
      PushKeepsCollected(s.n, s'.sent, s.nodes[i], Sync(i, success));
    case Deliver(_, m) => PushKeepsCollected(s.n, s.sent, s.nodes[i], m);
    case Wake(_) =>
    case Expire(_) =>
  }

  ghost predicate Legal(s: System, steps: seq<Step>)
    requires Inv(s)
    decreases |steps|
  {
    steps != [] ==>
      && Enabled(s, steps[0])
      && (NextKeepsInv(s, steps[0]); Legal(Next(s, steps[0]), steps[1..]))
  }

  ghost function Run(s: System, steps: seq<Step>): (r: System)
    requires Inv(s) && Legal(s, steps)
    ensures Inv(r) && r.n == s.n
    decreases |steps|
  {
    if steps == [] then s else NextKeepsInv(s, steps[0]); Run(Next(s, steps[0]), steps[1..])
  }

  // ---------------------------------------------------------------- pigeonhole

  function Nodes(list: seq<Sync>): set<nat> {
    set m | m in list :: m.node
  }

  lemma {:induction false} DistinctNodes(list: seq<Sync>, n: nat, outcome: seq<Option<bool>>, sent: set<Sync>)
    requires NoRepeats(list) && Announced(n, outcome, sent) && forall m :: m in list ==> m in sent
    ensures |Nodes(list)| == |list|
  {
    if list == [] {
      assert Nodes(list) == {};
    } else {
      var last := |list| - 1;
      var before, m := list[..last], list[last];
      DistinctNodes(before, n, outcome, sent);
      assert list == before + [m];
      assert Nodes(list) == Nodes(before) + {m.node};
      assert forall x :: x in before ==> x in list && x != m;
      assert m in list && m.node !in Nodes(before);
    }
  }

  lemma {:induction false} FullSubset(a: set<nat>, n: nat)
    requires (forall x :: x in a ==> x < n) && |a| == n
    ensures forall x :: 0 <= x < n ==> x in a
  {
    if n > 0 {
      var k: nat := n - 1;
      if k in a {
        FullSubset(a - {k}, k);
      } else {
        SubsetSize(a, k);
      }
    }
  }

  lemma {:induction false} SubsetSize(a: set<nat>, n: nat)
    requires forall x :: x in a ==> x < n
    ensures |a| <= n
  {
    if n == 0 {
      assert a == {};
    } else {
      var k: nat := n - 1;
      SubsetSize(a - {k}, k);
    }
  }

  lemma {:induction false} CoverSize(a: set<nat>, n: nat)
    requires forall x: nat :: x < n ==> x in a
    ensures |a| >= n
  {
    if n > 0 {
      var k: nat := n - 1;
      CoverSize(a - {k}, k);
    }
  }

  /** A full list holds the announcement of every node. */
  lemma FullListIsEverybody(s: System, i: nat, k: nat)
    requires Inv(s) && i < s.n && |s.nodes[i].list| == s.n && k < s.n
    ensures s.outcome[k].Some? && Sync(k, s.outcome[k].value) in s.nodes[i].list
  {
    var list := s.nodes[i].list;
    assert Collected(s.n, s.sent, s.nodes[i]);
    DistinctNodes(list, s.n, s.outcome, s.sent);
    FullSubset(Nodes(list), s.n);
    assert k in Nodes(list);
    var m :| m in list && m.node == k;
    assert m in s.sent;
  }

  // ------------------------------------------------------------------- theorems

  /** When the signal has been raised, the verdict is whether all nodes announced success. */
  lemma VerdictIsUnanimity(s: System, i: nat)
    requires Inv(s) && i < s.n && s.nodes[i].raised > 0
    ensures Verdict(s.nodes[i].list) <==> forall k :: 0 <= k < s.n ==> s.outcome[k] == Some(true)
  {
    var list := s.nodes[i].list;
    assert Collected(s.n, s.sent, s.nodes[i]);
    forall k | 0 <= k < s.n
      ensures s.outcome[k].Some? && Sync(k, s.outcome[k].value) in list
    {
      FullListIsEverybody(s, i, k);
    }
  }

  /** A delivered announcement is in the list, whatever was there before: a full list holds it already. */
  lemma DeliveredIsCollected(s: System, i: nat, m: Sync)
    requires Inv(s) && i < s.n && m in s.sent
    ensures var c, c' := s.nodes[i], Next(s, Deliver(i, m)).nodes[i];
            m in c'.list && c.list <= c'.list && |c'.list| <= |c.list| + 1
  {
    assert Collected(s.n, s.sent, s.nodes[i]);
    if |s.nodes[i].list| == s.n {
      FullListIsEverybody(s, i, m.node);
    }
  }

  /** A node that has heard every announcement has its signal raised, and can be woken if it still waits. */
  lemma AllHeardRaises(s: System, i: nat)
    requires Inv(s) && i < s.n
    requires forall k :: 0 <= k < s.n ==> s.outcome[k].Some? && Sync(k, s.outcome[k].value) in s.nodes[i].list
    ensures s.nodes[i].raised == 1
    ensures s.nodes[i].result == None ==>
              && Enabled(s, Wake(i))
              && Next(s, Wake(i)).nodes[i].result == Some(forall k :: 0 <= k < s.n ==> s.outcome[k] == Some(true))
  {
    var list := s.nodes[i].list;
    assert Collected(s.n, s.sent, s.nodes[i]);
    DistinctNodes(list, s.n, s.outcome, s.sent);
    forall k: nat | k < s.n
      ensures k in Nodes(list)
    {
      assert Sync(k, s.outcome[k].value) in list;
    }
    CoverSize(Nodes(list), s.n);
    VerdictIsUnanimity(s, i);
  }

  /** A barrier that times out returns false, even if it has heard of every success; nothing else changes. */
  lemma TimeoutFails(s: System, i: nat)
    requires Inv(s) && Enabled(s, Expire(i))
    ensures var s' := Next(s, Expire(i));
            s'.nodes[i] == s.nodes[i].(result := Some(false)) && s' == s.(nodes := s.nodes[i := s'.nodes[i]])
  {
  }

  /** A barrier that returned true saw every node announce a success. */
  lemma TrueIsUnanimous(s: System, i: nat)
    requires Inv(s) && i < s.n && s.nodes[i].result == Some(true)
    ensures forall k :: 0 <= k < s.n ==> s.outcome[k] == Some(true)
  {
    assert Collected(s.n, s.sent, s.nodes[i]);
    VerdictIsUnanimity(s, i);
  }

  /** Under any delay, reordering, duplication or loss: a barrier that returned true means that
      all nodes announced success, and a node that announced failure makes every barrier that
      returns return false; the signal is raised at most once. */
  lemma EveryRunIsSafe(n: nat, steps: seq<Step>, i: nat)
    requires i < n && (StartHasInv(n); Legal(Start(n), steps))
    ensures var s := (StartHasInv(n); Run(Start(n), steps));
            && s.nodes[i].raised <= 1
            && (s.nodes[i].result == Some(true) ==> forall k :: 0 <= k < n ==> s.outcome[k] == Some(true))
            && (forall k :: 0 <= k < n && s.outcome[k] == Some(false) ==> s.nodes[i].result != Some(true))
  {
    StartHasInv(n);
    var s := Run(Start(n), steps);
    assert Collected(s.n, s.sent, s.nodes[i]);
    if s.nodes[i].result == Some(true) {
      TrueIsUnanimous(s, i);
    }
  }

  lemma StartHasInv(n: nat)
    ensures Inv(Start(n))
  {
  }

  /** Some nodes keep the entry and others drop it only when a barrier timed out: two barriers that
      were both woken agree. */
  lemma WokenBarriersAgree(s: System, i: nat, j: nat)
    requires Inv(s) && i < s.n && j < s.n && s.nodes[i].raised > 0 && s.nodes[j].raised > 0
    ensures Verdict(s.nodes[i].list) <==> Verdict(s.nodes[j].list)
  {
    VerdictIsUnanimity(s, i);
    VerdictIsUnanimity(s, j);
  }

  // -------------------------------------------------------------- one node in place

  class Worker {
    const threshold: nat
    var list: seq<Sync>
    var raised: nat

    constructor (n: nat)
      ensures threshold == n && list == [] && raised == 0
    {
      threshold, list, raised := n, [], 0;
    }

    /** The push of `SynchronizePreSignData` and of the SyncPreSign branch of `Call`. */
    method Receive(m: Sync, ghost result: Option<bool>)
      modifies this
      ensures Collector(list, raised, result) == Push(threshold, old(Collector(list, raised, result)), m)
    {
      if |list| < threshold {
        if m !in list {
          list := list + [m];
          if |list| == threshold {
            raised := raised + 1;
          }
        }
      }
    }

    /** The walk over the list after the signal. */
    method Scan() returns (reply: bool)
      ensures reply == Verdict(list)
    {
      var i := 0;
      while i < |list|
        invariant 0 <= i <= |list|
        invariant forall j :: 0 <= j < i ==> list[j].success
      {
        if !list[i].success {
          return false;
        }
        i := i + 1;
      }
      return true;
    }
  }
}
