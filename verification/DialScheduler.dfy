/** The dial scheduler as the object the server loop drives, proved against the functions of
    module Dialer. */
module DialScheduler {
  import opened Common
  import opened Dialer
  import DialHistory

  /** An arbitrary order in which a map with these keys may be ranged over. */
  method RangeOrder(keys: set<NodeID>) returns (order: seq<NodeID>)
    ensures Enumerates(order, keys)
  {
    order := [];
    var todo := keys;
    while todo != {}
      invariant todo <= keys
      invariant Enumerates(order, keys - todo)
      decreases todo
    {
      var id :| id in todo;
      EnumeratesAppend(order, keys - todo, id);
      assert keys - (todo - {id}) == keys - todo + {id};
      order, todo := order + [id], todo - {id};
    }
    assert keys - {} == keys;
  }

  lemma EnumeratesAppend(order: seq<NodeID>, keys: set<NodeID>, id: NodeID)
    requires Enumerates(order, keys) && id !in keys
    ensures Enumerates(order + [id], keys + {id})
  {
    forall x
      ensures x in keys + {id} <==> x in order + [id]
    {
    }
    forall i, j | 0 <= i < j < |order + [id]|
      ensures (order + [id])[i] != (order + [id])[j]
    {
      assert order[i] in order;
    }
  }

  /** How many entries carry the dynamic-dial flag. */
  method CountDyn(m: map<NodeID, ConnFlags>) returns (n: nat)
    ensures n == |DynSet(m)|
  {
    n := 0;
    var todo := m.Keys;
    while todo != {}
      invariant todo <= m.Keys
      invariant n == |DynSet(m) - todo|
      decreases todo
    {
      var id :| id in todo;
      if m[id].dynDialed {
        assert DynSet(m) - (todo - {id}) == DynSet(m) - todo + {id};
        n := n + 1;
      } else {
        assert DynSet(m) - (todo - {id}) == DynSet(m) - todo;
      }
      todo := todo - {id};
    }
    assert DynSet(m) - {} == DynSet(m);
  }

  class Scheduler {
    const maxDynDials: int
    const self: Option<NodeID>
    const netRestrict: Option<set<IP>>
    var lookupRunning: bool
    var dialing: map<NodeID, ConnFlags>
    var lookupBuf: seq<Node>
    var statics: map<NodeID, Node>
    const hist: DialHistory.History
    ghost var recent: map<NodeID, Time>
    var start: Option<Time>
    var bootnodes: seq<Node>

    /** The abstract value of the object. */
    ghost function State(): DialState
      reads this, hist
    {
      DialState(maxDynDials, self, netRestrict, lookupRunning, dialing, lookupBuf, statics,
                recent, start, bootnodes)
    }

    ghost predicate Valid()
      reads this, hist
    {
      hist.Valid() && DialHistory.Represents(hist.h, recent) && Consistent(State())
    }

    constructor (nodes: seq<Node>, boot: seq<Node>, self: Option<NodeID>, maxDyn: int, restrict: Option<set<IP>>)
      ensures Valid() && fresh(hist)
      ensures State() == DialState(maxDyn, self, restrict, false, map[], [], StaticTable(nodes), map[], None, boot)
    {
      maxDynDials, this.self, netRestrict := maxDyn, self, restrict;
      lookupRunning, dialing, lookupBuf, start, bootnodes := false, map[], [], None, boot;
      statics, recent := map[], map[];
      hist := new DialHistory.History();
      new;
      for i := 0 to |nodes|
        invariant Valid() && fresh(hist)
        invariant State() == DialState(maxDyn, self, restrict, false, map[], [], StaticTable(nodes[..i]), map[],
                                       None, boot)
      {
        assert nodes[..i + 1][..i] == nodes[..i];
        AddStaticNode(nodes[i]);
      }
      assert nodes[..|nodes|] == nodes;
    }

    method AddStaticNode(n: Node)
      requires Valid()
      modifies this
      ensures Valid() && State() == AddStatic(old(State()), n)
    {
      statics := statics[n.id := n];
    }

    method RemoveStaticNode(n: Node)
      requires Valid()
      modifies this, hist
      ensures Valid() && State() == RemoveStatic(old(State()), n)
    {
      statics := statics - {n.id};
      ghost var h := hist.h;
      var found := hist.Remove(n.id);
      DialHistory.ForgottenRepresents(h, recent, n.id, found, hist.h);
      recent := recent - {n.id};
    }

    method Check(n: Node, peers: Peers) returns (c: DialCheck)
      requires Valid()
      ensures c == CheckDial(State(), n, peers)
    {
      var seen := hist.Contains(n.id);
      DialHistory.ContainsRepresents(hist.h, recent, n.id);
      c := if n.id in dialing then AlreadyDialing
           else if n.id in peers then AlreadyConnected
           else if self == Some(n.id) then IsSelf
           else if netRestrict.Some? && n.ip !in netRestrict.value then NotWhitelisted
           else if seen then RecentlyDialed
           else DialOk;
    }

    /** `taskDone`. A dial is always pushed onto the history; the state stays that of the
        specification when the node was not in it, which is so for every dial the loop reports. */
    method Finish(t: Task, results: seq<Node>, now: Time)
      requires Valid()
      modifies this, hist
      ensures hist.Valid() && recent == TaskDone(old(State()), t, results, now).hist
      ensures dialing == (if t.Dial? then old(dialing) - {t.id} else old(dialing))
      ensures multiset(hist.h) == if t.Dial? then
                                    old(multiset(hist.h))
                                    + multiset{DialHistory.PastDial(t.id, now + DIAL_HISTORY_EXPIRATION)}
                                  else old(multiset(hist.h))
      ensures State() == TaskDone(old(State()), t, results, now)
      ensures Valid() || (t.Dial? && t.id in old(recent))
    {
      match t
      case Dial(_, id) =>
        ghost var h, before := hist.h, recent;
        hist.Add(id, now + DIAL_HISTORY_EXPIRATION);
        dialing := dialing - {id};
        recent := recent[id := now + DIAL_HISTORY_EXPIRATION];
        if id !in before {
          DialHistory.AddRepresents(h, before, DialHistory.PastDial(id, now + DIAL_HISTORY_EXPIRATION), hist.h);
        }
      case Discover =>
        lookupRunning := false;
        lookupBuf := lookupBuf + results;
      case WaitExpire(_) =>
    }

    /** `addDial` for a dynamic dial, with the caller's accounting. */
    method TryDynDial(n: Node, peers: Peers, tasks: seq<Task>, need: int) returns (tasks': seq<Task>, need': int)
      requires Valid()
      modifies this`dialing
      ensures Valid()
      ensures Plan(State(), tasks', need') == TryDyn(Plan(old(State()), tasks, need), n, peers)
    {
      var c := Check(n, peers);
      if c.DialOk? {
        dialing := dialing[n.id := DYN_DIALED];
        return tasks + [Dial(DYN_DIALED, n.id)], need - 1;
      }
      return tasks, need;
    }

    /** One iteration of the loop over the static tasks. */
    method DialStaticNode(id: NodeID, peers: Peers, tasks: seq<Task>, ghost need: int) returns (tasks': seq<Task>)
      requires Valid() && id in statics
      modifies this`dialing, this`statics
      ensures Valid()
      ensures Plan(State(), tasks', need) == StaticStep(Plan(old(State()), tasks, need), id, peers)
      ensures statics.Keys >= old(statics.Keys) - {id}
    {
      var n := statics[id];
      var c := Check(n, peers);
      tasks' := tasks;
      match c {
        case NotWhitelisted => statics := statics - {n.id};
        case IsSelf => statics := statics - {n.id};
        case DialOk =>
          dialing := dialing[id := STATIC_DIALED];
          tasks' := tasks + [Dial(STATIC_DIALED, id)];
        case _ =>
      }
    }

    method DialStatics(order: seq<NodeID>, peers: Peers, ghost need: int) returns (tasks: seq<Task>)
      requires Valid() && Enumerates(order, statics.Keys)
      modifies this`dialing, this`statics
      ensures Valid()
      ensures Plan(State(), tasks, need) == DialStatic(Plan(old(State()), [], need), order, peers)
    {
      hide StaticStep, Consistent;
      tasks := [];
      assert order[0..] == order;
      for i := 0 to |order|
        invariant Valid()
        invariant DialStatic(Plan(State(), tasks, need), order[i..], peers)
               == DialStatic(Plan(old(State()), [], need), order, peers)
        invariant forall k :: i <= k < |order| ==> order[k] in statics
      {
        assert order[i..][1..] == order[i + 1..];
        tasks := DialStaticNode(order[i], peers, tasks, need);
      }
    }

    method DialNodes(nodes: seq<Node>, peers: Peers, tasks0: seq<Task>, need0: int)
      returns (tasks: seq<Task>, need: int)
      requires Valid()
      modifies this`dialing
      ensures Valid()
      ensures Plan(State(), tasks, need) == DialAll(Plan(old(State()), tasks0, need0), nodes, peers)
    {
      tasks, need := tasks0, need0;
      assert nodes[0..] == nodes;
      for i := 0 to |nodes|
        invariant Valid()
        invariant DialAll(Plan(State(), tasks, need), nodes[i..], peers)
               == DialAll(Plan(old(State()), tasks0, need0), nodes, peers)
      {
        assert nodes[i..][1..] == nodes[i + 1..];
        tasks, need := TryDynDial(nodes[i], peers, tasks, need);
      }
    }

    method DialLookups(peers: Peers, tasks0: seq<Task>, need0: int) returns (tasks: seq<Task>, need: int)
      requires Valid()
      modifies this`dialing, this`lookupBuf
      ensures Valid()
      ensures Plan(State(), tasks, need) == DialLookup(Plan(old(State()), tasks0, need0), old(lookupBuf), peers)
    {
      tasks, need := tasks0, need0;
      var i := 0;
      assert lookupBuf[0..] == lookupBuf;
      while i < |lookupBuf| && need > 0
        invariant Valid() && i <= |lookupBuf| && lookupBuf == old(lookupBuf)
        invariant DialLookup(Plan(State(), tasks, need), lookupBuf[i..], peers)
               == DialLookup(Plan(old(State()), tasks0, need0), old(lookupBuf), peers)
      {
        assert lookupBuf[i..][1..] == lookupBuf[i + 1..];
        tasks, need := TryDynDial(lookupBuf[i], peers, tasks, need);
        i := i + 1;
      }
      lookupBuf := lookupBuf[i..];
    }

    /** The beginning of `newTasks`: the dial budget, and expiry of the history. */
    method Prepare(peers: Peers, now: Time) returns (need: int)
      requires Valid()
      modifies this, hist
      ensures Valid() && statics == old(statics)
      ensures Plan(State(), [], need) == Begin(old(State()), peers, now)
    {
      if start.None? {
        start := Some(now);
      }
      var busy := CountDyn(peers);
      var dials := CountDyn(dialing);
      need := maxDynDials - busy - dials;
      ghost var h := hist.h;
      hist.Expire(now);
      DialHistory.ExpireRepresents(h, recent, hist.h, now);
      recent := Expire(recent, now);
    }

    /** The end of `newTasks`: a timer, if nothing else would wake the loop up. */
    method AddTimer(nRunning: int, now: Time, tasks0: seq<Task>, ghost need: int) returns (tasks: seq<Task>)
      requires Valid()
      ensures Plan(State(), tasks, need) == LaunchWait(Plan(State(), tasks0, need), nRunning, now)
    {
      tasks := tasks0;
      DialHistory.EmptyTogether(hist.h, recent);
      if nRunning == 0 && |tasks| == 0 && |hist.h| > 0 {
        var e := hist.Min();
        DialHistory.MinRepresents(hist.h, recent, e);
        MinExpUnique(recent, e.exp);
        tasks := [WaitExpire(e.exp - now)];
      }
    }

    /** `newTasks`.  `random` is what the discovery table would put into the buffer; `order` reports
        the order in which the static map happened to be ranged over. */
    method NextTasks(nRunning: int, peers: Peers, now: Time, random: seq<Node>)
      returns (tasks: seq<Task>, order: seq<NodeID>)
      requires Valid()
      modifies this, hist
      ensures Valid() && Enumerates(order, old(statics.Keys))
      ensures var p := NewTasks(old(State()), nRunning, peers, now, order, random);
              State() == p.s && tasks == p.tasks
    {
      hide Begin, DialStatic, DynamicPhase, LaunchWait, Consistent, Enumerates;
      var need := Prepare(peers, now);
      order := RangeOrder(statics.Keys);
      tasks := DialStatics(order, peers, need);
      tasks, need := DialDynamic(peers, now, random, tasks, need);
      tasks := AddTimer(nRunning, now, tasks, need);
    }

    method DialDynamic(peers: Peers, now: Time, random: seq<Node>, tasks0: seq<Task>, need0: int)
      returns (tasks: seq<Task>, need: int)
      requires Valid()
      modifies this
      ensures Valid()
      ensures Plan(State(), tasks, need) == DynamicPhase(Plan(old(State()), tasks0, need0), peers, now, random)
    {
      tasks, need := tasks0, need0;
      if |peers| == 0 && |bootnodes| > 0 && need > 0 && start.Some? && now - start.value > FALLBACK_INTERVAL {
        var bootnode := bootnodes[0];
        bootnodes := bootnodes[1..] + [bootnode];
        tasks, need := TryDynDial(bootnode, peers, tasks, need);
      }
      ghost var p1 := DialBootnode(Plan(old(State()), tasks0, need0), peers, now);
      assert Plan(State(), tasks, need) == p1;

      var candidates := Half(need);
      if candidates > 0 {
        var k := if candidates < |random| then candidates else |random|;
        tasks, need := DialNodes(random[..k], peers, tasks, need);
      }
      assert Plan(State(), tasks, need) == DialRandom(p1, random, peers);

      tasks, need := DialLookups(peers, tasks, need);

      if |lookupBuf| < need && !lookupRunning {
        lookupRunning := true;
        tasks := tasks + [Discover];
      }
    }
  }

  lemma MinExpUnique(hist: map<NodeID, Time>, e: Time)
    requires |hist| > 0 && IsMinExp(hist, e)
    ensures MinExp(hist) == e
  {
    var m := MinExp(hist);
    assert IsMinExp(hist, m) by { MinExpExists(hist); }
    var id1 :| id1 in hist && hist[id1] == e;
    var id2 :| id2 in hist && hist[id2] == m;
  }
}
