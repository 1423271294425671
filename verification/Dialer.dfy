/** The dial scheduler as a function from states to states: what one call of
    `newTasks`, `taskDone`, `addStatic` and `removeStatic` does. */
module Dialer {
  import opened Common

  const DIAL_HISTORY_EXPIRATION: Time := 30 * SECOND
  const FALLBACK_INTERVAL: Time := 20 * SECOND

  /** A task of the server loop.  A dial task is identified by the node it dials:
      discovery never changes the identity of a task's destination. */
  datatype Task =
    | Dial(flags: ConnFlags, id: NodeID)
    | Discover
    | WaitExpire(duration: Time)

  datatype DialState = DialState(
    maxDynDials: int,
    self: Option<NodeID>,            // None: no discovery table
    netRestrict: Option<set<IP>>,    // None: every address is allowed
    lookupRunning: bool,
    dialing: map<NodeID, ConnFlags>,
    lookupBuf: seq<Node>,
    statics: map<NodeID, Node>,
    hist: map<NodeID, Time>,         // the contents of the history heap: id -> expiry
    start: Option<Time>,
    bootnodes: seq<Node>)

  type Peers = map<NodeID, ConnFlags>

  datatype DialCheck = DialOk | AlreadyDialing | AlreadyConnected | IsSelf | NotWhitelisted | RecentlyDialed

  function CheckDial(s: DialState, n: Node, peers: Peers): DialCheck {
    if n.id in s.dialing then AlreadyDialing
    else if n.id in peers then AlreadyConnected
    else if s.self == Some(n.id) then IsSelf
    else if s.netRestrict.Some? && n.ip !in s.netRestrict.value then NotWhitelisted
    else if n.id in s.hist then RecentlyDialed
    else DialOk
  }

  // ---------------------------------------------------------------- newTasks

  /** The variables of one `newTasks` call: the dial state, `newtasks` and `needDynDials`. */
  datatype Plan = Plan(s: DialState, tasks: seq<Task>, need: int)

  function Push(p: Plan, flags: ConnFlags, id: NodeID): Plan {
    Plan(p.s.(dialing := p.s.dialing[id := flags]), p.tasks + [Dial(flags, id)], p.need)
  }

  /** `addDial` for a dynamic dial, followed by the caller's decrement. */
  function TryDyn(p: Plan, n: Node, peers: Peers): Plan {
    if CheckDial(p.s, n, peers).DialOk? then Push(p, DYN_DIALED, n.id).(need := p.need - 1) else p
  }

  function DynSet(m: map<NodeID, ConnFlags>): set<NodeID> {
    set id | id in m && m[id].dynDialed
  }

  function Expire(hist: map<NodeID, Time>, now: Time): map<NodeID, Time> {
    map id | id in hist && hist[id] >= now :: hist[id]
  }

  function Begin(s: DialState, peers: Peers, now: Time): Plan {
    Plan(s.(start := if s.start.None? then Some(now) else s.start,
            hist := Expire(s.hist, now)),
         [],
         s.maxDynDials - |DynSet(peers)| - |DynSet(s.dialing)|)
  }

  /** One iteration of the loop over the static tasks. */
  function StaticStep(p: Plan, id: NodeID, peers: Peers): Plan
    requires id in p.s.statics
  {
    match CheckDial(p.s, p.s.statics[id], peers)
    case IsSelf => p.(s := p.s.(statics := p.s.statics - {p.s.statics[id].id}))
    case NotWhitelisted => p.(s := p.s.(statics := p.s.statics - {p.s.statics[id].id}))
    case DialOk => Push(p, STATIC_DIALED, id)
    case _ => p
  }

  /** The loop over the static tasks, in the order `order` in which the map was ranged over. */
  function DialStatic(p: Plan, order: seq<NodeID>, peers: Peers): Plan
    decreases |order|
  {
    if order == [] then p
    else
      var p' := if order[0] in p.s.statics then StaticStep(p, order[0], peers) else p;
      DialStatic(p', order[1..], peers)
  }

  predicate WantsBootnode(p: Plan, peers: Peers, now: Time) {
    |peers| == 0 && |p.s.bootnodes| > 0 && p.need > 0
    && p.s.start.Some? && now - p.s.start.value > FALLBACK_INTERVAL
  }

  function DialBootnode(p: Plan, peers: Peers, now: Time): Plan {
    if WantsBootnode(p, peers, now) then
      var n := p.s.bootnodes[0];
      TryDyn(p.(s := p.s.(bootnodes := p.s.bootnodes[1..] + [n])), n, peers)
    else p
  }

  /** Try every node of `nodes`, unconditionally. */
  function DialAll(p: Plan, nodes: seq<Node>, peers: Peers): Plan
    decreases |nodes|
  {
    if nodes == [] then p else DialAll(TryDyn(p, nodes[0], peers), nodes[1..], peers)
  }

  function Half(n: int): int { GoDiv(n, 2) }

  /** `random` is what ReadRandomNodes put into the buffer. */
  function DialRandom(p: Plan, random: seq<Node>, peers: Peers): Plan {
    if Half(p.need) <= 0 then p
    else DialAll(p, random[..if Half(p.need) < |random| then Half(p.need) else |random|], peers)
  }

  /** Dial lookup results while more dynamic dials are needed; what is left stays buffered. */
  function DialLookup(p: Plan, buf: seq<Node>, peers: Peers): Plan
    decreases |buf|
  {
    if buf == [] || p.need <= 0 then p.(s := p.s.(lookupBuf := buf))
    else DialLookup(TryDyn(p, buf[0], peers), buf[1..], peers)
  }

  function LaunchLookup(p: Plan): Plan {
    if |p.s.lookupBuf| < p.need && !p.s.lookupRunning
    then Plan(p.s.(lookupRunning := true), p.tasks + [Discover], p.need)
    else p
  }

  ghost predicate IsMinExp(hist: map<NodeID, Time>, e: Time) {
    (exists id :: id in hist && hist[id] == e) && (forall id :: id in hist ==> e <= hist[id])
  }

  lemma {:induction false} MinExpExists(hist: map<NodeID, Time>)
    requires |hist| > 0
    ensures exists e :: IsMinExp(hist, e)
    decreases |hist|
  {
    var id :| id in hist;
    var rest := hist - {id};
    assert rest.Keys == hist.Keys - {id};
    if |rest| == 0 {
      assert rest.Keys == {};
      assert forall k :: k in hist ==> k == id;
      assert IsMinExp(hist, hist[id]);
    } else {
      assert |rest| < |hist|;
      MinExpExists(rest);
      var e :| IsMinExp(rest, e);
      assert forall k :: k in hist ==> k == id || (k in rest && rest[k] == hist[k]);
      var k0 :| k0 in rest && rest[k0] == e;
      assert hist[k0] == e;
      assert IsMinExp(hist, if hist[id] < e then hist[id] else e);
    }
  }

  ghost function MinExp(hist: map<NodeID, Time>): Time
    requires |hist| > 0
  {
    MinExpExists(hist);
    var e :| IsMinExp(hist, e);
    e
  }

  ghost function LaunchWait(p: Plan, nRunning: int, now: Time): Plan {
    if nRunning == 0 && p.tasks == [] && |p.s.hist| > 0
    then p.(tasks := [WaitExpire(MinExp(p.s.hist) - now)])
    else p
  }

  /** Dynamic dials of one call, in the order the source makes them. */
  function DynamicPhase(p: Plan, peers: Peers, now: Time, random: seq<Node>): Plan {
    var p1 := DialBootnode(p, peers, now);
    var p2 := DialRandom(p1, random, peers);
    LaunchLookup(DialLookup(p2, p2.s.lookupBuf, peers))
  }

  ghost function NewTasks(s: DialState, nRunning: int, peers: Peers, now: Time,
                          order: seq<NodeID>, random: seq<Node>): Plan
  {
    var p := DialStatic(Begin(s, peers, now), order, peers);
    LaunchWait(DynamicPhase(p, peers, now, random), nRunning, now)
  }

  // ------------------------------------------------- taskDone and static nodes

  function TaskDone(s: DialState, t: Task, results: seq<Node>, now: Time): DialState {
    match t
    case Dial(_, id) =>
      s.(hist := s.hist[id := now + DIAL_HISTORY_EXPIRATION], dialing := s.dialing - {id})
    case Discover => s.(lookupRunning := false, lookupBuf := s.lookupBuf + results)
    case WaitExpire(_) => s
  }

  function AddStatic(s: DialState, n: Node): DialState {
    s.(statics := s.statics[n.id := n])
  }

  function RemoveStatic(s: DialState, n: Node): DialState {
    s.(statics := s.statics - {n.id}, hist := s.hist - {n.id})
  }

  /** The static nodes a scheduler starts with; a later entry replaces an earlier one. */
  function StaticTable(statics: seq<Node>): (m: map<NodeID, Node>)
    ensures forall id :: id in m ==> m[id].id == id && m[id] in statics
    ensures forall i :: 0 <= i < |statics| ==> statics[i].id in m
  {
    if statics == [] then map[]
    else
      var n := statics[|statics| - 1];
      StaticTable(statics[..|statics| - 1])[n.id := n]
  }

  /** Among nodes configured under one id, the last one is registered. */
  lemma {:induction false} StaticTableKeepsLast(statics: seq<Node>, i: nat)
    requires i < |statics| && forall j :: i < j < |statics| ==> statics[j].id != statics[i].id
    ensures StaticTable(statics)[statics[i].id] == statics[i]
  {
    var last := |statics| - 1;
    if i < last {
      StaticTableKeepsLast(statics[..last], i);
    }
  }

  // -------------------------------------------------------------- what holds

  /** A static entry is stored under its destination's identity, and no node is both
      being dialed and in the history. */
  ghost predicate Consistent(s: DialState) {
    && (forall id :: id in s.statics ==> s.statics[id].id == id)
    && s.dialing.Keys !! s.hist.Keys
  }

  /** `tasks` holds exactly one dial task for every entry that `d1` has beyond `d0`, carrying
      its flags, and no dial task for any other node. */
  ghost predicate DialsAdded(d0: map<NodeID, ConnFlags>, d1: map<NodeID, ConnFlags>, tasks: seq<Task>) {
    && (forall id :: id in d0 ==> id in d1 && d1[id] == d0[id])
    && (forall f, id :: multiset(tasks)[Dial(f, id)] ==
          if id in d1 && id !in d0 && d1[id] == f then 1 else 0)
  }

  lemma DialsAddedNone(d: map<NodeID, ConnFlags>)
    ensures DialsAdded(d, d, [])
  {
  }

  lemma DialsAddedPush(d0: map<NodeID, ConnFlags>, d1: map<NodeID, ConnFlags>, tasks: seq<Task>,
                       flags: ConnFlags, id: NodeID)
    requires DialsAdded(d0, d1, tasks) && id !in d1
    ensures DialsAdded(d0, d1[id := flags], tasks + [Dial(flags, id)])
  {
    var d2 := d1[id := flags];
    var tasks' := tasks + [Dial(flags, id)];
    assert multiset(tasks') == multiset(tasks) + multiset{Dial(flags, id)};
    assert id !in d0;
    forall f, k
      ensures multiset(tasks')[Dial(f, k)] == if k in d2 && k !in d0 && d2[k] == f then 1 else 0
    {
      assert multiset(tasks)[Dial(f, k)] == if k in d1 && k !in d0 && d1[k] == f then 1 else 0;
    }
  }

  /** The facts about a plan that every phase of `newTasks` keeps, relative to the state `s0`
      at the start of the call: the new dial tasks are exactly the new entries of `dialing`, and
      `needDynDials` is exactly the dial budget not yet used by peers and dials. */
  ghost predicate PlanInv(s0: DialState, p: Plan, peers: Peers) {
    && DialsAdded(s0.dialing, p.s.dialing, p.tasks)
    && p.need == p.s.maxDynDials - |DynSet(peers)| - |DynSet(p.s.dialing)|
    && Consistent(p.s)
    && p.s.maxDynDials == s0.maxDynDials && p.s.self == s0.self && p.s.netRestrict == s0.netRestrict
    && p.s.statics.Keys <= s0.statics.Keys
    && (forall id :: id in p.s.dialing && id !in s0.dialing ==>
          id !in peers && id !in p.s.hist && s0.self != Some(id))
    && (forall d :: WaitExpire(d) !in p.tasks)
  }

  lemma DynSetPush(d: map<NodeID, ConnFlags>, id: NodeID, flags: ConnFlags)
    requires id !in d
    ensures |DynSet(d[id := flags])| == |DynSet(d)| + if flags.dynDialed then 1 else 0
  {
    if flags.dynDialed {
      assert DynSet(d[id := flags]) == DynSet(d) + {id};
    } else {
      assert DynSet(d[id := flags]) == DynSet(d);
    }
  }

  lemma NoWaitAfterPush(tasks: seq<Task>, t: Task)
    requires forall d :: WaitExpire(d) !in tasks
    requires !t.WaitExpire?
    ensures forall d :: WaitExpire(d) !in tasks + [t]
  {
  }

  lemma PushKeepsPlan(s0: DialState, p: Plan, peers: Peers, flags: ConnFlags, n: Node)
    requires PlanInv(s0, p, peers)
    requires CheckDial(p.s, n, peers).DialOk?
    ensures var p' := Push(p, flags, n.id).(need := p.need - if flags.dynDialed then 1 else 0);
            PlanInv(s0, p', peers)
  {
    DialsAddedPush(s0.dialing, p.s.dialing, p.tasks, flags, n.id);
    DynSetPush(p.s.dialing, n.id, flags);
    NoWaitAfterPush(p.tasks, Dial(flags, n.id));
  }

  lemma TryDynKeepsPlan(s0: DialState, p: Plan, peers: Peers, n: Node)
    requires PlanInv(s0, p, peers)
    ensures PlanInv(s0, TryDyn(p, n, peers), peers)
    ensures p.need - 1 <= TryDyn(p, n, peers).need <= p.need
    ensures TryDyn(p, n, peers).need == p.need ==> TryDyn(p, n, peers) == p
    ensures TryDyn(p, n, peers).s.hist == p.s.hist
    ensures TryDyn(p, n, peers).s.lookupRunning == p.s.lookupRunning
    ensures Discover in TryDyn(p, n, peers).tasks <==> Discover in p.tasks
  {
    if CheckDial(p.s, n, peers).DialOk? {
      PushKeepsPlan(s0, p, peers, DYN_DIALED, n);
    }
  }

  lemma BeginKeepsPlan(s: DialState, peers: Peers, now: Time)
    requires Consistent(s)
    ensures PlanInv(s, Begin(s, peers, now), peers)
  {
    DialsAddedNone(s.dialing);
  }

  /** What the static loop leaves alone. */
  ghost predicate SameButStatics(p: Plan, p': Plan) {
    && p'.need == p.need && p'.s.hist == p.s.hist && p'.s.lookupRunning == p.s.lookupRunning
    && p'.s.lookupBuf == p.s.lookupBuf && p'.s.bootnodes == p.s.bootnodes && p'.s.start == p.s.start
    && DynSet(p'.s.dialing) == DynSet(p.s.dialing)
    && (Discover in p'.tasks <==> Discover in p.tasks)
  }

  lemma ForgetKeepsPlan(s0: DialState, p: Plan, ids: set<NodeID>, peers: Peers)
    requires PlanInv(s0, p, peers)
    ensures PlanInv(s0, p.(s := p.s.(statics := p.s.statics - ids)), peers)
  {
    var statics' := p.s.statics - ids;
    assert forall id :: id in statics' ==> id in p.s.statics && statics'[id] == p.s.statics[id];
  }

  lemma StaticDialKeepsPlan(s0: DialState, p: Plan, n: Node, peers: Peers)
    requires PlanInv(s0, p, peers) && CheckDial(p.s, n, peers).DialOk?
    ensures PlanInv(s0, Push(p, STATIC_DIALED, n.id), peers)
    ensures SameButStatics(p, Push(p, STATIC_DIALED, n.id))
  {
    PushKeepsPlan(s0, p, peers, STATIC_DIALED, n);
    var p' := Push(p, STATIC_DIALED, n.id);
    assert p'.(need := p.need - 0) == p';
    assert DynSet(p'.s.dialing) == DynSet(p.s.dialing);
  }

  lemma StaticStepKeepsPlan(s0: DialState, p: Plan, id: NodeID, peers: Peers)
    requires PlanInv(s0, p, peers) && id in p.s.statics
    ensures PlanInv(s0, StaticStep(p, id, peers), peers) && SameButStatics(p, StaticStep(p, id, peers))
  {
    var n := p.s.statics[id];
    var p' := StaticStep(p, id, peers);
    if p'.tasks != p.tasks {
      StaticDialKeepsPlan(s0, p, n, peers);
      assert p' == Push(p, STATIC_DIALED, n.id);
    } else if p' != p {
      ForgetKeepsPlan(s0, p, {n.id}, peers);
      assert p' == p.(s := p.s.(statics := p.s.statics - {n.id}));
    }
  }

  lemma {:induction false} DialStaticKeepsPlan(s0: DialState, p: Plan, order: seq<NodeID>, peers: Peers)
    requires PlanInv(s0, p, peers)
    ensures PlanInv(s0, DialStatic(p, order, peers), peers)
    ensures SameButStatics(p, DialStatic(p, order, peers))
    decreases |order|
  {
    if order != [] {
      var p' := p;
      if order[0] in p.s.statics {
        StaticStepKeepsPlan(s0, p, order[0], peers);
        p' := StaticStep(p, order[0], peers);
      }
      DialStaticKeepsPlan(s0, p', order[1..], peers);
    }
  }

  /** Dynamic dials never overdraw: a plan that made at least one of them still has a
      non-negative budget. */
  ghost predicate Paid(p: Plan, p': Plan) {
    && p'.need <= p.need
    && (p'.need == p.need ==> p'.s.dialing == p.s.dialing && p'.tasks == p.tasks)
    && (p'.need < p.need ==> p'.need >= 0)
    && p'.s.hist == p.s.hist && p'.s.lookupRunning == p.s.lookupRunning
    && (Discover in p'.tasks <==> Discover in p.tasks)
  }

  lemma DialBootnodeKeepsPlan(s0: DialState, p: Plan, peers: Peers, now: Time)
    requires PlanInv(s0, p, peers)
    ensures PlanInv(s0, DialBootnode(p, peers, now), peers)
    ensures Paid(p, DialBootnode(p, peers, now))
  {
    if WantsBootnode(p, peers, now) {
      var n := p.s.bootnodes[0];
      TryDynKeepsPlan(s0, p.(s := p.s.(bootnodes := p.s.bootnodes[1..] + [n])), peers, n);
    }
  }

  lemma {:induction false} DialAllKeepsPlan(s0: DialState, p: Plan, nodes: seq<Node>, peers: Peers)
    requires PlanInv(s0, p, peers)
    requires |nodes| <= p.need || nodes == []
    ensures PlanInv(s0, DialAll(p, nodes, peers), peers)
    ensures Paid(p, DialAll(p, nodes, peers))
    ensures DialAll(p, nodes, peers).need >= p.need - |nodes|
    decreases |nodes|
  {
    if nodes != [] {
      TryDynKeepsPlan(s0, p, peers, nodes[0]);
      DialAllKeepsPlan(s0, TryDyn(p, nodes[0], peers), nodes[1..], peers);
    }
  }

  lemma DialRandomKeepsPlan(s0: DialState, p: Plan, random: seq<Node>, peers: Peers)
    requires PlanInv(s0, p, peers)
    ensures PlanInv(s0, DialRandom(p, random, peers), peers)
    ensures Paid(p, DialRandom(p, random, peers))
  {
    if Half(p.need) > 0 {
      var k := if Half(p.need) < |random| then Half(p.need) else |random|;
      DialAllKeepsPlan(s0, p, random[..k], peers);
    }
  }

  lemma {:induction false} DialLookupKeepsPlan(s0: DialState, p: Plan, buf: seq<Node>, peers: Peers)
    requires PlanInv(s0, p, peers)
    ensures PlanInv(s0, DialLookup(p, buf, peers), peers)
    ensures Paid(p, DialLookup(p, buf, peers))
    ensures var q := DialLookup(p, buf, peers);
            |q.s.lookupBuf| <= |buf| && q.s.lookupBuf == buf[|buf| - |q.s.lookupBuf|..]
            && (q.need > 0 ==> q.s.lookupBuf == [])
    decreases |buf|
  {
    if buf != [] && p.need > 0 {
      TryDynKeepsPlan(s0, p, peers, buf[0]);
      DialLookupKeepsPlan(s0, TryDyn(p, buf[0], peers), buf[1..], peers);
    }
  }

  /** What the dynamic phase adds to a plan that has no lookup task yet. */
  lemma DynamicPhaseKeepsPlan(s0: DialState, p: Plan, peers: Peers, now: Time, random: seq<Node>)
    requires PlanInv(s0, p, peers) && Discover !in p.tasks
    ensures var q := DynamicPhase(p, peers, now, random);
            && PlanInv(s0, q, peers) && q.s.hist == p.s.hist
            && (q.need < p.need ==> q.need >= 0) && q.need <= p.need
            && (q.need == p.need ==> q.s.dialing == p.s.dialing)
            && (p.s.lookupRunning ==> q.s.lookupRunning)
            && multiset(q.tasks)[Discover] == (if q.s.lookupRunning && !p.s.lookupRunning then 1 else 0)
  {
    var p1 := DialBootnode(p, peers, now);
    DialBootnodeKeepsPlan(s0, p, peers, now);
    var p2 := DialRandom(p1, random, peers);
    DialRandomKeepsPlan(s0, p1, random, peers);
    var p3 := DialLookup(p2, p2.s.lookupBuf, peers);
    DialLookupKeepsPlan(s0, p2, p2.s.lookupBuf, peers);
    LaunchLookupKeepsPlan(s0, p3, peers);
  }

  lemma LaunchLookupKeepsPlan(s0: DialState, p: Plan, peers: Peers)
    requires PlanInv(s0, p, peers) && Discover !in p.tasks
    ensures var q := LaunchLookup(p);
            && PlanInv(s0, q, peers) && q.s.hist == p.s.hist && q.need == p.need
            && q.s.dialing == p.s.dialing
            && (p.s.lookupRunning ==> q.s.lookupRunning)
            && multiset(q.tasks)[Discover] == (if q.s.lookupRunning && !p.s.lookupRunning then 1 else 0)
            && (Discover in q.tasks <==> !p.s.lookupRunning && |p.s.lookupBuf| < p.need)
  {
    if |p.s.lookupBuf| < p.need && !p.s.lookupRunning {
      assert multiset(p.tasks + [Discover]) == multiset(p.tasks) + multiset{Discover};
      NoWaitAfterPush(p.tasks, Discover);
    }
  }

  /** What one `newTasks` call promises of the plan it computes. */
  ghost predicate GoodPlan(s: DialState, nRunning: nat, peers: Peers, now: Time, p: Plan) {
    && Consistent(p.s) && p.s.hist == Expire(s.hist, now)
    && p.s.maxDynDials == s.maxDynDials && p.s.self == s.self
    // new tasks are exactly the new dials ...
    && DialsAdded(s.dialing, p.s.dialing, p.tasks)
    // ... of nodes that are neither connected, nor dialed recently, nor this node
    && (forall id :: id in p.s.dialing && id !in s.dialing ==>
          id !in peers && id !in p.s.hist && s.self != Some(id))
    // at most one lookup is launched, and only when none runs
    && (s.lookupRunning ==> p.s.lookupRunning)
    && multiset(p.tasks)[Discover] == (if p.s.lookupRunning && !s.lookupRunning then 1 else 0)
    // a timer is launched only as the sole task of an idle server
    && (forall d :: WaitExpire(d) in p.tasks ==> p.tasks == [WaitExpire(d)] && nRunning == 0)
    // the loop keeps ticking while some node waits in the history
    && (|p.s.hist| > 0 && nRunning == 0 ==> p.tasks != [])
    // dynamic dials respect the budget
    && (DynSet(p.s.dialing) == DynSet(s.dialing)
        || |DynSet(peers)| + |DynSet(p.s.dialing)| <= s.maxDynDials)
  }

  /** The contract of one `newTasks` call, whatever order the static map is ranged in and
      whatever the discovery table answers. */
  lemma NewTasksCorrect(s: DialState, nRunning: nat, peers: Peers, now: Time,
                        order: seq<NodeID>, random: seq<Node>)
    requires Consistent(s)
    ensures GoodPlan(s, nRunning, peers, now, NewTasks(s, nRunning, peers, now, order, random))
  {
    var b := Begin(s, peers, now);
    BeginKeepsPlan(s, peers, now);
    var p := DialStatic(b, order, peers);
    DialStaticKeepsPlan(s, b, order, peers);
    var q := DynamicPhase(p, peers, now, random);
    DynamicPhaseKeepsPlan(s, p, peers, now, random);
    var r := LaunchWait(q, nRunning, now);
    if r != q {
      WaitAloneCounts(r.tasks[0].duration);
      assert multiset(q.tasks) == multiset{};
    }
  }

  lemma WaitAloneCounts(d: Time)
    ensures forall f, id :: multiset([WaitExpire(d)])[Dial(f, id)] == 0
    ensures multiset([WaitExpire(d)])[Discover] == 0
  {
  }

  // -------------------------------------- the order of the static map is irrelevant

  /** Addresses outside the whitelist, and this node itself, are never dialed. */
  predicate Allowed(s: DialState, n: Node) {
    s.self != Some(n.id) && (s.netRestrict.None? || n.ip in s.netRestrict.value)
  }

  /** A node that may be dialed: allowed, not connected and not dialed recently. */
  predicate Eligible(s: DialState, peers: Peers, n: Node) {
    Allowed(s, n) && n.id !in peers && n.id !in s.hist
  }

  lemma DialOkIff(s: DialState, n: Node, peers: Peers)
    ensures CheckDial(s, n, peers).DialOk? <==> Eligible(s, peers, n) && n.id !in s.dialing
  {
  }

  /** The static nodes that one call dials, and those it forgets, computed at once. */
  ghost function StaticDials(s: DialState, peers: Peers): set<NodeID> {
    set id | id in s.statics && id !in s.dialing && Eligible(s, peers, s.statics[id])
  }

  ghost predicate Hopeless(s: DialState, id: NodeID, peers: Peers) {
    id in s.statics && id !in s.dialing && id !in peers && !Allowed(s, s.statics[id])
  }

  ghost function StaticRejects(s: DialState, peers: Peers): set<NodeID> {
    set id | id in s.statics && Hopeless(s, id, peers)
  }

  ghost predicate Enumerates(order: seq<NodeID>, keys: set<NodeID>) {
    && (forall i, j :: 0 <= i < j < |order| ==> order[i] != order[j])
    && (forall x :: x in keys <==> x in order)
  }

  /** The state after ranging over the static map, in closed form: it does not mention the order. */
  ghost function StaticClosed(s: DialState, seen: set<NodeID>, peers: Peers): DialState {
    s.(dialing := s.dialing + (map id | id in StaticDials(s, peers) * seen :: STATIC_DIALED),
       statics := s.statics - (StaticRejects(s, peers) * seen))
  }

  lemma StaticClosedStep(s: DialState, seen: set<NodeID>, id: NodeID, peers: Peers, p: Plan)
    requires Consistent(s) && p.s == StaticClosed(s, seen, peers)
    requires id in s.statics && id !in seen
    ensures id in p.s.statics
    ensures StaticStep(p, id, peers).s == StaticClosed(s, seen + {id}, peers)
    ensures StaticStep(p, id, peers).need == p.need
  {
    var n := s.statics[id];
    assert n.id == id && p.s.statics[id] == n;
    assert CheckDial(p.s, n, peers) == CheckDial(s, n, peers);
    StaticClosedGrows(s, seen, id, peers);
  }

  lemma StaticClosedGrows(s: DialState, seen: set<NodeID>, id: NodeID, peers: Peers)
    requires Consistent(s) && id in s.statics && id !in seen
    ensures var c, c' := StaticClosed(s, seen, peers), StaticClosed(s, seen + {id}, peers);
            c' == c.(dialing := if id in StaticDials(s, peers) then c.dialing[id := STATIC_DIALED] else c.dialing,
                     statics := if id in StaticRejects(s, peers) then c.statics - {id} else c.statics)
  {
    hide StaticDials, StaticRejects;
    GrowDialing(s.dialing, StaticDials(s, peers), seen, id);
    GrowRejects(s.statics, StaticRejects(s, peers), seen, id);
  }

  lemma GrowDialing(d: map<NodeID, ConnFlags>, dials: set<NodeID>, seen: set<NodeID>, id: NodeID)
    ensures d + (map k | k in dials * (seen + {id}) :: STATIC_DIALED)
         == if id in dials then (d + (map k | k in dials * seen :: STATIC_DIALED))[id := STATIC_DIALED]
            else d + (map k | k in dials * seen :: STATIC_DIALED)
  {
    if id in dials {
      assert dials * (seen + {id}) == dials * seen + {id};
    } else {
      assert dials * (seen + {id}) == dials * seen;
    }
  }

  lemma GrowRejects(statics: map<NodeID, Node>, rejects: set<NodeID>, seen: set<NodeID>, id: NodeID)
    ensures statics - (rejects * (seen + {id}))
         == if id in rejects then statics - (rejects * seen) - {id} else statics - (rejects * seen)
  {
    if id in rejects {
      assert rejects * (seen + {id}) == rejects * seen + {id};
    } else {
      assert rejects * (seen + {id}) == rejects * seen;
    }
  }

  lemma {:induction false} DialStaticClosed(s: DialState, p: Plan, seen: set<NodeID>, order: seq<NodeID>, peers: Peers)
    requires Consistent(s) && p.s == StaticClosed(s, seen, peers)
    requires Enumerates(order, s.statics.Keys - seen)
    ensures DialStatic(p, order, peers).s == StaticClosed(s, seen + s.statics.Keys, peers)
    ensures DialStatic(p, order, peers).need == p.need
    decreases |order|
  {
    if order == [] {
      forall id | id in s.statics
        ensures id in seen
      {
        assert id in s.statics.Keys - seen ==> id in order;
      }
      assert StaticDials(s, peers) * seen == StaticDials(s, peers) * (seen + s.statics.Keys);
      assert StaticRejects(s, peers) * seen == StaticRejects(s, peers) * (seen + s.statics.Keys);
    } else {
      var id := order[0];
      assert id in order;
      StaticClosedStep(s, seen, id, peers, p);
      assert Enumerates(order[1..], s.statics.Keys - (seen + {id})) by {
        forall x
          ensures x in s.statics.Keys - (seen + {id}) <==> x in order[1..]
        {
          assert x in order <==> x == id || x in order[1..];
        }
      }
      DialStaticClosed(s, StaticStep(p, id, peers), seen + {id}, order[1..], peers);
      assert seen + {id} + s.statics.Keys == seen + s.statics.Keys;
    }
  }

  /** Two calls that range over the static map in different orders reach the same state. */
  lemma NewTasksIgnoresMapOrder(s: DialState, nRunning: nat, peers: Peers, now: Time,
                                order1: seq<NodeID>, order2: seq<NodeID>, random: seq<Node>)
    requires Consistent(s)
    requires Enumerates(order1, s.statics.Keys) && Enumerates(order2, s.statics.Keys)
    ensures NewTasks(s, nRunning, peers, now, order1, random).s
            == NewTasks(s, nRunning, peers, now, order2, random).s
  {
    var b := Begin(s, peers, now);
    DialStaticIgnoresOrder(b, order1, order2, peers);
    DynamicPhaseIgnoresTasks(DialStatic(b, order1, peers), DialStatic(b, order2, peers), peers, now, random);
  }

  lemma DialStaticIgnoresOrder(p: Plan, order1: seq<NodeID>, order2: seq<NodeID>, peers: Peers)
    requires Consistent(p.s)
    requires Enumerates(order1, p.s.statics.Keys) && Enumerates(order2, p.s.statics.Keys)
    ensures DialStatic(p, order1, peers).s == DialStatic(p, order2, peers).s
    ensures DialStatic(p, order1, peers).need == DialStatic(p, order2, peers).need
  {
    StaticClosedStart(p.s, peers);
    assert p.s.statics.Keys - {} == p.s.statics.Keys;
    DialStaticClosed(p.s, p, {}, order1, peers);
    DialStaticClosed(p.s, p, {}, order2, peers);
  }

  lemma StaticClosedStart(s: DialState, peers: Peers)
    ensures StaticClosed(s, {}, peers) == s
  {
    assert StaticDials(s, peers) * {} == {} && StaticRejects(s, peers) * {} == {};
    var none: map<NodeID, ConnFlags> := map id | id in StaticDials(s, peers) * {} :: STATIC_DIALED;
    assert none == map[];
    assert s.dialing + none == s.dialing;
    assert s.statics - {} == s.statics;
  }

  lemma {:induction false} DialAllIgnoresTasks(p1: Plan, p2: Plan, nodes: seq<Node>, peers: Peers)
    requires p1.s == p2.s && p1.need == p2.need
    ensures DialAll(p1, nodes, peers).s == DialAll(p2, nodes, peers).s
    ensures DialAll(p1, nodes, peers).need == DialAll(p2, nodes, peers).need
    decreases |nodes|
  {
    if nodes != [] {
      DialAllIgnoresTasks(TryDyn(p1, nodes[0], peers), TryDyn(p2, nodes[0], peers), nodes[1..], peers);
    }
  }

  lemma {:induction false} DialLookupIgnoresTasks(p1: Plan, p2: Plan, buf: seq<Node>, peers: Peers)
    requires p1.s == p2.s && p1.need == p2.need
    ensures DialLookup(p1, buf, peers).s == DialLookup(p2, buf, peers).s
    ensures DialLookup(p1, buf, peers).need == DialLookup(p2, buf, peers).need
    decreases |buf|
  {
    if buf != [] && p1.need > 0 {
      DialLookupIgnoresTasks(TryDyn(p1, buf[0], peers), TryDyn(p2, buf[0], peers), buf[1..], peers);
    }
  }

  lemma DynamicPhaseIgnoresTasks(p1: Plan, p2: Plan, peers: Peers, now: Time, random: seq<Node>)
    requires p1.s == p2.s && p1.need == p2.need
    ensures DynamicPhase(p1, peers, now, random).s == DynamicPhase(p2, peers, now, random).s
    ensures DynamicPhase(p1, peers, now, random).need == DynamicPhase(p2, peers, now, random).need
  {
    var q1, q2 := DialBootnode(p1, peers, now), DialBootnode(p2, peers, now);
    if Half(q1.need) > 0 {
      var k := if Half(q1.need) < |random| then Half(q1.need) else |random|;
      DialAllIgnoresTasks(q1, q2, random[..k], peers);
    }
    var r1, r2 := DialRandom(q1, random, peers), DialRandom(q2, random, peers);
    DialLookupIgnoresTasks(r1, r2, r1.s.lookupBuf, peers);
  }

  // ------------------------------------------------------ who is dialed dynamically

  /** Every candidate is being dialed afterwards unless it may not be, and whoever is newly dialed is
      such a candidate, under the flag of dynamic dials. */
  ghost predicate Dialed(s: DialState, peers: Peers, nodes: seq<Node>, d0: map<NodeID, ConnFlags>,
                         d1: map<NodeID, ConnFlags>) {
    && (forall id :: id in d0 ==> id in d1 && d1[id] == d0[id])
    && (forall i :: 0 <= i < |nodes| ==> nodes[i].id in d1 || !Eligible(s, peers, nodes[i]))
    && (forall id :: id in d1 && id !in d0 ==> d1[id] == DYN_DIALED && Candidate(s, peers, nodes, id))
  }

  ghost predicate Candidate(s: DialState, peers: Peers, nodes: seq<Node>, id: NodeID) {
    exists i :: 0 <= i < |nodes| && nodes[i].id == id && Eligible(s, peers, nodes[i])
  }

  /** What decides about eligibility does not change. */
  ghost predicate SameRules(s: DialState, s': DialState) {
    s'.self == s.self && s'.netRestrict == s.netRestrict && s'.hist == s.hist && s'.maxDynDials == s.maxDynDials
    && s'.start == s.start
  }

  lemma DialedNone(s: DialState, peers: Peers, d: map<NodeID, ConnFlags>)
    ensures Dialed(s, peers, [], d, d)
  {
  }

  lemma DialedJoin(s: DialState, peers: Peers, a: seq<Node>, b: seq<Node>, d0: map<NodeID, ConnFlags>,
                   d1: map<NodeID, ConnFlags>, d2: map<NodeID, ConnFlags>)
    requires Dialed(s, peers, a, d0, d1) && Dialed(s, peers, b, d1, d2)
    ensures Dialed(s, peers, a + b, d0, d2)
  {
    var all := a + b;
    forall id | id in d2 && id !in d0
      ensures d2[id] == DYN_DIALED && Candidate(s, peers, all, id)
    {
      if id in d1 {
        var i :| 0 <= i < |a| && a[i].id == id && Eligible(s, peers, a[i]);
        assert all[i] == a[i];
      } else {
        var i :| 0 <= i < |b| && b[i].id == id && Eligible(s, peers, b[i]);
        assert all[|a| + i] == b[i];
      }
    }
    forall i | 0 <= i < |all|
      ensures all[i].id in d2 || !Eligible(s, peers, all[i])
    {
      assert i >= |a| ==> all[i] == b[i - |a|];
    }
  }

  /** The budget goes down by one for each new dial. */
  ghost predicate Spent(p: Plan, q: Plan) {
    q.need == p.need - (|q.s.dialing| - |p.s.dialing|)
  }

  lemma TryDynDials(p: Plan, n: Node, peers: Peers)
    ensures var q := TryDyn(p, n, peers);
            && Dialed(p.s, peers, [n], p.s.dialing, q.s.dialing)
            && SameRules(p.s, q.s) && q.s.statics == p.s.statics && Spent(p, q)
            && q.s.bootnodes == p.s.bootnodes && q.s.lookupBuf == p.s.lookupBuf
            && (q.need == p.need <==> n.id in p.s.dialing || !Eligible(p.s, peers, n))
            && p.need - 1 <= q.need <= p.need
  {
    hide Dialed, Eligible, CheckDial;
    DialOkIff(p.s, n, peers);
    DialedOne(p.s, peers, n, p.s.dialing);
    OneMoreDial(p.s.dialing, n.id, DYN_DIALED);
  }

  lemma OneMoreDial(d: map<NodeID, ConnFlags>, id: NodeID, flags: ConnFlags)
    ensures id !in d ==> |d[id := flags]| == |d| + 1
  {
    assert d[id := flags].Keys == d.Keys + {id};
  }

  lemma DialedOne(s: DialState, peers: Peers, n: Node, d: map<NodeID, ConnFlags>)
    ensures Dialed(s, peers, [n], d, if n.id !in d && Eligible(s, peers, n) then d[n.id := DYN_DIALED] else d)
  {
    hide Eligible;
    if Eligible(s, peers, n) {
      assert [n][0] == n;
      assert Candidate(s, peers, [n], n.id);
    }
  }

  lemma SameRulesDialed(s: DialState, s': DialState, peers: Peers, nodes: seq<Node>, d0: map<NodeID, ConnFlags>,
                        d1: map<NodeID, ConnFlags>)
    requires SameRules(s, s') && Dialed(s', peers, nodes, d0, d1)
    ensures Dialed(s, peers, nodes, d0, d1)
  {
    forall id | id in d1 && id !in d0
      ensures Candidate(s, peers, nodes, id)
    {
      var i :| 0 <= i < |nodes| && nodes[i].id == id && Eligible(s', peers, nodes[i]);
      assert Eligible(s, peers, nodes[i]);
    }
  }

  /** The bootnode that a call tries: the first one, when there are no peers, dynamic dials are needed
      and more than 20 seconds have passed. */
  function Bootnodes(p: Plan, peers: Peers, now: Time): seq<Node> {
    if |peers| == 0 && |p.s.bootnodes| > 0 && p.need > 0 && p.s.start.Some? && now - p.s.start.value > 20 * SECOND
    then [p.s.bootnodes[0]] else []
  }

  /** The fallback tries that bootnode and puts it behind the others. */
  lemma DialBootnodeDials(p: Plan, peers: Peers, now: Time)
    ensures var q, nodes := DialBootnode(p, peers, now), Bootnodes(p, peers, now);
            && Dialed(p.s, peers, nodes, p.s.dialing, q.s.dialing)
            && SameRules(p.s, q.s) && q.s.statics == p.s.statics && Spent(p, q)
            && q.s.lookupBuf == p.s.lookupBuf
            && q.s.bootnodes == (if nodes == [] then p.s.bootnodes else p.s.bootnodes[1..] + nodes)
            && q.need == p.need - (if nodes != [] && nodes[0].id !in p.s.dialing && Eligible(p.s, peers, nodes[0])
                                   then 1 else 0)
  {
    DialedNone(p.s, peers, p.s.dialing);
    if Bootnodes(p, peers, now) != [] {
      var n := p.s.bootnodes[0];
      var p1 := p.(s := p.s.(bootnodes := p.s.bootnodes[1..] + [n]));
      TryDynDials(p1, n, peers);
      SameRulesDialed(p.s, p1.s, peers, [n], p.s.dialing, DialBootnode(p, peers, now).s.dialing);
    }
  }

  lemma {:induction false} DialAllDials(p: Plan, nodes: seq<Node>, peers: Peers)
    ensures var q := DialAll(p, nodes, peers);
            && Dialed(p.s, peers, nodes, p.s.dialing, q.s.dialing)
            && SameRules(p.s, q.s) && q.s.statics == p.s.statics && Spent(p, q)
            && q.s.bootnodes == p.s.bootnodes && q.s.lookupBuf == p.s.lookupBuf
    decreases |nodes|
  {
    hide Dialed;
    if nodes == [] {
      DialedNone(p.s, peers, p.s.dialing);
    } else {
      var p1 := TryDyn(p, nodes[0], peers);
      TryDynDials(p, nodes[0], peers);
      DialAllDials(p1, nodes[1..], peers);
      var d := DialAll(p1, nodes[1..], peers).s.dialing;
      SameRulesDialed(p.s, p1.s, peers, nodes[1..], p1.s.dialing, d);
      DialedJoin(p.s, peers, [nodes[0]], nodes[1..], p.s.dialing, p1.s.dialing, d);
      assert [nodes[0]] + nodes[1..] == nodes;
    }
  }

  /** The random nodes that a call tries: as many as half the dials needed, or all there are. */
  function Randoms(need: int, random: seq<Node>): seq<Node> {
    if need < 2 then [] else random[..if need / 2 < |random| then need / 2 else |random|]
  }

  lemma DialRandomDials(p: Plan, random: seq<Node>, peers: Peers)
    ensures var q := DialRandom(p, random, peers);
            && Dialed(p.s, peers, Randoms(p.need, random), p.s.dialing, q.s.dialing)
           
            && SameRules(p.s, q.s) && q.s.statics == p.s.statics && Spent(p, q)
            && q.s.bootnodes == p.s.bootnodes && q.s.lookupBuf == p.s.lookupBuf
  {
    DialedNone(p.s, peers, p.s.dialing);
    DialAllDials(p, Randoms(p.need, random), peers);
    assert Half(p.need) > 0 <==> p.need >= 2;
    assert p.need >= 0 ==> Half(p.need) == p.need / 2;
  }

  /** What `q` took from the front of the buffer. */
  function Consumed(buf: seq<Node>, rest: seq<Node>): seq<Node>
    requires |rest| <= |buf|
  {
    buf[..|buf| - |rest|]
  }

  /** The lookup results that are tried are a prefix of the buffer, and the rest stays. */
  lemma {:induction false} DialLookupDials(p: Plan, buf: seq<Node>, peers: Peers)
    ensures var q := DialLookup(p, buf, peers);
            && |q.s.lookupBuf| <= |buf| && buf == Consumed(buf, q.s.lookupBuf) + q.s.lookupBuf
            && Dialed(p.s, peers, Consumed(buf, q.s.lookupBuf), p.s.dialing, q.s.dialing)
            && SameRules(p.s, q.s) && q.s.statics == p.s.statics && Spent(p, q) && q.s.bootnodes == p.s.bootnodes
    decreases |buf|
  {
    hide Dialed, Eligible, TryDyn, Consumed;
    var q := DialLookup(p, buf, peers);
    if buf == [] || p.need <= 0 {
      DialedNone(p.s, peers, p.s.dialing);
      ConsumedNone(buf);
    } else {
      var p1 := TryDyn(p, buf[0], peers);
      TryDynDials(p, buf[0], peers);
      DialLookupDials(p1, buf[1..], peers);
      var more := Consumed(buf[1..], q.s.lookupBuf);
      SameRulesDialed(p.s, p1.s, peers, more, p1.s.dialing, q.s.dialing);
      DialedJoin(p.s, peers, [buf[0]], more, p.s.dialing, p1.s.dialing, q.s.dialing);
      ConsumedMore(buf, q.s.lookupBuf);
    }
  }

  lemma ConsumedNone(buf: seq<Node>)
    ensures Consumed(buf, buf) == [] && buf == Consumed(buf, buf) + buf
  {
  }

  lemma ConsumedMore(buf: seq<Node>, rest: seq<Node>)
    requires |rest| < |buf|
    ensures Consumed(buf, rest) == [buf[0]] + Consumed(buf[1..], rest)
    ensures buf[1..] == Consumed(buf[1..], rest) + rest ==> buf == Consumed(buf, rest) + rest
  {
    assert buf == [buf[0]] + buf[1..];
  }

  /** The whole buffer is tried if dials are still needed afterwards, nothing if none was needed before,
      and otherwise the last node tried is the one whose dial met the need. */
  lemma {:induction false} DialLookupStops(p: Plan, buf: seq<Node>, peers: Peers)
    ensures var q := DialLookup(p, buf, peers);
            && |q.s.lookupBuf| <= |buf|
            && var nodes := Consumed(buf, q.s.lookupBuf);
            && (q.need > 0 ==> q.s.lookupBuf == [])
            && (p.need <= 0 ==> nodes == []) && (nodes == [] ==> q.need == p.need)
            && (nodes != [] && q.need <= 0 ==>
                  && q.need == 0 && nodes[|nodes| - 1].id !in p.s.dialing
                  && Eligible(p.s, peers, nodes[|nodes| - 1]))
    decreases |buf|
  {
    hide Dialed;
    var q := DialLookup(p, buf, peers);
    if buf != [] && p.need > 0 {
      var p1 := TryDyn(p, buf[0], peers);
      TryDynDials(p, buf[0], peers);
      DialLookupStops(p1, buf[1..], peers);
      var more := Consumed(buf[1..], q.s.lookupBuf);
      assert Consumed(buf, q.s.lookupBuf) == [buf[0]] + more;
      KeptIds(p.s, peers, [buf[0]], p.s.dialing, p1.s.dialing);
      if more != [] {
        assert Eligible(p1.s, peers, more[|more| - 1]) ==> Eligible(p.s, peers, more[|more| - 1]);
      }
    }
  }

  lemma KeptIds(s: DialState, peers: Peers, nodes: seq<Node>, d0: map<NodeID, ConnFlags>, d1: map<NodeID, ConnFlags>)
    requires Dialed(s, peers, nodes, d0, d1)
    ensures forall id :: id in d0 ==> id in d1
  {
  }

  // ------------------------------------------------------------ the whole call

  /** How many dynamic dials are needed with these peers and dials under way. */
  ghost function Budget(s: DialState, peers: Peers, dialing: map<NodeID, ConnFlags>): int {
    s.maxDynDials - |DynSet(peers)| - |DynSet(dialing)|
  }

  /** The state in which the rules of a call are read: the entries of the history whose time has not
      come remain, and the first call sets the start. */
  ghost predicate Opened(s: DialState, now: Time, e: DialState) {
    && (forall id :: id in e.hist <==> id in s.hist && s.hist[id] >= now)
    && (forall id :: id in e.hist ==> e.hist[id] == s.hist[id])
    && e == s.(hist := e.hist, start := Some(if s.start.Some? then s.start.value else now))
  }

  /** The static nodes that are dialed: all that may be and are not being dialed yet. */
  ghost predicate StaticsDialed(e: DialState, peers: Peers, d1: map<NodeID, ConnFlags>) {
    && (forall id :: id in d1 <==>
          id in e.dialing || (id in e.statics && Eligible(e, peers, e.statics[id])))
    && (forall id :: id in d1 ==> d1[id] == if id in e.dialing then e.dialing[id] else STATIC_DIALED)
  }

  /** The static nodes that stay: all but those that were looked at and are not allowed. */
  ghost predicate StaticsKept(e: DialState, peers: Peers, statics: map<NodeID, Node>) {
    && (forall id :: id in statics <==>
          id in e.statics && (id in e.dialing || id in peers || Allowed(e, e.statics[id])))
    && (forall id :: id in statics ==> statics[id] == e.statics[id])
  }

  /** Everything a call tries, in the order in which it does. */
  ghost function Candidates(e: DialState, d1: map<NodeID, ConnFlags>, peers: Peers, now: Time, random: seq<Node>,
                            rest: seq<Node>): seq<Node>
    requires |rest| <= |e.lookupBuf| && e.start.Some?
  {
    var p := Plan(e.(dialing := d1), [], Budget(e, peers, d1));
    var boots := Bootnodes(p, peers, now);
    var need := p.need - if boots != [] && boots[0].id !in d1 && Eligible(e, peers, boots[0]) then 1 else 0;
    boots + Randoms(need, random) + Consumed(e.lookupBuf, rest)
  }

  /** What a call does, said in terms of the state before and the state after it. */
  ghost predicate CallEffect(s: DialState, e: DialState, d1: map<NodeID, ConnFlags>, peers: Peers, now: Time,
                             random: seq<Node>, p: Plan) {
    && Opened(s, now, e) && StaticsDialed(e, peers, d1) && StaticsKept(e, peers, p.s.statics)
    && p.s.hist == e.hist && p.s.start == e.start
    && p.s.self == s.self && p.s.netRestrict == s.netRestrict && p.s.maxDynDials == s.maxDynDials
    && |p.s.lookupBuf| <= |s.lookupBuf| && p.s.lookupBuf == s.lookupBuf[|s.lookupBuf| - |p.s.lookupBuf|..]
    && Dialed(e, peers, Candidates(e, d1, peers, now, random, p.s.lookupBuf), d1, p.s.dialing)
    && (p.s.lookupBuf != [] ==> Budget(s, peers, p.s.dialing) <= 0)
    && (p.s.lookupRunning <==> s.lookupRunning || |p.s.lookupBuf| < Budget(s, peers, p.s.dialing))
    && (Discover in p.tasks <==> !s.lookupRunning && p.s.lookupRunning)
    && (forall d :: WaitExpire(d) in p.tasks ==> IsMinExp(p.s.hist, now + d))
  }

  lemma BeginOpens(s: DialState, peers: Peers, now: Time)
    ensures var b := Begin(s, peers, now);
            Opened(s, now, b.s) && b.tasks == [] && b.need == Budget(b.s, peers, b.s.dialing)
  {
  }

  lemma StaticClosedMeans(e: DialState, peers: Peers)
    requires Consistent(e)
    ensures var c := StaticClosed(e, {} + e.statics.Keys, peers);
            && StaticsDialed(e, peers, c.dialing) && StaticsKept(e, peers, c.statics)
            && c == e.(dialing := c.dialing, statics := c.statics)
            && DynSet(c.dialing) == DynSet(e.dialing)
  {
    var all := {} + e.statics.Keys;
    var dials, rejects := StaticDials(e, peers) * all, StaticRejects(e, peers) * all;
    assert dials == StaticDials(e, peers) && rejects == StaticRejects(e, peers);
    var c := StaticClosed(e, all, peers);
    assert forall id :: id in c.dialing ==> id in e.dialing || c.dialing[id] == STATIC_DIALED;
    assert forall id :: id in e.dialing ==> id !in dials && c.dialing[id] == e.dialing[id];
  }

  lemma LaunchLookupEffect(p: Plan)
    ensures var q := LaunchLookup(p);
            && q.s == p.s.(lookupRunning := q.s.lookupRunning) && q.need == p.need
            && (q.s.lookupRunning <==> p.s.lookupRunning || |p.s.lookupBuf| < p.need)
            && (Discover in q.tasks <==> Discover in p.tasks || (!p.s.lookupRunning && q.s.lookupRunning))
  {
  }

  lemma LaunchWaitEffect(p: Plan, nRunning: int, now: Time)
    requires forall d :: WaitExpire(d) !in p.tasks
    ensures var q := LaunchWait(p, nRunning, now);
            && q.s == p.s && q.need == p.need && (Discover in q.tasks <==> Discover in p.tasks)
            && (forall d :: WaitExpire(d) in q.tasks ==> IsMinExp(p.s.hist, now + d))
  {
    if nRunning == 0 && p.tasks == [] && |p.s.hist| > 0 {
      MinExpExists(p.s.hist);
      assert now + (MinExp(p.s.hist) - now) == MinExp(p.s.hist);
    }
  }

  /** The three sources of dynamic dials together. */
  lemma DynamicPhaseDials(p: Plan, peers: Peers, now: Time, random: seq<Node>)
    ensures var q := DynamicPhase(p, peers, now, random);
            && |q.s.lookupBuf| <= |p.s.lookupBuf|
            && p.s.lookupBuf == Consumed(p.s.lookupBuf, q.s.lookupBuf) + q.s.lookupBuf
            && SameRules(p.s, q.s) && q.s.statics == p.s.statics
            && (q.need > 0 ==> q.s.lookupBuf == [])
            && (q.s.lookupRunning <==> p.s.lookupRunning || |q.s.lookupBuf| < q.need)
            && var boots := Bootnodes(p, peers, now);
               var need := p.need - if boots != [] && boots[0].id !in p.s.dialing && Eligible(p.s, peers, boots[0])
                                    then 1 else 0;
            Dialed(p.s, peers, boots + Randoms(need, random) + Consumed(p.s.lookupBuf, q.s.lookupBuf),
                   p.s.dialing, q.s.dialing)
  {
    hide Dialed, Eligible;
    var boots := Bootnodes(p, peers, now);
    var p1 := DialBootnode(p, peers, now);
    DialBootnodeDials(p, peers, now);
    var p2 := DialRandom(p1, random, peers);
    DialRandomDials(p1, random, peers);
    var p3 := DialLookup(p2, p2.s.lookupBuf, peers);
    DialLookupDials(p2, p2.s.lookupBuf, peers);
    DialLookupStops(p2, p2.s.lookupBuf, peers);
    LookupKeepsRunning(p, peers, now, random);
    LaunchLookupEffect(p3);
    var rand, consumed := Randoms(p1.need, random), Consumed(p.s.lookupBuf, p3.s.lookupBuf);
    SameRulesDialed(p.s, p1.s, peers, rand, p1.s.dialing, p2.s.dialing);
    DialedJoin(p.s, peers, boots, rand, p.s.dialing, p1.s.dialing, p2.s.dialing);
    SameRulesDialed(p.s, p2.s, peers, consumed, p2.s.dialing, p3.s.dialing);
    DialedJoin(p.s, peers, boots + rand, consumed, p.s.dialing, p2.s.dialing, p3.s.dialing);
  }

  lemma {:induction false} DialAllKeepsRunning(p: Plan, nodes: seq<Node>, peers: Peers)
    ensures DialAll(p, nodes, peers).s.lookupRunning == p.s.lookupRunning
    decreases |nodes|
  {
    if nodes != [] {
      DialAllKeepsRunning(TryDyn(p, nodes[0], peers), nodes[1..], peers);
    }
  }

  lemma {:induction false} DialLookupKeepsRunning(p: Plan, buf: seq<Node>, peers: Peers)
    ensures DialLookup(p, buf, peers).s.lookupRunning == p.s.lookupRunning
    decreases |buf|
  {
    if buf != [] && p.need > 0 {
      DialLookupKeepsRunning(TryDyn(p, buf[0], peers), buf[1..], peers);
    }
  }

  lemma LookupKeepsRunning(p: Plan, peers: Peers, now: Time, random: seq<Node>)
    ensures var p2 := DialRandom(DialBootnode(p, peers, now), random, peers);
            DialLookup(p2, p2.s.lookupBuf, peers).s.lookupRunning == p.s.lookupRunning
  {
    var p1 := DialBootnode(p, peers, now);
    if Half(p1.need) > 0 {
      DialAllKeepsRunning(p1, random[..if Half(p1.need) < |random| then Half(p1.need) else |random|], peers);
    }
    var p2 := DialRandom(p1, random, peers);
    DialLookupKeepsRunning(p2, p2.s.lookupBuf, peers);
  }

  /** A plan after the static nodes. */
  ghost predicate AfterStatics(s: DialState, e: DialState, peers: Peers, now: Time, p: Plan) {
    && Opened(s, now, e) && StaticsDialed(e, peers, p.s.dialing) && StaticsKept(e, peers, p.s.statics)
    && p.s == e.(dialing := p.s.dialing, statics := p.s.statics)
    && PlanInv(s, p, peers) && Discover !in p.tasks
  }

  lemma StaticPhaseEffect(s: DialState, peers: Peers, now: Time, order: seq<NodeID>)
    requires Consistent(s) && Enumerates(order, s.statics.Keys)
    ensures var b := Begin(s, peers, now);
            AfterStatics(s, b.s, peers, now, DialStatic(b, order, peers))
  {
    hide Eligible, StaticClosed, DynSet, Allowed, StaticsDialed, StaticsKept, DialStatic, PlanInv, Opened;
    var b := Begin(s, peers, now);
    BeginOpens(s, peers, now);
    BeginKeepsPlan(s, peers, now);
    PlanParts(s, b, peers);
    StaticClosedStart(b.s, peers);
    assert b.s.statics.Keys - {} == b.s.statics.Keys;
    DialStaticClosed(b.s, b, {}, order, peers);
    DialStaticKeepsPlan(s, b, order, peers);
    StaticClosedMeans(b.s, peers);
  }

  lemma DynamicEffect(s: DialState, e: DialState, p: Plan, nRunning: nat, peers: Peers, now: Time, random: seq<Node>)
    requires AfterStatics(s, e, peers, now, p)
    ensures CallEffect(s, e, p.s.dialing, peers, now, random,
                       LaunchWait(DynamicPhase(p, peers, now, random), nRunning, now))
  {
    hide Dialed, Eligible, DynSet, Allowed, StaticsDialed, StaticsKept, DynamicPhase, LaunchWait, IsMinExp, PlanInv;
    var q := DynamicPhase(p, peers, now, random);
    PlanParts(s, p, peers);
    DynamicPhaseDials(p, peers, now, random);
    DynamicPhaseKeepsPlan(s, p, peers, now, random);
    PlanParts(s, q, peers);
    LaunchWaitEffect(q, nRunning, now);
    SameCandidates(e, p, peers, now, random, q.s.lookupBuf);
    SameRulesDialed(e, p.s, peers, Candidates(e, p.s.dialing, peers, now, random, q.s.lookupBuf),
                    p.s.dialing, q.s.dialing);
  }

  lemma SameCandidates(e: DialState, p: Plan, peers: Peers, now: Time, random: seq<Node>, rest: seq<Node>)
    requires p.s == e.(dialing := p.s.dialing, statics := p.s.statics) && p.need == Budget(p.s, peers, p.s.dialing)
    requires |rest| <= |e.lookupBuf| && e.start.Some?
    ensures var boots := Bootnodes(p, peers, now);
            var need := p.need - if boots != [] && boots[0].id !in p.s.dialing && Eligible(p.s, peers, boots[0])
                                 then 1 else 0;
            Candidates(e, p.s.dialing, peers, now, random, rest)
            == boots + Randoms(need, random) + Consumed(p.s.lookupBuf, rest)
  {
  }

  /** What one `newTasks` call does, whatever order the static map is ranged in: exactly the static nodes
      that may be dialed are, those that are not allowed are dropped, and the bootnode, the random
      nodes and the lookup results it tries are all dialed unless they may not be; nobody else is. */
  lemma NewTasksEffect(s: DialState, nRunning: nat, peers: Peers, now: Time, order: seq<NodeID>, random: seq<Node>)
    returns (e: DialState, d1: map<NodeID, ConnFlags>)
    requires Consistent(s) && Enumerates(order, s.statics.Keys)
    ensures CallEffect(s, e, d1, peers, now, random, NewTasks(s, nRunning, peers, now, order, random))
  {
    hide AfterStatics, CallEffect, DialStatic, Begin, DynamicPhase, LaunchWait;
    StaticPhaseEffect(s, peers, now, order);
    var b := Begin(s, peers, now);
    e, d1 := b.s, DialStatic(b, order, peers).s.dialing;
    DynamicEffect(s, b.s, DialStatic(b, order, peers), nRunning, peers, now, random);
  }

  /** What a lookup finds is dialed by the next call, may not be dialed, or waits in the buffer. */
  lemma LookupResultsAreTried(s: DialState, results: seq<Node>, nRunning: nat, peers: Peers, now: Time,
                              order: seq<NodeID>, random: seq<Node>, n: Node)
    requires Consistent(s) && Enumerates(order, s.statics.Keys) && n in s.lookupBuf + results
    ensures var s1 := TaskDone(s, Discover, results, now);
            var p := NewTasks(s1, nRunning, peers, now, order, random);
            !s1.lookupRunning && (n in p.s.lookupBuf || n.id in p.s.dialing || !Eligible(p.s, peers, n))
  {
    hide NewTasks, StaticsDialed, StaticsKept, IsMinExp, Dialed, DynSet, Candidates, Eligible;
    var s1 := TaskDone(s, Discover, results, now);
    var p := NewTasks(s1, nRunning, peers, now, order, random);
    var e, d1 := NewTasksEffect(s1, nRunning, peers, now, order, random);
    var i :| 0 <= i < |s1.lookupBuf| && s1.lookupBuf[i] == n;
    var k := |s1.lookupBuf| - |p.s.lookupBuf|;
    if i < k {
      SomeCandidate(s1, e, d1, peers, now, random, p, i);
    } else {
      assert p.s.lookupBuf[i - k] == n;
    }
  }

  lemma SomeCandidate(s: DialState, e: DialState, d1: map<NodeID, ConnFlags>, peers: Peers, now: Time,
                      random: seq<Node>, p: Plan, i: nat)
    requires CallEffect(s, e, d1, peers, now, random, p) && i < |s.lookupBuf| - |p.s.lookupBuf|
    ensures s.lookupBuf[i].id in p.s.dialing || !Eligible(p.s, peers, s.lookupBuf[i])
  {
    hide StaticsDialed, StaticsKept, IsMinExp, Randoms, Bootnodes;
    var all := Candidates(e, d1, peers, now, random, p.s.lookupBuf);
    var last := Consumed(e.lookupBuf, p.s.lookupBuf);
    assert all[|all| - |last| + i] == last[i] == s.lookupBuf[i];
  }

  lemma PlanParts(s0: DialState, p: Plan, peers: Peers)
    requires PlanInv(s0, p, peers)
    ensures Consistent(p.s) && p.need == Budget(p.s, peers, p.s.dialing)
    ensures forall d :: WaitExpire(d) !in p.tasks
  {
  }

  /** A node whose dial completed at time `t` counts as recently dialed in exactly the calls of the next 30
      seconds, and is no longer being dialed. */
  lemma RecentlyDialedIff(s: DialState, flags: ConnFlags, id: NodeID, results: seq<Node>, t: Time, nRunning: nat,
                          peers: Peers, now: Time, order: seq<NodeID>, random: seq<Node>)
    requires Consistent(s) && Enumerates(order, s.statics.Keys)
    ensures var s1 := TaskDone(s, Dial(flags, id), results, t);
            && id !in s1.dialing
            && (forall k :: k in s.dialing && k != id ==> k in s1.dialing && s1.dialing[k] == s.dialing[k])
            && (id in NewTasks(s1, nRunning, peers, now, order, random).s.hist <==> now <= t + 30 * SECOND)
  {
    hide NewTasks, StaticsDialed, StaticsKept, IsMinExp, Dialed, DynSet, Candidates;
    var s1 := TaskDone(s, Dial(flags, id), results, t);
    assert Consistent(s1);
    var e, d1 := NewTasksEffect(s1, nRunning, peers, now, order, random);
  }

  /** Removing and adding a static node makes the next call dial it at once, however recently it was dialed,
      unless it is connected or not allowed. */
  lemma ReaddedIsDialed(s: DialState, n: Node, nRunning: nat, peers: Peers, now: Time, order: seq<NodeID>,
                        random: seq<Node>)
    requires Consistent(s) && Enumerates(order, s.statics.Keys + {n.id})
    ensures var s1 := AddStatic(RemoveStatic(s, n), n);
            var p := NewTasks(s1, nRunning, peers, now, order, random);
            && (forall id :: id in s1.statics <==> id in s.statics || id == n.id)
            && (forall id :: id in s1.hist <==> id in s.hist && id != n.id)
            && (n.id in p.s.dialing || n.id in peers || !Allowed(s, n))
  {
    hide NewTasks, StaticsKept, IsMinExp, Candidates, DynSet;
    var s1 := AddStatic(RemoveStatic(s, n), n);
    assert s1.statics.Keys == s.statics.Keys + {n.id};
    assert Consistent(s1);
    var e, d1 := NewTasksEffect(s1, nRunning, peers, now, order, random);
  }

  /** A removed static node is neither in the static list nor in the history, and everything else stays. */
  lemma RemoveStaticEffect(s: DialState, n: Node)
    ensures var s1 := RemoveStatic(s, n);
            && (forall id :: id in s1.statics <==> id in s.statics && id != n.id)
            && (forall id :: id in s1.statics ==> s1.statics[id] == s.statics[id])
            && (forall id :: id in s1.hist <==> id in s.hist && id != n.id)
            && (forall id :: id in s1.hist ==> s1.hist[id] == s.hist[id])
            && s1 == s.(statics := s1.statics, hist := s1.hist)
  {
  }
}
