/** The event loop of the peer-to-peer server as a state machine: dial tasks, peer
    admission and the history of recent dials, over every run. */
module ServerLoop {
  import opened Common
  import opened Dialer

  const MAX_ACTIVE_DIAL_TASKS: nat := 16
  const DEFAULT_DIAL_RATIO: int := 3

  // ------------------------------------------------------------- configuration

  datatype Config = Config(maxPeers: int, dialRatio: int, noDiscovery: bool, noDial: bool,
                           hasProtocols: bool, selfId: NodeID)

  /** What the configuration's documentation asks for. */
  predicate ValidConfig(c: Config) { c.maxPeers > 0 && c.dialRatio >= 0 }

  function MaxDialedConns(c: Config): (n: int)
    ensures ValidConfig(c) ==> 0 <= n <= c.maxPeers
    ensures c.noDiscovery || c.noDial ==> n == 0
  {
    if c.noDiscovery || c.noDial then 0
    else
      var r := DialRatio(c);
      if ValidConfig(c) then DivBound(c.maxPeers, r); GoDiv(c.maxPeers, r) else GoDiv(c.maxPeers, r)
  }

  lemma DivBound(a: nat, b: int)
    requires b >= 1
    ensures 0 <= GoDiv(a, b) <= a
  {
    assert a / b * b <= a;
    assert a / b <= a / b * b;
  }

  /** The dial ratio in use. */
  function DialRatio(c: Config): int {
    if c.dialRatio == 0 then DEFAULT_DIAL_RATIO else c.dialRatio
  }

  /** Of `maxPeers` slots, one in `dialRatio` is for dialed connections: the largest number of
      them for which the ratio is kept. The rest is for inbound ones. */
  lemma DialShare(c: Config)
    requires ValidConfig(c) && !c.noDiscovery && !c.noDial
    ensures var n, r := MaxDialedConns(c), DialRatio(c);
            Times(n, r) <= c.maxPeers < Times(n + 1, r) && MaxInboundConns(c) + n == c.maxPeers
  {
    var r := DialRatio(c);
    assert c.maxPeers == c.maxPeers / r * r + c.maxPeers % r;
    assert (c.maxPeers / r + 1) * r == c.maxPeers / r * r + r;
  }

  function MaxInboundConns(c: Config): int { c.maxPeers - MaxDialedConns(c) }

  // ------------------------------------------------------------------ the state

  /** A connection during its handshakes.  `token` tells connections apart, `matching` counts
      the subprotocols shared with the remote side. */
  datatype Conn = Conn(token: nat, id: NodeID, flags: ConnFlags, matching: nat)

  /** A `runPeer` goroutine: it will report its peer on `delpeer` exactly once. */
  datatype Runner = Runner(id: NodeID, inbound: bool)

  datatype ServerState = ServerState(
    cfg: Config,
    dial: DialState,
    peers: Peers,
    inboundCount: int,
    trusted: set<NodeID>,
    running: seq<Task>,
    queued: seq<Task>,
    done: multiset<Task>,             // finished tasks waiting in the taskdone channel
    handshaking: set<Conn>,           // connections between the two checkpoints
    runners: multiset<Runner>,
    admitted: map<NodeID, ConnFlags>, // history: the flags each peer had when it was admitted
    clock: Time,
    cooldown: map<NodeID, Time>)      // history: last completed dial, unless forgotten by RemoveStatic

  datatype Verdict = Admit | DiscTooManyPeers | DiscAlreadyConnected | DiscSelf | DiscUselessPeer

  function EncHandshakeChecks(s: ServerState, c: Conn): Verdict {
    if !(c.flags.trusted || c.flags.staticDialed) && |s.peers| >= s.cfg.maxPeers then DiscTooManyPeers
    else if !c.flags.trusted && c.flags.inbound && s.inboundCount >= MaxInboundConns(s.cfg) then DiscTooManyPeers
    else if c.id in s.peers then DiscAlreadyConnected
    else if c.id == s.cfg.selfId then DiscSelf
    else Admit
  }

  function ProtoHandshakeChecks(s: ServerState, c: Conn): Verdict {
    if s.cfg.hasProtocols && c.matching == 0 then DiscUselessPeer else EncHandshakeChecks(s, c)
  }

  // ------------------------------------------------------------------ the events

  datatype Event =
    // received by the loop
    | AddStaticNode(node: Node)
    | RemoveStaticNode(node: Node)
    | AddTrusted(id: NodeID)
    | RemoveTrusted(id: NodeID)
    | PeerOp
    | TaskReceived(task: Task, results: seq<Node>)
    | PostHandshake(conn: Conn)
    | AddPeer(conn: Conn)
    | DelPeer(runner: Runner)
    // done by other goroutines
    | TaskFinishes(task: Task)
    | ConnFails(conn: Conn)
    | DestResolved(node: Node)

  predicate LoopEvent(e: Event) { !e.TaskFinishes? && !e.ConnFails? && !e.DestResolved? }

  /** An event, the clock when it is handled, and for a loop event what the following
      `scheduleTasks` reads: the clock, the order of the static map and random table nodes. */
  datatype Step = Step(event: Event, at: Time, now: Time, order: seq<NodeID>, random: seq<Node>)

  function BaseFlags(f: ConnFlags): ConnFlags { f.(trusted := false) }

  /** The running tasks that have not finished. */
  function Active(s: ServerState): multiset<Task> { multiset(s.running) - s.done }

  /** The keys of the static map when the scheduling that follows `e` ranges over it. */
  function StaticKeysAfter(s: ServerState, e: Event): set<NodeID> {
    if e.AddStaticNode? then s.dial.statics.Keys + {e.node.id}
    else if e.RemoveStaticNode? then s.dial.statics.Keys - {e.node.id}
    else s.dial.statics.Keys
  }

  /** The environment can produce this event now. */
  ghost predicate Arrives(s: ServerState, e: Event) {
    match e
    case TaskReceived(t, _) => t in s.done
    case PostHandshake(c) =>
      // an inbound connection, or one opened by an unfinished dial task
      && (forall c' :: c' in s.handshaking ==> c'.token != c.token)
      && (c.flags == INBOUND || Dial(c.flags, c.id) in Active(s))
      && !c.flags.trusted
    case AddPeer(c) => c in s.handshaking
    case DelPeer(r) => r in s.runners
    case TaskFinishes(t) =>
      // a dial task returns only after its connection was added or discarded
      && t in Active(s)
      && (t.Dial? ==> forall c :: c in s.handshaking ==> c.id != t.id || BaseFlags(c.flags) != t.flags)
    case ConnFails(c) => c in s.handshaking
    case DestResolved(n) => n.id in s.dial.statics && Dial(STATIC_DIALED, n.id) in Active(s)
    case _ => true
  }

  ghost predicate Enabled(s: ServerState, st: Step) {
    && s.clock <= st.at <= st.now
    && Enumerates(st.order, StaticKeysAfter(s, st.event))
    && Arrives(s, st.event)
  }

  // ------------------------------------------------------------ handling an event

  function RemoveFirst(ts: seq<Task>, t: Task): seq<Task> {
    if ts == [] then []
    else if ts[0] == t then ts[1..]
    else [ts[0]] + RemoveFirst(ts[1..], t)
  }

  lemma {:induction false} RemoveFirstContents(ts: seq<Task>, t: Task)
    ensures multiset(RemoveFirst(ts, t)) == multiset(ts) - multiset{t}
    ensures |RemoveFirst(ts, t)| <= |ts|
  {
    if ts != [] {
      assert ts == [ts[0]] + ts[1..];
      assert multiset(ts) == multiset{ts[0]} + multiset(ts[1..]);
      if ts[0] != t {
        RemoveFirstContents(ts[1..], t);
      }
    }
  }

  function SetTrusted(peers: Peers, id: NodeID, val: bool): Peers {
    if id in peers then peers[id := peers[id].(trusted := val)] else peers
  }

  function OnTaskReceived(s: ServerState, t: Task, results: seq<Node>, at: Time): ServerState {
    s.(dial := TaskDone(s.dial, t, results, at),
       running := RemoveFirst(s.running, t),
       done := s.done - multiset{t},
       cooldown := if t.Dial? then s.cooldown[t.id := at] else s.cooldown)
  }

  /** The trusted flag is set before the checks. */
  function MarkTrusted(s: ServerState, c: Conn): Conn {
    if c.id in s.trusted then c.(flags := c.flags.(trusted := true)) else c
  }

  function OnPostHandshake(s: ServerState, c: Conn): ServerState {
    var c' := MarkTrusted(s, c);
    if EncHandshakeChecks(s, c').Admit? then s.(handshaking := s.handshaking + {c'}) else s
  }

  function OnAddPeer(s: ServerState, c: Conn): ServerState {
    var s' := s.(handshaking := s.handshaking - {c});
    if !ProtoHandshakeChecks(s, c).Admit? then s'
    else
      s'.(peers := s.peers[c.id := c.flags],
          inboundCount := if c.flags.inbound then s.inboundCount + 1 else s.inboundCount,
          runners := s.runners + multiset{Runner(c.id, c.flags.inbound)},
          admitted := s.admitted[c.id := c.flags])
  }

  function OnDelPeer(s: ServerState, r: Runner): ServerState {
    s.(peers := s.peers - {r.id},
       inboundCount := if r.inbound then s.inboundCount - 1 else s.inboundCount,
       runners := s.runners - multiset{r},
       admitted := s.admitted - {r.id})
  }

  function Handle(s: ServerState, e: Event, at: Time): ServerState {
    var s := s.(clock := at);
    match e
    case AddStaticNode(n) => s.(dial := AddStatic(s.dial, n))
    case RemoveStaticNode(n) => s.(dial := RemoveStatic(s.dial, n), cooldown := s.cooldown - {n.id})
    case AddTrusted(id) => s.(trusted := s.trusted + {id}, peers := SetTrusted(s.peers, id, true))
    case RemoveTrusted(id) => s.(trusted := s.trusted - {id}, peers := SetTrusted(s.peers, id, false))
    case PeerOp => s
    case TaskReceived(t, results) => OnTaskReceived(s, t, results, at)
    case PostHandshake(c) => OnPostHandshake(s, c)
    case AddPeer(c) => OnAddPeer(s, c)
    case DelPeer(r) => OnDelPeer(s, r)
    case TaskFinishes(t) => s.(done := s.done + multiset{t})
    case ConnFails(c) => s.(handshaking := s.handshaking - {c})
    case DestResolved(n) => s.(dial := s.dial.(statics := s.dial.statics[n.id := n]))
  }

  // --------------------------------------------------------------- scheduleTasks

  /** How many of `ts` can start. */
  function Room(running: seq<Task>, ts: seq<Task>): nat {
    if |running| >= MAX_ACTIVE_DIAL_TASKS then 0
    else if MAX_ACTIVE_DIAL_TASKS - |running| < |ts| then MAX_ACTIVE_DIAL_TASKS - |running|
    else |ts|
  }

  function StartQueued(s: ServerState): ServerState {
    var k := Room(s.running, s.queued);
    s.(running := s.running + s.queued[..k], queued := s.queued[k..])
  }

  ghost function StartNew(s: ServerState, st: Step): ServerState {
    var p := NewTasks(s.dial, |s.running| + |s.queued|, s.peers, st.now, st.order, st.random);
    var k := Room(s.running, p.tasks);
    s.(dial := p.s, running := s.running + p.tasks[..k], queued := s.queued + p.tasks[k..])
  }

  ghost function Schedule(s: ServerState, st: Step): ServerState {
    var s1 := StartQueued(s.(clock := st.now));
    if |s1.running| < MAX_ACTIVE_DIAL_TASKS then StartNew(s1, st) else s1
  }

  ghost function Next(s: ServerState, st: Step): ServerState {
    var s' := Handle(s, st.event, st.at);
    if LoopEvent(st.event) then Schedule(s', st) else s'
  }

  // ------------------------------------------------------------------ invariants

  function Live(s: ServerState): multiset<Task> { multiset(s.running) + multiset(s.queued) }

  /** The live dial tasks are exactly the entries of `dialing`, each once; at most one lookup
      and at most one timer is live. */
  ghost predicate TasksMatch(d: DialState, live: multiset<Task>) {
    && (forall t :: live[t] <= 1)
    && (forall f, id :: Dial(f, id) in live <==> id in d.dialing && d.dialing[id] == f)
    && (Discover in live <==> d.lookupRunning)
    && (forall d1, d2 :: WaitExpire(d1) in live && WaitExpire(d2) in live ==> d1 == d2)
  }

  ghost predicate TasksInv(s: ServerState) {
    && TasksMatch(s.dial, Live(s))
    && |s.running| <= MAX_ACTIVE_DIAL_TASKS
    && s.done <= multiset(s.running)
    && Consistent(s.dial)
  }

  /** The loop never idles with queued tasks, nor without a task while the history is not empty. */
  ghost predicate Scheduled(s: ServerState) {
    && (s.queued != [] ==> |s.running| == MAX_ACTIVE_DIAL_TASKS)
    && (|s.dial.hist| > 0 ==> s.running != [])
  }

  function InboundSet(m: map<NodeID, ConnFlags>): set<NodeID> { set id | id in m && m[id].inbound }

  function NeitherSet(m: map<NodeID, ConnFlags>): set<NodeID> {
    set id | id in m && !m[id].trusted && !m[id].staticDialed
  }

  function UntrustedInboundSet(m: map<NodeID, ConnFlags>): set<NodeID> {
    set id | id in m && !m[id].trusted && m[id].inbound
  }

  /** Every peer in the map has exactly one goroutine. */
  ghost predicate OneRunnerEach(runners: multiset<Runner>, peers: Peers) {
    forall r :: runners[r] == if r.id in peers && peers[r.id].inbound == r.inbound then 1 else 0
  }

  /** The admission limits, measured by the flags at admission. */
  ghost predicate WithinLimits(cfg: Config, admitted: map<NodeID, ConnFlags>) {
    && |NeitherSet(admitted)| <= cfg.maxPeers
    && |UntrustedInboundSet(admitted)| <= MaxInboundConns(cfg)
  }

  /** `admitted` records the peers of the map; only the trusted bit may change afterwards. */
  ghost predicate AdmittedMatch(admitted: map<NodeID, ConnFlags>, peers: Peers) {
    && admitted.Keys == peers.Keys
    && (forall id :: id in peers ==> BaseFlags(admitted[id]) == BaseFlags(peers[id]))
  }

  ghost predicate PeersInv(s: ServerState) {
    && OneRunnerEach(s.runners, s.peers)
    && s.inboundCount == |InboundSet(s.peers)|
    && AdmittedMatch(s.admitted, s.peers)
    && WithinLimits(s.cfg, s.admitted)
    && s.cfg.selfId !in s.peers
  }

  /** A connection in its handshakes is inbound or belongs to an unfinished dial task. */
  ghost predicate HandshakeMatch(handshaking: set<Conn>, active: multiset<Task>) {
    forall c :: c in handshaking ==>
      BaseFlags(c.flags) == INBOUND || Dial(BaseFlags(c.flags), c.id) in active
  }

  ghost predicate HandshakeInv(s: ServerState) { HandshakeMatch(s.handshaking, Active(s)) }

  /** No more than the configured number of nodes are dynamically dialed or connected. */
  ghost predicate DynInv(s: ServerState) {
    && s.dial.maxDynDials == MaxDialedConns(s.cfg)
    && |DynSet(s.peers) + DynSet(s.dial.dialing)| <= MaxDialedConns(s.cfg)
  }

  /** A node whose dial completed stays in the history until 30 seconds later. */
  ghost predicate Remembered(hist: map<NodeID, Time>, cooldown: map<NodeID, Time>, clock: Time) {
    forall id :: id in cooldown ==>
      (id in hist && hist[id] == cooldown[id] + DIAL_HISTORY_EXPIRATION)
      || cooldown[id] + DIAL_HISTORY_EXPIRATION < clock
  }

  ghost predicate TimeInv(s: ServerState) { Remembered(s.dial.hist, s.cooldown, s.clock) }

  ghost predicate Core(s: ServerState) {
    ValidConfig(s.cfg) && TasksInv(s) && PeersInv(s) && HandshakeInv(s) && DynInv(s) && TimeInv(s)
  }

  ghost predicate Inv(s: ServerState) { Core(s) && Scheduled(s) }

  // -------------------------------------------------- handling keeps the core facts

  lemma MultisetSizes(a: multiset<Task>, b: multiset<Task>)
    requires a <= b
    ensures |a| <= |b|
  {
    assert b == a + (b - a);
  }

  lemma TaskDoneMatch(d: DialState, live: multiset<Task>, t: Task, results: seq<Node>, at: Time)
    requires TasksMatch(d, live) && t in live
    ensures TasksMatch(TaskDone(d, t, results, at), live - multiset{t})
  {
    var d' := TaskDone(d, t, results, at);
    var live' := live - multiset{t};
    assert live[t] == 1 && t !in live';
    forall f, id
      ensures Dial(f, id) in live' <==> id in d'.dialing && d'.dialing[id] == f
    {
      assert Dial(f, id) in live <==> id in d.dialing && d.dialing[id] == f;
      assert Dial(f, id) in live' <==> Dial(f, id) in live && Dial(f, id) != t;
    }
  }

  lemma TaskReceivedTasks(s: ServerState, t: Task, results: seq<Node>, at: Time)
    requires TasksInv(s) && t in s.done
    ensures var s' := OnTaskReceived(s, t, results, at);
            TasksInv(s') && Active(s') == Active(s)
  {
    hide TasksMatch, Consistent, TaskDone;
    var s' := OnTaskReceived(s, t, results, at);
    RemoveFirstContents(s.running, t);
    assert s.done <= multiset(s.running);
    assert t in multiset(s.running);
    assert Live(s') == Live(s) - multiset{t};
    TaskDoneMatch(s.dial, Live(s), t, results, at);
    TaskDoneConsistent(s.dial, t, results, at);
    TakeOut(s.done, multiset(s.running), t);
  }

  lemma TaskDoneConsistent(d: DialState, t: Task, results: seq<Node>, at: Time)
    requires Consistent(d)
    ensures Consistent(TaskDone(d, t, results, at))
  {
  }

  lemma TakeOut(a: multiset<Task>, b: multiset<Task>, t: Task)
    requires a <= b && t in a
    ensures a - multiset{t} <= b - multiset{t}
    ensures (b - multiset{t}) - (a - multiset{t}) == b - a
  {
  }

  lemma TaskReceivedTime(s: ServerState, t: Task, results: seq<Node>, at: Time)
    requires TimeInv(s) && s.clock == at
    ensures TimeInv(OnTaskReceived(s, t, results, at))
  {
  }

  lemma DynSetMonotone(a: set<NodeID>, b: set<NodeID>)
    requires a <= b
    ensures |a| <= |b|
  {
    assert b == a + (b - a);
  }

  lemma TaskReceivedKeepsCore(s: ServerState, t: Task, results: seq<Node>, at: Time)
    requires Core(s) && t in s.done && s.clock == at
    ensures Core(OnTaskReceived(s, t, results, at))
  {
    var s' := OnTaskReceived(s, t, results, at);
    TaskReceivedTasks(s, t, results, at);
    TaskReceivedTime(s, t, results, at);
    DynSetMonotone(DynSet(s'.peers) + DynSet(s'.dial.dialing), DynSet(s.peers) + DynSet(s.dial.dialing));
    assert PeersInv(s');
  }

  lemma PostHandshakeKeepsCore(s: ServerState, c: Conn)
    requires Core(s)
    requires c.flags == INBOUND || Dial(c.flags, c.id) in Active(s)
    requires !c.flags.trusted
    ensures Core(OnPostHandshake(s, c))
  {
    assert BaseFlags(c.flags) == c.flags;
    assert BaseFlags(c.flags.(trusted := true)) == c.flags;
  }

  lemma InboundSetGrows(m: map<NodeID, ConnFlags>, id: NodeID, f: ConnFlags)
    requires id !in m
    ensures |InboundSet(m[id := f])| == |InboundSet(m)| + if f.inbound then 1 else 0
  {
    if f.inbound {
      assert InboundSet(m[id := f]) == InboundSet(m) + {id};
    } else {
      assert InboundSet(m[id := f]) == InboundSet(m);
    }
  }

  lemma InboundSetShrinks(m: map<NodeID, ConnFlags>, id: NodeID)
    requires id in m
    ensures |InboundSet(m - {id})| == |InboundSet(m)| - if m[id].inbound then 1 else 0
  {
    if m[id].inbound {
      assert InboundSet(m) == InboundSet(m - {id}) + {id};
    } else {
      assert InboundSet(m - {id}) == InboundSet(m);
    }
  }

  lemma NeitherSetGrows(m: map<NodeID, ConnFlags>, id: NodeID, f: ConnFlags)
    requires id !in m
    ensures |NeitherSet(m[id := f])| == |NeitherSet(m)| + if !f.trusted && !f.staticDialed then 1 else 0
    ensures |NeitherSet(m)| <= |m.Keys|
  {
    if !f.trusted && !f.staticDialed {
      assert NeitherSet(m[id := f]) == NeitherSet(m) + {id};
    } else {
      assert NeitherSet(m[id := f]) == NeitherSet(m);
    }
    DynSetMonotone(NeitherSet(m), m.Keys);
  }

  lemma UntrustedInboundSetGrows(m: map<NodeID, ConnFlags>, id: NodeID, f: ConnFlags)
    requires id !in m
    ensures |UntrustedInboundSet(m[id := f])| == |UntrustedInboundSet(m)| + if !f.trusted && f.inbound then 1 else 0
  {
    if !f.trusted && f.inbound {
      assert UntrustedInboundSet(m[id := f]) == UntrustedInboundSet(m) + {id};
    } else {
      assert UntrustedInboundSet(m[id := f]) == UntrustedInboundSet(m);
    }
  }

  lemma InboundAtAdmission(admitted: map<NodeID, ConnFlags>, peers: Peers)
    requires AdmittedMatch(admitted, peers)
    ensures |UntrustedInboundSet(admitted)| <= |InboundSet(peers)|
  {
    forall id | id in UntrustedInboundSet(admitted)
      ensures id in InboundSet(peers)
    {
      assert BaseFlags(admitted[id]) == BaseFlags(peers[id]);
    }
    DynSetMonotone(UntrustedInboundSet(admitted), InboundSet(peers));
  }

  /** Admission respects both limits, measured by the flags at admission. */
  lemma AdmissionLimits(s: ServerState, c: Conn)
    requires PeersInv(s) && EncHandshakeChecks(s, c).Admit?
    ensures WithinLimits(s.cfg, s.admitted[c.id := c.flags])
  {
    hide OneRunnerEach, NeitherSet, UntrustedInboundSet, InboundSet;
    NeitherSetGrows(s.admitted, c.id, c.flags);
    UntrustedInboundSetGrows(s.admitted, c.id, c.flags);
    InboundAtAdmission(s.admitted, s.peers);
    assert |s.admitted.Keys| == |s.peers.Keys| == |s.peers|;
  }

  lemma AddPeerPeers(s: ServerState, c: Conn)
    requires PeersInv(s)
    ensures PeersInv(OnAddPeer(s, c))
  {
    if ProtoHandshakeChecks(s, c).Admit? {
      AdmissionLimits(s, c);
      InboundSetGrows(s.peers, c.id, c.flags);
      var s' := OnAddPeer(s, c);
      forall r
        ensures s'.runners[r] == if r.id in s'.peers && s'.peers[r.id].inbound == r.inbound then 1 else 0
      {
        assert s.runners[r] == if r.id in s.peers && s.peers[r.id].inbound == r.inbound then 1 else 0;
      }
    }
  }

  lemma AddPeerDyn(s: ServerState, c: Conn)
    requires TasksInv(s) && HandshakeInv(s) && DynInv(s) && c in s.handshaking
    ensures DynInv(OnAddPeer(s, c))
  {
    if ProtoHandshakeChecks(s, c).Admit? {
      var s' := OnAddPeer(s, c);
      if c.flags.dynDialed {
        // the connection belongs to a live dynamic dial of the same node
        assert Dial(BaseFlags(c.flags), c.id) in Active(s);
        assert Dial(BaseFlags(c.flags), c.id) in Live(s);
        assert s.dial.dialing[c.id] == BaseFlags(c.flags);
      }
      DynSetMonotone(DynSet(s'.peers) + DynSet(s'.dial.dialing), DynSet(s.peers) + DynSet(s.dial.dialing));
    }
  }

  lemma AddPeerKeepsCore(s: ServerState, c: Conn)
    requires Core(s) && c in s.handshaking
    ensures Core(OnAddPeer(s, c))
  {
    AddPeerPeers(s, c);
    AddPeerDyn(s, c);
  }

  lemma DelPeerPeers(s: ServerState, r: Runner)
    requires PeersInv(s) && r in s.runners
    ensures PeersInv(OnDelPeer(s, r))
  {
    var s' := OnDelPeer(s, r);
    assert r.id in s.peers && s.peers[r.id].inbound == r.inbound;
    InboundSetShrinks(s.peers, r.id);
    DynSetMonotone(NeitherSet(s'.admitted), NeitherSet(s.admitted));
    DynSetMonotone(UntrustedInboundSet(s'.admitted), UntrustedInboundSet(s.admitted));
    forall q
      ensures s'.runners[q] == if q.id in s'.peers && s'.peers[q.id].inbound == q.inbound then 1 else 0
    {
      assert s.runners[q] == if q.id in s.peers && s.peers[q.id].inbound == q.inbound then 1 else 0;
    }
  }

  lemma DelPeerKeepsCore(s: ServerState, r: Runner)
    requires Core(s) && r in s.runners
    ensures Core(OnDelPeer(s, r))
  {
    var s' := OnDelPeer(s, r);
    DelPeerPeers(s, r);
    DynSetMonotone(DynSet(s'.peers) + DynSet(s'.dial.dialing), DynSet(s.peers) + DynSet(s.dial.dialing));
  }

  lemma TrustRunners(runners: multiset<Runner>, peers: Peers, id: NodeID, val: bool)
    requires OneRunnerEach(runners, peers)
    ensures OneRunnerEach(runners, SetTrusted(peers, id, val))
  {
    var peers' := SetTrusted(peers, id, val);
    forall r
      ensures runners[r] == if r.id in peers' && peers'[r.id].inbound == r.inbound then 1 else 0
    {
      assert runners[r] == if r.id in peers && peers[r.id].inbound == r.inbound then 1 else 0;
    }
  }

  lemma TrustSets(peers: Peers, id: NodeID, val: bool)
    ensures var peers' := SetTrusted(peers, id, val);
            InboundSet(peers') == InboundSet(peers) && DynSet(peers') == DynSet(peers) && peers'.Keys == peers.Keys
  {
  }

  lemma TrustChangePeers(s: ServerState, id: NodeID, val: bool, trusted: set<NodeID>)
    requires PeersInv(s)
    ensures PeersInv(s.(trusted := trusted, peers := SetTrusted(s.peers, id, val)))
    ensures DynSet(SetTrusted(s.peers, id, val)) == DynSet(s.peers)
  {
    hide OneRunnerEach, InboundSet, DynSet;
    TrustSets(s.peers, id, val);
    TrustRunners(s.runners, s.peers, id, val);
  }

  lemma TrustChangeKeepsCore(s: ServerState, id: NodeID, val: bool, trusted: set<NodeID>)
    requires Core(s)
    ensures Core(s.(trusted := trusted, peers := SetTrusted(s.peers, id, val)))
  {
    TrustChangePeers(s, id, val, trusted);
  }

  lemma TaskFinishesKeepsCore(s: ServerState, t: Task)
    requires Core(s) && t in Active(s)
    requires t.Dial? ==> forall c :: c in s.handshaking ==> c.id != t.id || BaseFlags(c.flags) != t.flags
    ensures Core(s.(done := s.done + multiset{t}))
    // the finishing task finds room in the channel
    ensures |s.done| < MAX_ACTIVE_DIAL_TASKS
  {
    var s' := s.(done := s.done + multiset{t});
    assert s'.done <= multiset(s.running);
    MultisetSizes(s'.done, multiset(s.running));
    assert |multiset(s.running)| == |s.running|;
    assert PeersInv(s');
    forall c | c in s'.handshaking
      ensures BaseFlags(c.flags) == INBOUND || Dial(BaseFlags(c.flags), c.id) in Active(s')
    {
      assert BaseFlags(c.flags) == INBOUND || Dial(BaseFlags(c.flags), c.id) in Active(s);
    }
  }

  lemma StaticsKeepCore(s: ServerState, d: DialState, cooldown: map<NodeID, Time>)
    requires Core(s)
    requires d == s.dial.(statics := d.statics, hist := d.hist) && Consistent(d)
    requires Remembered(d.hist, cooldown, s.clock)
    ensures Core(s.(dial := d, cooldown := cooldown))
  {
    assert TasksMatch(d, Live(s));
  }

  lemma AddStaticKeepsCore(s: ServerState, n: Node)
    requires Core(s)
    ensures Core(s.(dial := AddStatic(s.dial, n)))
  {
    StaticsKeepCore(s, AddStatic(s.dial, n), s.cooldown);
  }

  lemma RemoveStaticKeepsCore(s: ServerState, n: Node)
    requires Core(s)
    ensures Core(s.(dial := RemoveStatic(s.dial, n), cooldown := s.cooldown - {n.id}))
  {
    StaticsKeepCore(s, RemoveStatic(s.dial, n), s.cooldown - {n.id});
  }

  lemma HandleClock(s: ServerState, e: Event, at: Time)
    ensures Handle(s, e, at).clock == at
  {
  }

  lemma HandleOwnEventKeepsCore(s: ServerState, e: Event)
    requires Core(s) && Arrives(s, e)
    requires e.AddStaticNode? || e.RemoveStaticNode? || e.AddTrusted? || e.RemoveTrusted? || e.PeerOp?
             || e.ConnFails? || e.DestResolved?
    ensures Core(Handle(s, e, s.clock))
  {
    hide Core, SetTrusted, RemoveStatic;
    assert s.(clock := s.clock) == s;
    match e
    case AddStaticNode(n) => AddStaticKeepsCore(s, n);
    case RemoveStaticNode(n) => RemoveStaticKeepsCore(s, n);
    case AddTrusted(id) => TrustChangeKeepsCore(s, id, true, s.trusted + {id});
    case RemoveTrusted(id) => TrustChangeKeepsCore(s, id, false, s.trusted - {id});
    case PeerOp =>
    case ConnFails(c) => ConnFailsKeepsCore(s, c);
    case DestResolved(n) => AddStaticKeepsCore(s, n);
  }

  lemma HandleKeepsCore(s: ServerState, e: Event, at: Time)
    requires Core(s) && s.clock <= at && Arrives(s, e)
    ensures Core(Handle(s, e, at)) && Handle(s, e, at).clock == at
  {
    hide Core, OnTaskReceived, OnPostHandshake, OnAddPeer, OnDelPeer, SetTrusted, RemoveStatic, EncHandshakeChecks;
    ClockKeepsCore(s, at);
    HandleClock(s, e, at);
    var s1 := s.(clock := at);
    assert Active(s1) == Active(s);
    match e
    case TaskReceived(t, results) => TaskReceivedKeepsCore(s1, t, results, at);
    case PostHandshake(c) => PostHandshakeKeepsCore(s1, c);
    case AddPeer(c) => AddPeerKeepsCore(s1, c);
    case DelPeer(r) => DelPeerKeepsCore(s1, r);
    case TaskFinishes(t) => TaskFinishesKeepsCore(s1, t);
    case _ => HandleOwnEventKeepsCore(s1, e);
  }

  lemma ConnFailsKeepsCore(s: ServerState, c: Conn)
    requires Core(s)
    ensures Core(s.(handshaking := s.handshaking - {c}))
  {
  }

  lemma ClockKeepsCore(s: ServerState, now: Time)
    requires Core(s) && s.clock <= now
    ensures Core(s.(clock := now))
  {
    var s' := s.(clock := now);
    assert Live(s') == Live(s) && Active(s') == Active(s);
    assert PeersInv(s');
  }

  // ------------------------------------------------------- scheduling keeps them too

  lemma RoomIsEnough(running: seq<Task>, ts: seq<Task>)
    requires |running| <= MAX_ACTIVE_DIAL_TASKS
    ensures var k := Room(running, ts);
            k <= |ts| && |running| + k <= MAX_ACTIVE_DIAL_TASKS
            && (k < |ts| ==> |running| + k == MAX_ACTIVE_DIAL_TASKS)
    ensures var k := Room(running, ts);
            multiset(running + ts[..k]) + multiset(ts[k..]) == multiset(running) + multiset(ts)
  {
    var k := Room(running, ts);
    assert ts == ts[..k] + ts[k..];
  }

  lemma StartQueuedKeepsCore(s: ServerState)
    requires Core(s)
    ensures var s' := StartQueued(s);
            Core(s') && (s'.queued != [] ==> |s'.running| == MAX_ACTIVE_DIAL_TASKS)
  {
    var s' := StartQueued(s);
    RoomIsEnough(s.running, s.queued);
    assert Live(s') == Live(s);
    assert multiset(s'.running) == multiset(s.running) + multiset(s.queued[..Room(s.running, s.queued)]);
    assert PeersInv(s');
  }

  /** New tasks are requested only when the queue is empty. */
  lemma NewTasksOnlyWithEmptyQueue(s: ServerState)
    requires |s.running| <= MAX_ACTIVE_DIAL_TASKS
    ensures |StartQueued(s).running| < MAX_ACTIVE_DIAL_TASKS ==> StartQueued(s).queued == []
  {
    RoomIsEnough(s.running, s.queued);
  }

  lemma NewTasksMatch(d: DialState, live: multiset<Task>, d': DialState, tasks: seq<Task>)
    requires TasksMatch(d, live)
    requires DialsAdded(d.dialing, d'.dialing, tasks)
    requires d.lookupRunning ==> d'.lookupRunning
    requires multiset(tasks)[Discover] == (if d'.lookupRunning && !d.lookupRunning then 1 else 0)
    requires forall w :: WaitExpire(w) in tasks ==> tasks == [WaitExpire(w)] && live == multiset{}
    ensures TasksMatch(d', live + multiset(tasks))
  {
    var live' := live + multiset(tasks);
    forall t
      ensures live'[t] <= 1
    {
      match t
      case Dial(f, id) => assert t in live <==> id in d.dialing && d.dialing[id] == f;
      case Discover =>
      case WaitExpire(w) =>
        if t in tasks {
          assert multiset(tasks) == multiset{t};
        }
    }
    forall f, id
      ensures Dial(f, id) in live' <==> id in d'.dialing && d'.dialing[id] == f
    {
      assert Dial(f, id) in live <==> id in d.dialing && d.dialing[id] == f;
    }
    forall d1, d2 | WaitExpire(d1) in live' && WaitExpire(d2) in live'
      ensures d1 == d2
    {
      assert WaitExpire(d1) in tasks || WaitExpire(d1) in live;
      assert WaitExpire(d2) in tasks || WaitExpire(d2) in live;
    }
  }

  lemma EmptyLive(s: ServerState)
    requires |s.running| + |s.queued| == 0
    ensures Live(s) == multiset{}
  {
  }

  lemma DynBudget(peers: set<NodeID>, d: set<NodeID>, d': set<NodeID>, limit: int)
    requires |peers + d| <= limit
    requires d' == d || |peers| + |d'| <= limit
    ensures |peers + d'| <= limit
  {
    if d' != d {
      assert peers + d' == peers + (d' - peers);
      DynSetMonotone(d' - peers, d');
    }
  }

  lemma ExpireRemembers(hist: map<NodeID, Time>, cooldown: map<NodeID, Time>, clock: Time, now: Time)
    requires Remembered(hist, cooldown, clock) && clock <= now
    ensures Remembered(Expire(hist, now), cooldown, now)
  {
  }

  lemma StartNewTasks(s: ServerState, p: Plan, k: nat)
    requires TasksInv(s) && s.queued == []
    requires TasksMatch(p.s, Live(s) + multiset(p.tasks)) && Consistent(p.s)
    requires k <= |p.tasks| && |s.running| + k <= MAX_ACTIVE_DIAL_TASKS
    ensures var s' := s.(dial := p.s, running := s.running + p.tasks[..k], queued := s.queued + p.tasks[k..]);
            TasksInv(s') && Active(s) <= Active(s')
  {
    var s' := s.(dial := p.s, running := s.running + p.tasks[..k], queued := s.queued + p.tasks[k..]);
    assert s'.queued == p.tasks[k..];
    assert p.tasks == p.tasks[..k] + p.tasks[k..];
    assert Live(s') == Live(s) + multiset(p.tasks);
    assert multiset(s'.running) == multiset(s.running) + multiset(p.tasks[..k]);
  }

  lemma NewDialStateKeepsCore(s: ServerState, s': ServerState)
    requires Core(s)
    requires s' == s.(dial := s'.dial, running := s'.running, queued := s'.queued)
    requires TasksInv(s') && DynInv(s') && TimeInv(s') && Active(s) <= Active(s')
    ensures Core(s')
  {
    hide TasksInv, DynInv, TimeInv;
  }

  lemma PlanKeepsScheduled(s: ServerState, p: Plan)
    requires |s.running| < MAX_ACTIVE_DIAL_TASKS && s.queued == []
    requires |p.s.hist| > 0 && |s.running| == 0 ==> p.tasks != []
    ensures var k := Room(s.running, p.tasks);
            Scheduled(s.(dial := p.s, running := s.running + p.tasks[..k], queued := s.queued + p.tasks[k..]))
  {
    RoomIsEnough(s.running, p.tasks);
  }

  lemma PlanKeepsInv(s: ServerState, p: Plan)
    requires Core(s)
    requires |s.running| < MAX_ACTIVE_DIAL_TASKS && s.queued == []
    requires GoodPlan(s.dial, |s.running|, s.peers, s.clock, p)
    ensures var k := Room(s.running, p.tasks);
            Inv(s.(dial := p.s, running := s.running + p.tasks[..k], queued := s.queued + p.tasks[k..]))
  {
    hide TasksMatch, Consistent, DialsAdded, PeersInv, DynSet, HandshakeInv, Scheduled;
    if |s.running| == 0 {
      EmptyLive(s);
    }
    NewTasksMatch(s.dial, Live(s), p.s, p.tasks);
    RoomIsEnough(s.running, p.tasks);
    var k := Room(s.running, p.tasks);
    StartNewTasks(s, p, k);
    DynBudget(DynSet(s.peers), DynSet(s.dial.dialing), DynSet(p.s.dialing), MaxDialedConns(s.cfg));
    ExpireRemembers(s.dial.hist, s.cooldown, s.clock, s.clock);
    NewDialStateKeepsCore(s, s.(dial := p.s, running := s.running + p.tasks[..k], queued := s.queued + p.tasks[k..]));
    PlanKeepsScheduled(s, p);
  }

  lemma CoreConsistent(s: ServerState)
    requires Core(s)
    ensures Consistent(s.dial)
  {
  }

  lemma StartNewUsesPlan(s: ServerState, st: Step)
    ensures var p := NewTasks(s.dial, |s.running| + |s.queued|, s.peers, st.now, st.order, st.random);
            var k := Room(s.running, p.tasks);
            k <= |p.tasks|
            && StartNew(s, st)
               == s.(dial := p.s, running := s.running + p.tasks[..k], queued := s.queued + p.tasks[k..])
  {
    hide NewTasks;
  }

  lemma StartNewKeepsInv(s: ServerState, st: Step)
    requires Core(s) && s.clock == st.now
    requires |s.running| < MAX_ACTIVE_DIAL_TASKS && s.queued == []
    ensures Inv(StartNew(s, st))
  {
    hide *;
    CoreConsistent(s);
    StartNewUsesPlan(s, st);
    NewTasksCorrect(s.dial, |s.running| + |s.queued|, s.peers, st.now, st.order, st.random);
    PlanKeepsInv(s, NewTasks(s.dial, |s.running| + |s.queued|, s.peers, st.now, st.order, st.random));
  }

  lemma ScheduleKeepsInv(s: ServerState, st: Step)
    requires Core(s) && s.clock <= st.now
    ensures Inv(Schedule(s, st))
  {
    hide Core, StartNew, StartQueued;
    ClockKeepsCore(s, st.now);
    var s0 := s.(clock := st.now);
    StartQueuedKeepsCore(s0);
    var s1 := StartQueued(s0);
    if |s1.running| < MAX_ACTIVE_DIAL_TASKS {
      assert s1.clock == st.now by { StartQueuedClock(s0); }
      StartNewKeepsInv(s1, st);
    } else {
      FullIsScheduled(s1);
    }
  }

  lemma StartQueuedClock(s: ServerState)
    ensures StartQueued(s).clock == s.clock
  {
  }

  lemma FullIsScheduled(s: ServerState)
    requires Core(s) && |s.running| >= MAX_ACTIVE_DIAL_TASKS
    ensures Scheduled(s)
  {
  }

  lemma OtherEventsKeepScheduled(s: ServerState, st: Step)
    requires Scheduled(s) && !LoopEvent(st.event)
    ensures Scheduled(Handle(s, st.event, st.at))
  {
  }

  /** Every step of the server keeps the invariant. */
  lemma NextKeepsInv(s: ServerState, st: Step)
    requires Inv(s) && Enabled(s, st)
    ensures Inv(Next(s, st))
  {
    assert s.clock <= st.at <= st.now;
    hide Handle, Schedule, Core, Scheduled, Enabled;
    EnabledArrives(s, st);
    HandleKeepsCore(s, st.event, st.at);
    if LoopEvent(st.event) {
      ScheduleKeepsInv(Handle(s, st.event, st.at), st);
    } else {
      OtherEventsKeepScheduled(s, st);
    }
  }

  // ----------------------------------------------------------------- whole runs

  /** `newDialState`: nothing dialed yet, the configured static nodes registered. */
  function NewDialState(statics: seq<Node>, bootnodes: seq<Node>, self: Option<NodeID>,
                        maxDyn: int, restrict: Option<set<IP>>): DialState
  {
    DialState(maxDyn, self, restrict, false, map[], [], StaticTable(statics), map[], None, bootnodes)
  }

  /** The loop's variables when `run` starts, before the first `scheduleTasks`. */
  function Initial(cfg: Config, dial: DialState, trusted: set<NodeID>, clock: Time): ServerState {
    ServerState(cfg, dial, map[], 0, trusted, [], [], multiset{}, {}, multiset{}, map[], clock, map[])
  }

  ghost predicate Started(s: ServerState) {
    exists cfg, statics, bootnodes, self, restrict, trusted, clock, st: Step ::
      && ValidConfig(cfg) && clock <= st.now
      && s == Schedule(Initial(cfg, NewDialState(statics, bootnodes, self, MaxDialedConns(cfg), restrict),
                               trusted, clock), st)
  }

  lemma StartedInv(s: ServerState)
    requires Started(s)
    ensures Inv(s)
  {
    var cfg, statics, bootnodes, self, restrict, trusted, clock, st: Step :|
      && ValidConfig(cfg) && clock <= st.now
      && s == Schedule(Initial(cfg, NewDialState(statics, bootnodes, self, MaxDialedConns(cfg), restrict),
                               trusted, clock), st);
    var dial := NewDialState(statics, bootnodes, self, MaxDialedConns(cfg), restrict);
    InitialCore(cfg, dial, trusted, clock);
    ScheduleKeepsInv(Initial(cfg, dial, trusted, clock), st);
  }

  lemma InitialCore(cfg: Config, dial: DialState, trusted: set<NodeID>, clock: Time)
    requires ValidConfig(cfg) && dial.maxDynDials == MaxDialedConns(cfg)
    requires Consistent(dial) && dial.dialing == map[] && !dial.lookupRunning
    ensures Core(Initial(cfg, dial, trusted, clock))
  {
    var s0 := Initial(cfg, dial, trusted, clock);
    assert DynSet(s0.peers) + DynSet(dial.dialing) == {};
    assert InboundSet(s0.peers) == {} && NeitherSet(s0.admitted) == {} && UntrustedInboundSet(s0.admitted) == {};
  }

  ghost function Exec(s: ServerState, steps: seq<Step>): ServerState {
    if steps == [] then s else Next(Exec(s, steps[..|steps| - 1]), steps[|steps| - 1])
  }

  ghost predicate Legal(s: ServerState, steps: seq<Step>) {
    forall k :: 0 <= k < |steps| ==> Enabled(Exec(s, steps[..k]), steps[k])
  }

  lemma LegalPrefix(s: ServerState, steps: seq<Step>, m: nat)
    requires Legal(s, steps) && m <= |steps|
    ensures Legal(s, steps[..m])
  {
    forall k | 0 <= k < m
      ensures Enabled(Exec(s, steps[..m][..k]), steps[..m][k])
    {
      assert steps[..m][..k] == steps[..k];
    }
  }

  /** In every state of every run: no node is dialed by two tasks at once, at most 16 tasks run,
      the dynamic dial limit and both admission limits hold, and the loop keeps ticking. */
  lemma {:induction false} EveryRunKeepsInv(s: ServerState, steps: seq<Step>)
    requires Started(s) && Legal(s, steps)
    ensures Inv(Exec(s, steps))
    decreases |steps|
  {
    if steps == [] {
      StartedInv(s);
    } else {
      var m := |steps| - 1;
      LegalPrefix(s, steps, m);
      EveryRunKeepsInv(s, steps[..m]);
      NextKeepsInv(Exec(s, steps[..m]), steps[m]);
    }
  }

  // ------------------------------------------------- 30 seconds between two dials

  /** No node is dialed by two tasks at once, whether they are queued, running, or finished and not
      yet received. */
  lemma NoNodeDialedTwice(s: ServerState, i: nat, j: nat)
    requires Inv(s) && i < j < |s.running + s.queued|
    requires (s.running + s.queued)[i].Dial? && (s.running + s.queued)[j].Dial?
    ensures (s.running + s.queued)[i].id != (s.running + s.queued)[j].id
  {
    hide PeersInv, HandshakeInv, DynInv, TimeInv, Scheduled, Consistent;
    var ts := s.running + s.queued;
    assert multiset(ts) == Live(s);
    assert ts[i] in multiset(ts) && ts[j] in multiset(ts);
    assert ts == ts[..j] + [ts[j]] + ts[j + 1..];
    assert ts[i] in ts[..j];
  }

  predicate Forgets(e: Event, id: NodeID) { e.RemoveStaticNode? && e.node.id == id }

  predicate Completes(e: Event, id: NodeID) { e.TaskReceived? && e.task.Dial? && e.task.id == id }

  lemma ScheduleFrame(h: ServerState, st: Step)
    ensures Schedule(h, st).clock == st.now && Schedule(h, st).cooldown == h.cooldown
  {
    hide NewTasks;
  }

  lemma ClockAdvances(s: ServerState, st: Step)
    requires Enabled(s, st)
    ensures s.clock <= st.at <= Next(s, st).clock
    ensures Next(s, st).cooldown == Handle(s, st.event, st.at).cooldown
  {
    assert s.clock <= st.at <= st.now;
    hide Enabled, Handle, Schedule;
    HandleClock(s, st.event, st.at);
    ScheduleFrame(Handle(s, st.event, st.at), st);
  }

  /** A recorded completion survives every event that does not forget the node. */
  lemma CooldownStep(s: ServerState, st: Step, id: NodeID, t: Time)
    requires s.clock <= st.at && !Forgets(st.event, id) && t <= st.at
    requires Completes(st.event, id) || (id in s.cooldown && t <= s.cooldown[id])
    ensures var h := Handle(s, st.event, st.at); id in h.cooldown && t <= h.cooldown[id]
  {
    hide EncHandshakeChecks, ProtoHandshakeChecks, TaskDone, AddStatic, RemoveStatic, SetTrusted, RemoveFirst;
  }

  lemma {:induction false} CooldownKept(s: ServerState, steps: seq<Step>, i: nat, m: nat, id: NodeID)
    requires Legal(s, steps) && i < m <= |steps|
    requires Completes(steps[i].event, id)
    requires forall k :: i < k < m ==> !Forgets(steps[k].event, id)
    ensures var x := Exec(s, steps[..m]);
            id in x.cooldown && steps[i].at <= x.cooldown[id] && steps[i].at <= x.clock
    decreases m
  {
    hide Enabled, Handle, Next;
    var x := Exec(s, steps[..m - 1]);
    assert steps[..m][..m - 1] == steps[..m - 1];
    assert Exec(s, steps[..m]) == Next(x, steps[m - 1]);
    assert Enabled(x, steps[m - 1]);
    if i < m - 1 {
      CooldownKept(s, steps, i, m - 1, id);
    }
    ClockAdvances(x, steps[m - 1]);
    CooldownStep(x, steps[m - 1], id, steps[i].at);
  }

  lemma NewDialIsLate(h: ServerState, st: Step, id: NodeID)
    requires Core(h) && h.clock <= st.now
    requires id in h.cooldown && id !in h.dial.dialing
    requires id in Schedule(h, st).dial.dialing
    ensures st.now > h.cooldown[id] + DIAL_HISTORY_EXPIRATION
  {
    var s1 := StartQueued(h.(clock := st.now));
    NewTasksCorrect(s1.dial, |s1.running| + |s1.queued|, s1.peers, st.now, st.order, st.random);
  }

  lemma EnabledArrives(s: ServerState, st: Step)
    requires Enabled(s, st)
    ensures s.clock <= st.at <= st.now && Arrives(s, st.event)
  {
  }

  /** Between the completion of a dial of a node and the creation of its next dial task lie more
      than 30 seconds, unless the node was removed from the static list in between. */
  lemma DialSpacing(s: ServerState, steps: seq<Step>, i: nat, j: nat, id: NodeID)
    requires Started(s) && Legal(s, steps) && i <= j < |steps|
    requires Completes(steps[i].event, id) && LoopEvent(steps[j].event)
    requires forall k :: i < k <= j ==> !Forgets(steps[k].event, id)
    requires id !in Handle(Exec(s, steps[..j]), steps[j].event, steps[j].at).dial.dialing
    requires id in Exec(s, steps[..j + 1]).dial.dialing
    ensures steps[j].now > steps[i].at + 30 * SECOND
  {
    hide Enabled, Handle, Schedule, Core, Scheduled, Started;
    var x := Exec(s, steps[..j]);
    LegalPrefix(s, steps, j);
    EveryRunKeepsInv(s, steps[..j]);
    assert steps[..j + 1][..j] == steps[..j];
    assert Enabled(x, steps[j]);
    assert Exec(s, steps[..j + 1]) == Next(x, steps[j]);
    if i < j {
      CooldownKept(s, steps, i, j, id);
    }
    EnabledArrives(x, steps[j]);
    HandleKeepsCore(x, steps[j].event, steps[j].at);
    CooldownStep(x, steps[j], id, steps[i].at);
    NewDialIsLate(Handle(x, steps[j].event, steps[j].at), steps[j], id);
  }

  // ------------------------------------------------------------------- admission

  /** Who is admitted: a connection to a new node that is not this one, within the two limits unless it
      is exempt: trusted and static connections from the first, trusted ones from the second. */
  predicate MayConnect(s: ServerState, c: Conn) {
    && c.id !in s.peers && c.id != s.cfg.selfId
    && (c.flags.trusted || c.flags.staticDialed || |s.peers| < s.cfg.maxPeers)
    && (c.flags.trusted || !c.flags.inbound || s.inboundCount < MaxInboundConns(s.cfg))
  }

  lemma AdmittedIff(s: ServerState, c: Conn)
    ensures EncHandshakeChecks(s, c) == Admit <==> MayConnect(s, c)
    ensures EncHandshakeChecks(s, c) == DiscAlreadyConnected ==> c.id in s.peers
    ensures EncHandshakeChecks(s, c) == DiscSelf ==> c.id == s.cfg.selfId
    ensures EncHandshakeChecks(s, c) == DiscTooManyPeers ==> !c.flags.trusted
    ensures ProtoHandshakeChecks(s, c) == Admit <==> MayConnect(s, c) && (s.cfg.hasProtocols ==> c.matching > 0)
    ensures ProtoHandshakeChecks(s, c) == DiscUselessPeer <==> s.cfg.hasProtocols && c.matching == 0
  {
  }

  /** A connection of a trusted node passes the first checkpoint however many peers there are, and one of a
      static node that this server dialed too. */
  lemma TrustedAlwaysPasses(s: ServerState, c: Conn)
    requires c.id !in s.peers && c.id != s.cfg.selfId
    ensures c.id in s.trusted ==> exists c' :: c' in OnPostHandshake(s, c).handshaking && c'.token == c.token
                                               && c'.id == c.id && c'.flags == c.flags.(trusted := true)
    ensures c.flags.staticDialed && !c.flags.inbound ==>
              exists c' :: c' in OnPostHandshake(s, c).handshaking && c'.token == c.token && c'.id == c.id
  {
    var c' := MarkTrusted(s, c);
    AdmittedIff(s, c');
    assert c.id in s.trusted || (c.flags.staticDialed && !c.flags.inbound) ==>
        c' in OnPostHandshake(s, c).handshaking;
  }

  /** The first checkpoint: the connection goes on, marked as trusted if its node is, exactly if it may connect so
      marked; nothing else changes. */
  lemma HandshakeEffect(s: ServerState, c: Conn)
    ensures var s', c' := OnPostHandshake(s, c), c.(flags := c.flags.(trusted := c.flags.trusted || c.id in s.trusted));
            s' == s.(handshaking := if MayConnect(s, c') then s.handshaking + {c'} else s.handshaking)
  {
    AdmittedIff(s, MarkTrusted(s, c));
  }

  /** What the loop does to the peers: the peer of an admitted connection is there with the flags of the
      connection, one that is dropped is not, and nobody else changes. */
  lemma PeersEffect(s: ServerState, c: Conn, r: Runner)
    ensures var s' := OnAddPeer(s, c);
            && c !in s'.handshaking
            && (if MayConnect(s, c) && (s.cfg.hasProtocols ==> c.matching > 0)
                then s'.peers == s.peers[c.id := c.flags]
                     && s'.inboundCount == s.inboundCount + (if c.flags.inbound then 1 else 0)
                     && s'.runners[Runner(c.id, c.flags.inbound)] == s.runners[Runner(c.id, c.flags.inbound)] + 1
                else s'.peers == s.peers && s'.inboundCount == s.inboundCount && s'.runners == s.runners)
    ensures var s' := OnDelPeer(s, r);
            && (forall id :: id in s'.peers <==> id in s.peers && id != r.id)
            && (forall id :: id in s'.peers ==> s'.peers[id] == s.peers[id])
            && s'.inboundCount == s.inboundCount - (if r.inbound then 1 else 0)
  {
    AdmittedIff(s, c);
  }

  lemma ScheduleKeepsPeers(s: ServerState, st: Step)
    ensures Schedule(s, st).peers == s.peers
  {
    hide NewTasks;
  }

  lemma HandleKeepsPeer(s: ServerState, e: Event, at: Time, id: NodeID)
    requires id in s.peers && !(e.DelPeer? && e.runner.id == id)
    ensures var s' := Handle(s, e, at);
            && id in s'.peers && BaseFlags(s'.peers[id]) == BaseFlags(s.peers[id])
            && (s'.peers[id].trusted == if e == AddTrusted(id) then true
                                        else if e == RemoveTrusted(id) then false else s.peers[id].trusted)
  {
    if e.AddPeer? {
      AdmittedIff(s.(clock := at), e.conn);
    }
  }

  /** A peer stays connected, with its flags but for the trust in it, until its goroutine reports the end. */
  lemma PeerStays(s: ServerState, st: Step, id: NodeID)
    requires id in s.peers && !(st.event.DelPeer? && st.event.runner.id == id)
    ensures var s' := Next(s, st);
            && id in s'.peers && BaseFlags(s'.peers[id]) == BaseFlags(s.peers[id])
            && (s'.peers[id].trusted == if st.event == AddTrusted(id) then true
                                        else if st.event == RemoveTrusted(id) then false else s.peers[id].trusted)
  {
    hide Handle, Schedule;
    HandleKeepsPeer(s, st.event, st.at, id);
    ScheduleKeepsPeers(Handle(s, st.event, st.at), st);
  }

  /** A node added to the static list is dialed by the scheduling that follows, unless it may not be or all
      16 task slots are taken. */
  lemma AddedStaticIsDialed(s: ServerState, st: Step)
    requires Core(s) && Enabled(s, st) && st.event.AddStaticNode?
    ensures var s', n := Next(s, st), st.event.node;
            n.id in s'.dial.dialing || !Eligible(s'.dial, s'.peers, n) || |s'.running| >= 16
  {
    hide Core, Handle, StartQueued;
    EnabledArrives(s, st);
    HandleKeepsCore(s, st.event, st.at);
    var h := Handle(s, st.event, st.at);
    StaticAfterAdd(s, st);
    var s1 := StartQueued(h.(clock := st.now));
    QueuedKeepsDial(h.(clock := st.now));
    if |s1.running| < MAX_ACTIVE_DIAL_TASKS {
      CoreConsistent(h);
      StaticIsDialed(s1, st, st.event.node);
    }
  }

  lemma StaticAfterAdd(s: ServerState, st: Step)
    requires Enabled(s, st) && st.event.AddStaticNode?
    ensures var h, n := Handle(s, st.event, st.at), st.event.node;
            n.id in h.dial.statics && h.dial.statics[n.id] == n && Enumerates(st.order, h.dial.statics.Keys)
  {
    assert Handle(s, st.event, st.at).dial.statics.Keys == StaticKeysAfter(s, st.event);
  }

  lemma QueuedKeepsDial(s: ServerState)
    ensures StartQueued(s).dial == s.dial && StartQueued(s).peers == s.peers
  {
  }

  lemma StaticIsDialed(s: ServerState, st: Step, n: Node)
    requires Consistent(s.dial) && Enumerates(st.order, s.dial.statics.Keys)
    requires n.id in s.dial.statics && s.dial.statics[n.id] == n
    ensures var s' := StartNew(s, st);
            s'.peers == s.peers && (n.id in s'.dial.dialing || !Eligible(s'.dial, s'.peers, n))
  {
    hide NewTasks, StaticsKept, IsMinExp, Candidates, DynSet;
    var e, d1 := NewTasksEffect(s.dial, |s.running| + |s.queued|, s.peers, st.now, st.order, st.random);
  }

  // ------------------------------------------------------- who is connected, and why

  /** The step makes the node a peer: its connection passes the second checkpoint. */
  predicate Joins(s: ServerState, e: Event, id: NodeID) {
    && e.AddPeer? && e.conn.id == id && MayConnect(s, e.conn)
    && (s.cfg.hasProtocols ==> e.conn.matching > 0)
  }

  predicate Leaves(e: Event, id: NodeID) { e.DelPeer? && e.runner.id == id }

  lemma ConnectedStep(s: ServerState, st: Step, id: NodeID)
    ensures id in Next(s, st).peers <==> (id in s.peers && !Leaves(st.event, id)) || Joins(s, st.event, id)
  {
    hide Handle, Schedule, Joins, Leaves;
    ScheduleKeepsPeers(Handle(s, st.event, st.at), st);
    HandleConnects(s, st.event, st.at, id);
  }

  lemma HandleConnects(s: ServerState, e: Event, at: Time, id: NodeID)
    ensures id in Handle(s, e, at).peers <==> (id in s.peers && !Leaves(e, id)) || Joins(s, e, id)
  {
    hide OnAddPeer, OnPostHandshake, OnTaskReceived, AddStatic, RemoveStatic, MayConnect;
    var now := s.(clock := at);
    match e
    case AddPeer(c) => AddedPeer(now, c, id); AdmittedIff(now, c); SameLimits(s, at, c);
    case PostHandshake(c) => CheckpointFrame(now, c, Runner(id, false));
    case TaskReceived(t, results) => ReceivedFrame(now, t, results, at);
    case _ =>
  }

  lemma AddedPeer(s: ServerState, c: Conn, id: NodeID)
    ensures id in OnAddPeer(s, c).peers <==> id in s.peers || (id == c.id && ProtoHandshakeChecks(s, c) == Admit)
  {
    hide ProtoHandshakeChecks;
  }

  lemma SameLimits(s: ServerState, at: Time, c: Conn)
    ensures MayConnect(s.(clock := at), c) <==> MayConnect(s, c)
  {
  }

  predicate SameTasks(s: ServerState, s': ServerState) {
    s'.done == s.done && s'.running == s.running && s'.queued == s.queued && s'.dial == s.dial
  }

  /** The checkpoints and the end of a peer are not about tasks, and the first checkpoint not about peers. */
  lemma CheckpointFrame(s: ServerState, c: Conn, r: Runner)
    ensures OnPostHandshake(s, c) == s.(handshaking := OnPostHandshake(s, c).handshaking)
    ensures SameTasks(s, OnAddPeer(s, c)) && SameTasks(s, OnDelPeer(s, r))
  {
    hide EncHandshakeChecks, ProtoHandshakeChecks, MarkTrusted;
  }

  lemma ReceivedFrame(s: ServerState, t: Task, results: seq<Node>, at: Time)
    ensures OnTaskReceived(s, t, results, at).peers == s.peers
    ensures OnTaskReceived(s, t, results, at).dial.statics == s.dial.statics
  {
    hide RemoveFirst;
  }

  /** No step from `i` on takes the peer away. */
  predicate NeverLeaves(steps: seq<Step>, i: nat, id: NodeID) {
    forall k :: i <= k < |steps| ==> !Leaves(steps[k].event, id)
  }

  /** The node joined at step `i` and has not left since. */
  ghost predicate ConnectedSince(s: ServerState, steps: seq<Step>, i: nat, id: NodeID)
    requires i < |steps|
  {
    Joins(Exec(s, steps[..i]), steps[i].event, id) && NeverLeaves(steps, i + 1, id)
  }

  lemma SinceOneMore(s: ServerState, steps: seq<Step>, st: Step, i: nat, id: NodeID)
    requires i < |steps|
    ensures ConnectedSince(s, steps + [st], i, id) <==>
            ConnectedSince(s, steps, i, id) && !Leaves(st.event, id)
  {
    hide Joins, Leaves, Exec;
    var more := steps + [st];
    assert more[..i] == steps[..i];
    if NeverLeaves(more, i + 1, id) {
      assert !Leaves(more[|steps|].event, id);
      forall k | i + 1 <= k < |steps|
        ensures !Leaves(steps[k].event, id)
      {
        assert !Leaves(more[k].event, id);
      }
    }
  }

  /** In every run, a node is connected exactly if it was at the start or its connection was admitted by
      some step, and no later step reported the end of its goroutine. */
  lemma {:induction false} ConnectedIff(s: ServerState, steps: seq<Step>, id: NodeID)
    ensures id in Exec(s, steps).peers <==>
            || (id in s.peers && NeverLeaves(steps, 0, id))
            || exists i :: 0 <= i < |steps| && ConnectedSince(s, steps, i, id)
  {
    if steps != [] {
      hide Joins, Leaves, Next, ConnectedSince, NeverLeaves;
      var m := |steps| - 1;
      var before, st := steps[..m], steps[m];
      assert steps == before + [st];
      ConnectedIff(s, before, id);
      ConnectedStep(Exec(s, before), st, id);
      NeverOneMore(before, st, id);
      JoinedLast(s, before, st, id);
      forall i | 0 <= i < m
        ensures ConnectedSince(s, steps, i, id) <==> ConnectedSince(s, before, i, id) && !Leaves(st.event, id)
      {
        SinceOneMore(s, before, st, i, id);
      }
    }
  }

  lemma NeverOneMore(steps: seq<Step>, st: Step, id: NodeID)
    ensures NeverLeaves(steps + [st], 0, id) <==> NeverLeaves(steps, 0, id) && !Leaves(st.event, id)
  {
    var more := steps + [st];
    if NeverLeaves(more, 0, id) {
      assert !Leaves(more[|steps|].event, id);
      forall k | 0 <= k < |steps|
        ensures !Leaves(steps[k].event, id)
      {
        assert !Leaves(more[k].event, id);
      }
    }
  }

  lemma JoinedLast(s: ServerState, steps: seq<Step>, st: Step, id: NodeID)
    ensures ConnectedSince(s, steps + [st], |steps|, id) <==> Joins(Exec(s, steps), st.event, id)
  {
    hide Joins, Exec;
    assert (steps + [st])[..|steps|] == steps;
  }

  // ------------------------------------------------------ what else an event changes

  /** The connections between the checkpoints: those that pass the first, until they are added or fail. */
  lemma HandshakingIff(s: ServerState, e: Event, at: Time, c: Conn)
    ensures c in Handle(s, e, at).handshaking <==>
            || (c in s.handshaking && e != AddPeer(c) && e != ConnFails(c))
            || (e.PostHandshake? && MayConnect(s, c)
                && c == e.conn.(flags := e.conn.flags.(trusted := e.conn.flags.trusted || e.conn.id in s.trusted)))
  {
    hide EncHandshakeChecks, ProtoHandshakeChecks, MaxInboundConns;
    if e.PostHandshake? {
      HandshakeEffect(s.(clock := at), e.conn);
    }
  }

  /** The static nodes: those added and not removed since, as they were added or last resolved. */
  lemma StaticIff(s: ServerState, e: Event, at: Time, id: NodeID)
    requires Arrives(s, e)
    ensures var was, now := s.dial.statics, Handle(s, e, at).dial.statics;
            && (id in now <==>
                 && (id in was || (e.AddStaticNode? && e.node.id == id))
                 && !(e.RemoveStaticNode? && e.node.id == id))
            && (id in now ==>
                 now[id] == if (e.AddStaticNode? || e.DestResolved?) && e.node.id == id then e.node else was[id])
  {
    hide SetTrusted, OnTaskReceived, OnPostHandshake, OnAddPeer, OnDelPeer;
    var s0 := s.(clock := at);
    match e
    case TaskReceived(t, results) => ReceivedFrame(s0, t, results, at);
    case PostHandshake(c) => CheckpointFrame(s0, c, Runner(c.id, false));
    case AddPeer(c) => CheckpointFrame(s0, c, Runner(c.id, false));
    case DelPeer(r) => CheckpointFrame(s0, Conn(0, r.id, INBOUND, 0), r);
    case _ =>
  }

  /** The trusted nodes: those added and not removed since. */
  lemma TrustedIff(s: ServerState, e: Event, at: Time, id: NodeID)
    ensures id in Handle(s, e, at).trusted <==>
            (id in s.trusted || e == AddTrusted(id)) && e != RemoveTrusted(id)
  {
    hide EncHandshakeChecks, ProtoHandshakeChecks, SetTrusted, RemoveFirst;
  }

  /** A finished task waits once more to be received; a received one is neither waiting nor running. */
  lemma TasksEffect(s: ServerState, e: Event, at: Time, t: Task)
    requires Arrives(s, e) && s.done <= multiset(s.running)
    ensures var s', received := Handle(s, e, at), if e.TaskReceived? && e.task == t then 1 else 0;
            && s'.done[t] == s.done[t] + (if e == TaskFinishes(t) then 1 else 0) - received
            && multiset(s'.running)[t] == multiset(s.running)[t] - received
            && s'.queued == s.queued
  {
    hide SetTrusted, OnTaskReceived, OnPostHandshake, OnAddPeer, OnDelPeer, AddStatic, RemoveStatic;
    var now := s.(clock := at);
    match e
    case TaskReceived(got, results) => ReceivedTask(now, got, results, at, t);
    case PostHandshake(c) => CheckpointFrame(now, c, Runner(c.id, false));
    case AddPeer(c) => CheckpointFrame(now, c, Runner(c.id, false));
    case DelPeer(r) => CheckpointFrame(now, Conn(0, r.id, INBOUND, 0), r);
    case _ =>
  }

  lemma ReceivedTask(s: ServerState, got: Task, results: seq<Node>, at: Time, t: Task)
    requires got in s.done && s.done <= multiset(s.running)
    ensures var s', received := OnTaskReceived(s, got, results, at), if got == t then 1 else 0;
            && s'.done[t] == s.done[t] - received && s'.queued == s.queued
            && multiset(s'.running)[t] == multiset(s.running)[t] - received
  {
    hide RemoveFirst, TaskDone;
    RemoveFirstContents(s.running, got);
    assert got in multiset(s.running);
  }

  /** Queued tasks start in the order in which they were queued, none is lost, and as many as have room. */
  lemma QueueIsFirstComeFirstServed(s: ServerState)
    ensures var s' := StartQueued(s);
            && s'.running + s'.queued == s.running + s.queued && s.running <= s'.running
            && (s'.queued == [] || |s'.running| >= 16)
            && (|s.running| <= 16 ==> |s'.running| <= 16)
  {
    var k := Room(s.running, s.queued);
    assert s.queued == s.queued[..k] + s.queued[k..];
  }
}
