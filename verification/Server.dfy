/** The server loop as the object it is: the variables of `run`, its local closures and one
    iteration of its `for`/`select`, proved against module ServerLoop. */
module Server {
  import opened Common
  import opened Dialer
  import opened ServerLoop
  import DialScheduler

  /** What other goroutines hold, the clock, and two history variables of the specification. */
  datatype Elsewhere = Elsewhere(
    done: multiset<Task>,
    handshaking: set<Conn>,
    runners: multiset<Runner>,
    admitted: map<NodeID, ConnFlags>,
    clock: Time,
    cooldown: map<NodeID, Time>)

  class Loop {
    const cfg: Config
    const dialer: DialScheduler.Scheduler
    var peers: Peers
    var inboundCount: int
    var trusted: set<NodeID>
    var running: seq<Task>
    var queued: seq<Task>

    ghost var env: Elsewhere

    ghost function State(): ServerState
      reads this, dialer, dialer.hist
    {
      ServerState(cfg, dialer.State(), peers, inboundCount, trusted, running, queued,
                  env.done, env.handshaking, env.runners, env.admitted, env.clock, env.cooldown)
    }

    ghost predicate Valid()
      reads this, dialer, dialer.hist
    {
      dialer.Valid() && Core(State())
    }

    /** The prologue of `run`, up to and including the first scheduling. */
    constructor (cfg: Config, nodes: seq<Node>, boot: seq<Node>, self: Option<NodeID>,
                 restrict: Option<set<IP>>, trusted: set<NodeID>, now: Time, random: seq<Node>)
      requires ValidConfig(cfg)
      ensures Valid() && Scheduled(State()) && Started(State())
      ensures fresh(dialer) && fresh(dialer.hist)
    {
      this.cfg := cfg;
      dialer := new DialScheduler.Scheduler(nodes, boot, self, MaxDialedConns(cfg), restrict);
      peers, inboundCount, this.trusted, running, queued := map[], 0, trusted, [], [];
      env := Elsewhere(multiset{}, {}, multiset{}, map[], now, map[]);
      new;
      hide Core, Schedule, Scheduled;
      ghost var dial := NewDialState(nodes, boot, self, MaxDialedConns(cfg), restrict);
      InitialCore(cfg, dial, trusted, now);
      assert State() == Initial(cfg, dial, trusted, now);
      ghost var st := ScheduleTasks(now, random, PeerOp, now);
      assert env.clock <= st.now;
      assert Started(State());
    }

    /** The closure `delTask`. */
    method DelTask(t: Task)
      modifies this`running
      ensures running == RemoveFirst(old(running), t)
    {
      for i := 0 to |running|
        invariant running == old(running)
        invariant forall k :: 0 <= k < i ==> running[k] != t
      {
        if running[i] == t {
          RemoveFirstAt(running, t, i);
          running := running[..i] + running[i + 1..];
          return;
        }
      }
      RemoveFirstAbsent(running, t);
    }

    /** The closure `startTasks`: `ts[i..]` is what could not start. */
    method StartTasks(ts: seq<Task>) returns (rest: seq<Task>)
      modifies this`running
      ensures var k := Room(old(running), ts);
              k <= |ts| && running == old(running) + ts[..k] && rest == ts[k..]
    {
      var i := 0;
      while |running| < MAX_ACTIVE_DIAL_TASKS && i < |ts|
        invariant i <= Room(old(running), ts) <= |ts|
        invariant running == old(running) + ts[..i]
      {
        running := running + [ts[i]];
        i := i + 1;
      }
      rest := ts[i..];
    }

    /** The closure `scheduleTasks`. */
    method ScheduleTasks(now: Time, random: seq<Node>, ghost e: Event, ghost at: Time)
      returns (ghost st: Step)
      requires Valid() && env.clock <= now
      modifies this, dialer, dialer.hist
      ensures Valid() && Scheduled(State())
      ensures st.event == e && st.at == at && st.now == now && Enumerates(st.order, old(dialer.statics.Keys))
      ensures State() == Schedule(old(State()), st)
    {
      hide Core, Scheduled, NewTasks, Enumerates;
      ghost var s0 := State();
      env := env.(clock := now);
      queued := StartTasks(queued);
      assert State() == StartQueued(s0.(clock := now));
      if |running| < MAX_ACTIVE_DIAL_TASKS {
        var tasks, order := dialer.NextTasks(|running| + |queued|, peers, now, random);
        st := Step(e, at, now, order, random);
        var rest := StartTasks(tasks);
        queued := queued + rest;
      } else {
        var order := DialScheduler.RangeOrder(dialer.statics.Keys);
        st := Step(e, at, now, order, random);
      }
      ScheduleKeepsInv(s0, st);
    }

    method OnTask(t: Task, results: seq<Node>, at: Time)
      requires Valid() && t in env.done
      modifies this, dialer, dialer.hist
      ensures dialer.Valid() && State() == OnTaskReceived(old(State()), t, results, at)
    {
      hide Core, RemoveFirst;
      LiveDialListed(State(), t);
      dialer.Finish(t, results, at);
      DelTask(t);
      env := env.(done := env.done - multiset{t},
                  cooldown := if t.Dial? then env.cooldown[t.id := at] else env.cooldown);
    }

    method CheckEnc(c: Conn) returns (v: Verdict)
      ensures v == EncHandshakeChecks(State(), c)
    {
      v := if !(c.flags.trusted || c.flags.staticDialed) && |peers| >= cfg.maxPeers then DiscTooManyPeers
           else if !c.flags.trusted && c.flags.inbound && inboundCount >= MaxInboundConns(cfg) then DiscTooManyPeers
           else if c.id in peers then DiscAlreadyConnected
           else if c.id == cfg.selfId then DiscSelf
           else Admit;
    }

    method OnHandshake(c0: Conn) returns (v: Verdict)
      requires dialer.Valid()
      modifies this
      ensures dialer.Valid() && State() == OnPostHandshake(old(State()), c0)
      ensures v == EncHandshakeChecks(old(State()), MarkTrusted(old(State()), c0))
    {
      var c := c0;
      if c.id in trusted {
        c := c.(flags := c.flags.(trusted := true));
      }
      v := CheckEnc(c);
      if v.Admit? {
        env := env.(handshaking := env.handshaking + {c});
      }
    }

    method OnNewPeer(c: Conn) returns (v: Verdict)
      requires dialer.Valid()
      modifies this
      ensures dialer.Valid() && State() == OnAddPeer(old(State()), c)
      ensures v == ProtoHandshakeChecks(old(State()), c)
    {
      if cfg.hasProtocols && c.matching == 0 {
        v := DiscUselessPeer;
      } else {
        v := CheckEnc(c);
      }
      if v.Admit? {
        peers := peers[c.id := c.flags];
        inboundCount := if c.flags.inbound then inboundCount + 1 else inboundCount;
        env := env.(handshaking := env.handshaking - {c},
                    runners := env.runners + multiset{Runner(c.id, c.flags.inbound)},
                    admitted := env.admitted[c.id := c.flags]);
      } else {
        env := env.(handshaking := env.handshaking - {c});
      }
    }

    method OnDrop(r: Runner)
      requires dialer.Valid()
      modifies this`peers, this`inboundCount, this`env
      ensures dialer.Valid() && State() == OnDelPeer(old(State()), r)
    {
      ghost var dial := dialer.State();
      peers := peers - {r.id};
      inboundCount := if r.inbound then inboundCount - 1 else inboundCount;
      env := env.(runners := env.runners - multiset{r}, admitted := env.admitted - {r.id});
      assert dialer.State() == dial;
    }

    method Trust(id: NodeID, val: bool)
      requires dialer.Valid()
      modifies this
      ensures dialer.Valid()
      ensures State() == old(State()).(trusted := if val then old(trusted) + {id} else old(trusted) - {id},
                                       peers := SetTrusted(old(peers), id, val))
    {
      if val {
        trusted := trusted + {id};
      } else {
        trusted := trusted - {id};
      }
      if id in peers {
        peers := peers[id := peers[id].(trusted := val)];
      }
    }

    /** The body of one `select` case. */
    method Receive(e: Event, at: Time)
      requires Valid() && LoopEvent(e) && Arrives(State(), e) && env.clock == at
      modifies this, dialer, dialer.hist
      ensures dialer.Valid() && State() == Handle(old(State()), e, at)
    {
      hide Core, OnTaskReceived, OnPostHandshake, OnAddPeer, OnDelPeer, SetTrusted, RemoveStatic, AddStatic;
      assert State().(clock := at) == State();
      match e {
        case AddStaticNode(n) => dialer.AddStaticNode(n);
        case RemoveStaticNode(n) =>
          dialer.RemoveStaticNode(n);
          env := env.(cooldown := env.cooldown - {n.id});
        case AddTrusted(id) => Trust(id, true);
        case RemoveTrusted(id) => Trust(id, false);
        case PeerOp =>
        case TaskReceived(t, results) => OnTask(t, results, at);
        case PostHandshake(c) => var _ := OnHandshake(c);
        case AddPeer(c) => var _ := OnNewPeer(c);
        case DelPeer(r) => OnDrop(r);
      }
    }

    /** One iteration of the loop: receive an event, then schedule.  The step it takes is one of
        the specification, so the invariant of ServerLoop holds again. */
    method Iterate(e: Event, at: Time, now: Time, random: seq<Node>) returns (ghost st: Step)
      requires Valid() && Scheduled(State())
      requires LoopEvent(e) && Arrives(State(), e) && env.clock <= at <= now
      modifies this, dialer, dialer.hist
      ensures st.event == e && st.at == at && st.now == now && Enabled(old(State()), st)
      ensures State() == Next(old(State()), st)
      ensures Valid() && Scheduled(State())
    {
      hide Core, Scheduled, Handle, Schedule, Arrives, Enumerates;
      ghost var s0 := State();
      env := env.(clock := at);
      ClockKeepsCore(s0, at);
      ClockIrrelevant(s0, e, at);
      Receive(e, at);
      HandledCore(s0, e, at);
      StaticKeysHandled(s0, e, at);
      st := ScheduleTasks(now, random, e, at);
    }
  }

  lemma {:induction false} RemoveFirstAt(ts: seq<Task>, t: Task, i: nat)
    requires i < |ts| && ts[i] == t && forall k :: 0 <= k < i ==> ts[k] != t
    ensures RemoveFirst(ts, t) == ts[..i] + ts[i + 1..]
    decreases i
  {
    if i > 0 {
      var rest := ts[1..];
      RemoveFirstAt(rest, t, i - 1);
      assert rest[..i - 1] == ts[1..i] && rest[i..] == ts[i + 1..];
      assert [ts[0]] + ts[1..i] == ts[..i];
    }
  }

  lemma {:induction false} RemoveFirstAbsent(ts: seq<Task>, t: Task)
    requires t !in ts
    ensures RemoveFirst(ts, t) == ts
  {
    if ts != [] {
      RemoveFirstAbsent(ts[1..], t);
    }
  }

  /** A finished dial task is live, so its node is in `dialing` and not in the history. */
  lemma LiveDialListed(s: ServerState, t: Task)
    requires Core(s) && t in s.done
    ensures t.Dial? ==> t.id in s.dial.dialing && t.id !in s.dial.hist
  {
    assert t in Live(s);
  }

  lemma ClockIrrelevant(s: ServerState, e: Event, at: Time)
    requires Arrives(s, e)
    ensures Arrives(s.(clock := at), e) && Handle(s.(clock := at), e, at) == Handle(s, e, at)
  {
    hide OnTaskReceived, OnPostHandshake, OnAddPeer, OnDelPeer, SetTrusted, RemoveStatic, AddStatic;
    assert Active(s.(clock := at)) == Active(s);
  }

  lemma HandledCore(s: ServerState, e: Event, at: Time)
    requires Core(s) && Arrives(s, e) && s.clock <= at
    ensures Core(Handle(s, e, at)) && Handle(s, e, at).clock == at
  {
    hide Core, Handle, Arrives;
    HandleKeepsCore(s, e, at);
  }

  lemma StaticKeysHandled(s: ServerState, e: Event, at: Time)
    requires LoopEvent(e)
    ensures Handle(s, e, at).dial.statics.Keys == StaticKeysAfter(s, e)
  {
    hide EncHandshakeChecks, ProtoHandshakeChecks, SetTrusted, RemoveFirst;
  }
}
