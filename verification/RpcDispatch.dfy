/** The dispatch loop of the JSON-RPC client: who may write, who owns a response channel, and when
    channels are sent on and closed. */
module RpcDispatch {
  import opened Common

  type Id = string

  type Error = string

  /** A request operation and its response channel. `sent` lists the ids whose responses were put
      on the channel, `closes` counts how often it was closed, `byClient` tells whether the client
      closed it in `closeRequestOps`, and `failed` whether its write failed. */
  datatype Op = Op(ids: seq<Id>, sub: bool, sent: seq<Id>, closes: nat, err: Option<Error>,
                   byClient: bool, failed: bool)

  /** The loop's state. `writers` are the senders between acceptance and completion of their write,
      `sendDone` is the channel of that name, which holds one element. `fault` is raised by a
      send on a closed or full channel and by closing a channel twice. */
  datatype Client = Client(ops: seq<Op>, respWait: map<Id, nat>, locked: bool, lastOp: Option<nat>,
                           writers: set<nat>, sendDone: seq<Option<Error>>, quit: bool, fault: bool)

  const START := Client([], map[], false, None, {}, [], false, false)

  const ERR_CLIENT_QUIT: Error := "client is closed"

  /** The buffer of a response channel: one place for each id, none for subscriptions. */
  function Capacity(op: Op): nat {
    if op.sub then 0 else |op.ids|
  }

  // ------------------------------------------------------------------- the loop

  datatype Message = Response(id: Id, error: Option<Error>) | Notification | Weird

  function HandleResponse(c: Client, id: Id, error: Option<Error>): Client
    requires forall i :: i in c.respWait ==> c.respWait[i] < |c.ops|
  {
    if id !in c.respWait then c
    else
      var r := c.respWait[id];
      var op := c.ops[r];
      if !op.sub then
        c.(respWait := c.respWait - {id}, ops := c.ops[r := op.(sent := op.sent + [id])],
           fault := c.fault || op.closes > 0 || |op.sent| >= Capacity(op))
      else
        c.(respWait := c.respWait - {id}, ops := c.ops[r := op.(err := error, closes := op.closes + 1)],
           fault := c.fault || op.closes > 0)
  }

  function Handle(c: Client, m: Message): Client
    requires forall i :: i in c.respWait ==> c.respWait[i] < |c.ops|
  {
    if m.Response? then HandleResponse(c, m.id, m.error) else c
  }

  function HandleBatch(c: Client, batch: seq<Message>): (c': Client)
    requires forall i :: i in c.respWait ==> c.respWait[i] < |c.ops|
    ensures |c'.ops| == |c.ops| && forall i :: i in c'.respWait ==> c'.respWait[i] < |c'.ops|
  {
    if batch == [] then c else Handle(HandleBatch(c, batch[..|batch| - 1]), batch[|batch| - 1])
  }

  /** `closeRequestOps` over the ids in some order: each operation found is closed, once. */
  datatype Closing = Closing(c: Client, did: set<nat>)

  function CloseOne(s: Closing, id: Id, err: Error): Closing
    requires forall i :: i in s.c.respWait ==> s.c.respWait[i] < |s.c.ops|
  {
    if id !in s.c.respWait then s
    else
      var r := s.c.respWait[id];
      var c1 := s.c.(respWait := s.c.respWait - {id});
      if r in s.did then Closing(c1, s.did)
      else
        var op := c1.ops[r];
        Closing(c1.(ops := c1.ops[r := op.(err := Some(err), closes := op.closes + 1, byClient := true)],
                    fault := c1.fault || op.closes > 0),
                s.did + {r})
  }

  function CloseEach(c: Client, order: seq<Id>, err: Error): (s: Closing)
    requires forall i :: i in c.respWait ==> c.respWait[i] < |c.ops|
    ensures |s.c.ops| == |c.ops| && forall i :: i in s.c.respWait ==> s.c.respWait[i] < |s.c.ops|
  {
    if order == [] then Closing(c, {})
    else CloseOne(CloseEach(c, order[..|order| - 1], err), order[|order| - 1], err)
  }

  function CloseRequestOps(c: Client, order: seq<Id>, err: Error): Client
    requires forall i :: i in c.respWait ==> c.respWait[i] < |c.ops|
  {
    CloseEach(c, order, err).c
  }

  function Register(respWait: map<Id, nat>, ids: seq<Id>, r: nat): map<Id, nat> {
    if ids == [] then respWait else Register(respWait, ids[..|ids| - 1], r)[ids[|ids| - 1] := r]
  }

  function Deregister(respWait: map<Id, nat>, ids: seq<Id>): map<Id, nat> {
    map i | i in respWait && i !in ids :: respWait[i]
  }

  datatype Step =
    | Submit(ids: seq<Id>, sub: bool)
    | FinishWrite(r: nat, werr: Option<Error>)
    | SendDone
    | ReadResp(batch: seq<Message>)
    | ReadErr(order: seq<Id>, err: Error)
    | Close(order: seq<Id>)

  ghost predicate NoRepeats(ids: seq<Id>) {
    forall i, j :: 0 <= i < j < |ids| ==> ids[i] != ids[j]
  }

  /** Ids are never reused. */
  ghost predicate UniqueIds(c: Client, ids: seq<Id>) {
    NoRepeats(ids) && forall r, k :: 0 <= r < |c.ops| && 0 <= k < |c.ops[r].ids| ==> c.ops[r].ids[k] !in ids
  }

  ghost predicate Covers(respWait: map<Id, nat>, order: seq<Id>) {
    forall i :: i in respWait ==> i in order
  }

  ghost predicate Enabled(c: Client, step: Step) {
    match step
    case Submit(ids, sub) => !c.quit && !c.locked && UniqueIds(c, ids) && (sub ==> |ids| == 1)
    case FinishWrite(r, werr) => r in c.writers
    case SendDone => !c.quit && c.sendDone != []
    case ReadResp(batch) => !c.quit
    case ReadErr(order, err) => !c.quit && Covers(c.respWait, order)
    case Close(order) => !c.quit && Covers(c.respWait, order)
  }

  ghost predicate Refs(c: Client) {
    && (forall i :: i in c.respWait ==> c.respWait[i] < |c.ops|)
    && (c.lastOp.Some? ==> c.lastOp.value < |c.ops|)
    && (c.sendDone != [] && !c.quit ==> c.lastOp.Some?)
  }

  function Next(c: Client, step: Step): Client
    requires Refs(c)
    requires step.SendDone? ==> !c.quit && c.sendDone != []
  {
    match step
    case Submit(ids, sub) =>
      var r := |c.ops|;
      c.(ops := c.ops + [Op(ids, sub, [], 0, None, false, false)], respWait := Register(c.respWait, ids, r),
         locked := true, lastOp := Some(r), writers := c.writers + {r})
    case FinishWrite(r, werr) =>
      c.(writers := c.writers - {r}, sendDone := c.sendDone + [werr], fault := c.fault || |c.sendDone| >= 1)
    case SendDone =>
      var r := c.lastOp.value;
      var c1 := if c.sendDone[0].Some? then
                  c.(respWait := Deregister(c.respWait, c.ops[r].ids), ops := c.ops[r := c.ops[r].(failed := true)])
                else c;
      c1.(sendDone := c.sendDone[1..], locked := false, lastOp := None)
    case ReadResp(batch) => HandleBatch(c, batch)
    case ReadErr(order, err) => CloseRequestOps(c, order, err)
    case Close(order) => CloseRequestOps(c, order, ERR_CLIENT_QUIT).(quit := true)
  }

  // ----------------------------------------------------------------- invariants

  ghost predicate SendLock(c: Client) {
    && (c.locked <==> c.lastOp.Some?)
    && |c.writers| + |c.sendDone| <= 1
    && (c.writers != {} || c.sendDone != [] ==> c.locked)
    && (forall r :: r in c.writers ==> c.lastOp == Some(r))
  }

  ghost predicate IdsApart(ops: seq<Op>) {
    && (forall r :: 0 <= r < |ops| ==> NoRepeats(ops[r].ids))
    && (forall r, q, id :: 0 <= r < |ops| && 0 <= q < |ops| && id in ops[r].ids && id in ops[q].ids ==> r == q)
  }

  ghost predicate Waiting(respWait: map<Id, nat>, ops: seq<Op>) {
    forall id :: id in respWait ==> respWait[id] < |ops| && id in ops[respWait[id]].ids && ops[respWait[id]].closes == 0
  }

  /** Answered ids are different, and nobody waits for them any more. */
  ghost predicate Answered(respWait: map<Id, nat>, op: Op) {
    NoRepeats(op.sent) && forall id :: id in op.sent ==> id in op.ids && id !in respWait
  }

  ghost predicate ClosedWell(op: Op) {
    && op.closes <= 1
    && (op.byClient ==> op.closes == 1 && op.err.Some?)
    && (!op.sub && op.closes == 1 ==> op.byClient)
    && (op.sub ==> |op.ids| == 1 && op.sent == [])
  }

  /** Every id is waited for, or answered, or its operation is closed or was never written. */
  ghost predicate Accounted(respWait: map<Id, nat>, op: Op) {
    forall id :: id in op.ids ==> id in respWait || id in op.sent || op.closes == 1 || op.failed
  }

  ghost predicate OpOk(respWait: map<Id, nat>, op: Op) {
    Answered(respWait, op) && ClosedWell(op) && Accounted(respWait, op)
  }

  ghost predicate Channels(respWait: map<Id, nat>, ops: seq<Op>) {
    && IdsApart(ops)
    && Waiting(respWait, ops)
    && (forall r :: 0 <= r < |ops| ==> OpOk(respWait, ops[r]))
  }

  ghost predicate Inv(c: Client) {
    && Refs(c)
    && SendLock(c)
    && Channels(c.respWait, c.ops)
    && (c.quit ==> c.respWait == map[])
    && !c.fault
  }

  // -------------------------------------------------------------------- the send path

  lemma {:induction false} RegisterLookup(respWait: map<Id, nat>, ids: seq<Id>, r: nat, i: Id)
    ensures i in Register(respWait, ids, r) <==> i in respWait || i in ids
    ensures i in ids ==> Register(respWait, ids, r)[i] == r
    ensures i in respWait && i !in ids ==> Register(respWait, ids, r)[i] == respWait[i]
  {
    if ids != [] {
      RegisterLookup(respWait, ids[..|ids| - 1], r, i);
      assert ids == ids[..|ids| - 1] + [ids[|ids| - 1]];
    }
  }

  lemma RegisteredIds(c: Client, ids: seq<Id>)
    requires Channels(c.respWait, c.ops) && UniqueIds(c, ids)
    ensures var w' := Register(c.respWait, ids, |c.ops|);
            && (forall i :: i in w' <==> i in c.respWait || i in ids)
            && (forall i :: i in w' ==> w'[i] == if i in ids then |c.ops| else c.respWait[i])
  {
    var w' := Register(c.respWait, ids, |c.ops|);
    forall i: Id
      ensures i in w' <==> i in c.respWait || i in ids
      ensures i in w' ==> w'[i] == if i in ids then |c.ops| else c.respWait[i]
    {
      RegisterLookup(c.respWait, ids, |c.ops|, i);
    }
  }

  lemma NewIdsAreNew(c: Client, ids: seq<Id>, r: nat, id: Id)
    requires UniqueIds(c, ids) && r < |c.ops| && id in c.ops[r].ids
    ensures id !in ids
  {
    var k :| 0 <= k < |c.ops[r].ids| && c.ops[r].ids[k] == id;
  }

  lemma SubmitKeepsIdsApart(c: Client, op: Op)
    requires IdsApart(c.ops) && UniqueIds(c, op.ids)
    ensures IdsApart(c.ops + [op])
  {
    forall r, id | 0 <= r < |c.ops| && id in c.ops[r].ids
      ensures id !in op.ids
    {
      NewIdsAreNew(c, op.ids, r, id);
    }
  }

  lemma SubmitKeepsOp(c: Client, ids: seq<Id>, r: nat)
    requires Channels(c.respWait, c.ops) && UniqueIds(c, ids) && r < |c.ops|
    ensures OpOk(Register(c.respWait, ids, |c.ops|), c.ops[r])
  {
    hide Register, UniqueIds;
    RegisteredIds(c, ids);
    assert OpOk(c.respWait, c.ops[r]);
    forall id | id in c.ops[r].ids
      ensures id !in ids
    {
      NewIdsAreNew(c, ids, r, id);
    }
  }

  lemma SubmitKeepsChannels(c: Client, ids: seq<Id>, sub: bool)
    requires Channels(c.respWait, c.ops) && UniqueIds(c, ids) && (sub ==> |ids| == 1)
    ensures Channels(Register(c.respWait, ids, |c.ops|), c.ops + [Op(ids, sub, [], 0, None, false, false)])
  {
    hide Register, UniqueIds, OpOk;
    var op := Op(ids, sub, [], 0, None, false, false);
    var w' := Register(c.respWait, ids, |c.ops|);
    SubmitKeepsIdsApart(c, op);
    RegisteredIds(c, ids);
    forall r | 0 <= r < |c.ops|
      ensures OpOk(w', c.ops[r])
    {
      SubmitKeepsOp(c, ids, r);
    }
    NewOpOk(w', op);
  }

  lemma NewOpOk(respWait: map<Id, nat>, op: Op)
    requires op == Op(op.ids, op.sub, [], 0, None, false, false)
    requires (op.sub ==> |op.ids| == 1) && forall id :: id in op.ids ==> id in respWait
    ensures OpOk(respWait, op)
  {
  }

  lemma SendDoneKeepsChannels(respWait: map<Id, nat>, ops: seq<Op>, r: nat)
    requires Channels(respWait, ops) && r < |ops|
    ensures Channels(Deregister(respWait, ops[r].ids), ops[r := ops[r].(failed := true)])
  {
    var w', ops' := Deregister(respWait, ops[r].ids), ops[r := ops[r].(failed := true)];
    forall q | 0 <= q < |ops'|
      ensures OpOk(w', ops'[q])
    {
      assert OpOk(respWait, ops[q]);
      forall id | id in ops[q].ids && id in respWait
        ensures id in w' || ops'[q].failed
      {
      }
    }
  }

  // -------------------------------------------------------------------- the read path

  lemma {:induction false} DistinctFit(a: seq<Id>, b: seq<Id>)
    requires NoRepeats(a) && forall x :: x in a ==> x in b
    ensures |a| <= |b|
  {
    if a != [] {
      var last := |a| - 1;
      var x := a[last];
      assert x in b;
      var k :| 0 <= k < |b| && b[k] == x;
      var rest := b[..k] + b[k + 1..];
      forall y | y in a[..last]
        ensures y in rest
      {
        var i :| 0 <= i < last && a[i] == y;
        assert y in b;
        var j :| 0 <= j < |b| && b[j] == y;
        assert rest[if j < k then j else j - 1] == y;
      }
      DistinctFit(a[..last], rest);
    }
  }

  /** There is room for a response that is waited for. */
  lemma RoomForResponse(respWait: map<Id, nat>, op: Op, id: Id)
    requires Answered(respWait, op) && id in respWait && id in op.ids
    ensures |op.sent| < |op.ids|
    ensures NoRepeats(op.sent + [id])
  {
    DistinctFit(op.sent + [id], op.ids);
  }

  lemma AnswerKeepsOp(respWait: map<Id, nat>, op: Op, id: Id)
    requires OpOk(respWait, op) && id in respWait && id in op.ids && !op.sub && op.closes == 0
    ensures |op.sent| < Capacity(op) && OpOk(respWait - {id}, op.(sent := op.sent + [id]))
  {
    RoomForResponse(respWait, op, id);
  }

  lemma CloseSubKeepsOp(respWait: map<Id, nat>, op: Op, id: Id, error: Option<Error>)
    requires OpOk(respWait, op) && id in respWait && op.sub && op.closes == 0
    ensures OpOk(respWait - {id}, op.(err := error, closes := op.closes + 1))
  {
  }

  lemma ResponseKeepsChannels(c: Client, id: Id, error: Option<Error>)
    requires Channels(c.respWait, c.ops) && !c.fault && id in c.respWait
    ensures var c' := HandleResponse(c, id, error);
            Channels(c'.respWait, c'.ops) && !c'.fault
  {
    hide Channels, OpOk;
    WaitingRefs(c.respWait, c.ops);
    NotYetClosed(c, id);
    var op := c.ops[c.respWait[id]];
    if op.sub {
      OnlyIdGone(c, id);
      CloseSubKeepsOp(c.respWait, op, id, error);
      ReplaceOp(c.respWait, c.ops, id, op.(err := error, closes := op.closes + 1));
    } else {
      AnswerKeepsOp(c.respWait, op, id);
      ReplaceOp(c.respWait, c.ops, id, op.(sent := op.sent + [id]));
    }
  }

  /** After one id has been dealt with, only the operation it belonged to needs a look. */
  lemma ReplaceOp(respWait: map<Id, nat>, ops: seq<Op>, id: Id, op: Op)
    requires Channels(respWait, ops) && id in respWait
    requires op.ids == ops[respWait[id]].ids && OpOk(respWait - {id}, op)
    requires op.closes == 0 || forall i :: i in respWait && respWait[i] == respWait[id] ==> i == id
    ensures Channels(respWait - {id}, ops[respWait[id] := op])
  {
    var r, w' := respWait[id], respWait - {id};
    var ops' := ops[r := op];
    forall q | 0 <= q < |ops'|
      ensures OpOk(w', ops'[q])
    {
      assert OpOk(respWait, ops[q]);
      if q != r {
        assert id in ops[r].ids;
        assert id !in ops[q].ids;
      }
    }
    assert IdsApart(ops') by {
      assert forall q :: 0 <= q < |ops| ==> ops'[q].ids == ops[q].ids;
    }
  }

  /** The one id of a subscription is no longer waited for. */
  lemma OnlyIdGone(c: Client, id: Id)
    requires Channels(c.respWait, c.ops) && id in c.respWait && c.ops[c.respWait[id]].sub
    ensures forall i :: i in c.respWait && c.respWait[i] == c.respWait[id] ==> i == id
  {
    var op := c.ops[c.respWait[id]];
    assert OpOk(c.respWait, op);
    assert op.ids == [op.ids[0]];
  }

  lemma {:induction false} BatchKeepsChannels(c: Client, batch: seq<Message>)
    requires Channels(c.respWait, c.ops) && !c.fault
    ensures var c' := HandleBatch(c, batch);
            && Channels(c'.respWait, c'.ops) && !c'.fault
            && c' == c.(ops := c'.ops, respWait := c'.respWait)
  {
    hide Channels, OpOk;
    WaitingRefs(c.respWait, c.ops);
    if batch != [] {
      var before, m := batch[..|batch| - 1], batch[|batch| - 1];
      BatchKeepsChannels(c, before);
      var c1 := HandleBatch(c, before);
      if m.Response? && m.id in c1.respWait {
        ResponseKeepsChannels(c1, m.id, m.error);
      }
    }
  }

  lemma WaitingRefs(respWait: map<Id, nat>, ops: seq<Op>)
    requires Channels(respWait, ops)
    ensures forall i :: i in respWait ==> respWait[i] < |ops|
  {
  }

  // ------------------------------------------------------------------------- closing

  function ClosedOp(op: Op, err: Error): Op {
    op.(err := Some(err), closes := op.closes + 1, byClient := true)
  }

  /** The operations that some id of `order` waits for. */
  ghost predicate Touched(respWait: map<Id, nat>, order: seq<Id>, r: nat) {
    exists i :: i in order && i in respWait && respWait[i] == r
  }

  /** The state of the loop after the ids of `order`. */
  ghost predicate ClosedSoFar(c: Client, order: seq<Id>, err: Error, s: Closing) {
    && s.c == c.(ops := s.c.ops, respWait := s.c.respWait)
    && (forall i :: i in s.c.respWait <==> i in c.respWait && i !in order)
    && (forall i :: i in s.c.respWait ==> s.c.respWait[i] == c.respWait[i])
    && |s.c.ops| == |c.ops|
    && (forall r: nat :: r in s.did <==> Touched(c.respWait, order, r))
    && (forall r :: 0 <= r < |c.ops| ==>
         s.c.ops[r] == if r in s.did then ClosedOp(c.ops[r], err) else c.ops[r])
  }

  /** Whatever the order in which the map is ranged over, each operation that is waited for is
      closed once, and no other. */
  lemma {:induction false} CloseEachClosesOnce(c: Client, order: seq<Id>, err: Error)
    requires Channels(c.respWait, c.ops) && !c.fault
    ensures ClosedSoFar(c, order, err, CloseEach(c, order, err))
  {
    if order != [] {
      hide Channels, OpOk, ClosedSoFar;
      WaitingRefs(c.respWait, c.ops);
      var before, id := order[..|order| - 1], order[|order| - 1];
      CloseEachClosesOnce(c, before, err);
      assert order == before + [id];
      CloseOneMore(c, before, id, err, CloseEach(c, before, err));
    }
  }

  lemma TouchedAppend(respWait: map<Id, nat>, before: seq<Id>, id: Id, q: nat)
    ensures Touched(respWait, before + [id], q)
            <==> Touched(respWait, before, q) || (id in respWait && respWait[id] == q)
  {
    var order := before + [id];
    if Touched(respWait, before, q) {
      var i :| i in before && i in respWait && respWait[i] == q;
      assert i in order;
    }
    assert id in order;
  }

  lemma CloseOneMore(c: Client, before: seq<Id>, id: Id, err: Error, s: Closing)
    requires Channels(c.respWait, c.ops) && !c.fault && ClosedSoFar(c, before, err, s)
    ensures ClosedSoFar(c, before + [id], err, CloseOne(s, id, err))
  {
    hide Channels, Touched;
    WaitingRefs(c.respWait, c.ops);
    var order, s' := before + [id], CloseOne(s, id, err);
    forall q: nat
      ensures Touched(c.respWait, order, q)
              <==> Touched(c.respWait, before, q) || (id in c.respWait && c.respWait[id] == q)
    {
      TouchedAppend(c.respWait, before, id, q);
    }
    if id in s.c.respWait {
      NotYetClosed(c, id);
    } else if id in c.respWait {
      AlreadyTouched(c.respWait, before, id);
    }
  }

  lemma AlreadyTouched(respWait: map<Id, nat>, before: seq<Id>, id: Id)
    requires id in before && id in respWait
    ensures Touched(respWait, before, respWait[id])
  {
  }

  lemma NotYetClosed(c: Client, id: Id)
    requires Channels(c.respWait, c.ops) && id in c.respWait
    ensures var op := c.ops[c.respWait[id]];
            op.closes == 0 && id in op.ids && OpOk(c.respWait, op)
  {
  }

  lemma CloseKeepsChannels(c: Client, order: seq<Id>, err: Error)
    requires Channels(c.respWait, c.ops) && !c.fault && Covers(c.respWait, order)
    ensures var c' := CloseRequestOps(c, order, err);
            && Channels(c'.respWait, c'.ops) && c'.respWait == map[] && |c'.ops| == |c.ops|
            && c' == c.(ops := c'.ops, respWait := c'.respWait)
  {
    CloseEachClosesOnce(c, order, err);
    WaitingRefs(c.respWait, c.ops);
    var s := CloseEach(c, order, err);
    forall r | 0 <= r < |s.c.ops|
      ensures OpOk(s.c.respWait, s.c.ops[r])
    {
      assert OpOk(c.respWait, c.ops[r]);
      if r in s.did {
        var i :| i in order && i in c.respWait && c.respWait[i] == r;
        NotYetClosed(c, i);
      } else {
        forall id | id in c.ops[r].ids
          ensures id !in c.respWait
        {
          UntouchedNotWaiting(c, order, r, id);
        }
      }
    }
  }

  /** An operation that was not closed had no id left to wait for. */
  lemma UntouchedNotWaiting(c: Client, order: seq<Id>, r: nat, id: Id)
    requires Channels(c.respWait, c.ops) && Covers(c.respWait, order) && r < |c.ops| && id in c.ops[r].ids
    requires !Touched(c.respWait, order, r)
    ensures id !in c.respWait
  {
  }

  // ------------------------------------------------------------------------- every run

  lemma NextKeepsInv(c: Client, step: Step)
    requires Inv(c) && Enabled(c, step)
    ensures Inv(Next(c, step))
  {
    hide Channels, UniqueIds, Covers, HandleBatch, CloseRequestOps, Register, Deregister;
    match step
    case Submit(ids, sub) =>
      SubmitKeepsChannels(c, ids, sub);
      SubmitKeepsRefs(c, ids, sub);
    case FinishWrite(r, werr) =>
      FinishWriteKeepsLock(c, r, werr);
    case SendDone =>
      SendDoneKeepsChannels(c.respWait, c.ops, c.lastOp.value);
      WaitingRefs(Next(c, step).respWait, Next(c, step).ops);
    case ReadResp(batch) =>
      BatchKeepsChannels(c, batch);
    case ReadErr(order, err) =>
      CloseKeepsChannels(c, order, err);
    case Close(order) =>
      CloseKeepsChannels(c, order, ERR_CLIENT_QUIT);
  }

  lemma SubmitKeepsRefs(c: Client, ids: seq<Id>, sub: bool)
    requires Inv(c) && Enabled(c, Submit(ids, sub))
    ensures Refs(Next(c, Submit(ids, sub))) && SendLock(Next(c, Submit(ids, sub)))
  {
    SubmitKeepsChannels(c, ids, sub);
    var c' := Next(c, Submit(ids, sub));
    WaitingRefs(c'.respWait, c'.ops);
    assert c.writers == {};
  }

  lemma FinishWriteKeepsLock(c: Client, r: nat, werr: Option<Error>)
    requires Inv(c) && r in c.writers
    ensures var c' := Next(c, FinishWrite(r, werr));
            SendLock(c') && Refs(c') && !c'.fault
  {
    var c' := Next(c, FinishWrite(r, werr));
    assert |c'.writers| == |c.writers| - 1;
  }

  ghost predicate Legal(c: Client, steps: seq<Step>)
    requires Inv(c)
    decreases |steps|
  {
    steps != [] ==> Enabled(c, steps[0]) && (NextKeepsInv(c, steps[0]); Legal(Next(c, steps[0]), steps[1..]))
  }

  ghost function Run(c: Client, steps: seq<Step>): (c': Client)
    requires Inv(c) && Legal(c, steps)
    ensures Inv(c')
    decreases |steps|
  {
    if steps == [] then c else NextKeepsInv(c, steps[0]); Run(Next(c, steps[0]), steps[1..])
  }

  /** What a waiter finds on a closed channel: no response, and the error of the operation. */
  function WaitResult(op: Op): Option<Error>
    requires op.closes > 0
  {
    op.err
  }

  lemma StartHasInv()
    ensures Inv(START)
  {
  }

  /** In every run: at most one writer holds the send lock; no send blocks, no closed channel is
      sent on or closed again; each channel receives at most one message per id and is closed at
      most once; and a waiter whose channel the client closed sees an error. */
  lemma EveryRunIsSafe(steps: seq<Step>)
    requires (StartHasInv(); Legal(START, steps))
    ensures var c := (StartHasInv(); Run(START, steps));
            && |c.writers| <= 1 && |c.sendDone| <= 1 && !c.fault
            && forall r :: 0 <= r < |c.ops| ==>
                 && |c.ops[r].sent| <= |c.ops[r].ids|
                 && c.ops[r].closes <= 1
                 && (c.ops[r].closes > 0 && (c.ops[r].byClient || !c.ops[r].sub) ==> WaitResult(c.ops[r]).Some?)
  {
    StartHasInv();
    var c := Run(START, steps);
    forall r | 0 <= r < |c.ops|
      ensures |c.ops[r].sent| <= |c.ops[r].ids|
    {
      assert OpOk(c.respWait, c.ops[r]);
      DistinctFit(c.ops[r].sent, c.ops[r].ids);
    }
  }

  /** After the client has quit nobody waits in vain: every operation has had all its responses,
      or its channel is closed, or its sender knows that the write failed. */
  lemma NobodyIsForgotten(c: Client, r: nat)
    requires Inv(c) && c.quit && r < |c.ops|
    ensures c.ops[r].closes == 1 || c.ops[r].failed || forall id :: id in c.ops[r].ids ==> id in c.ops[r].sent
  {
    assert OpOk(c.respWait, c.ops[r]);
  }

  // ------------------------------------------------------------ who gets an answer

  /** The response to an id that is waited for: a call has it in its channel, a subscription has its
      channel closed with the error of the response; the id is no longer waited for, and nothing
      else changes. */
  ghost predicate AnswerArrives(c: Client, c': Client, id: Id, error: Option<Error>)
    requires id in c.respWait && c.respWait[id] < |c.ops|
  {
    var r := c.respWait[id];
    var op := c.ops[r];
    && c' == c.(ops := c'.ops, respWait := c'.respWait)
    && |c'.ops| == |c.ops| && (forall q :: 0 <= q < |c.ops| && q != r ==> c'.ops[q] == c.ops[q])
    && (forall i :: i in c'.respWait <==> i in c.respWait && i != id)
    && (forall i :: i in c'.respWait ==> c'.respWait[i] == c.respWait[i])
    && var op' := c'.ops[r];
    && op'.ids == op.ids && op'.sub == op.sub && op'.byClient == op.byClient && op'.failed == op.failed
    && (!op.sub ==> op'.sent == op.sent + [id] && op'.closes == op.closes && op'.err == op.err)
    && (op.sub ==> op'.closes == op.closes + 1 && op'.err == error && op'.sent == op.sent)
  }

  lemma ResponseIsDelivered(c: Client, id: Id, error: Option<Error>)
    requires Inv(c) && id in c.respWait
    ensures AnswerArrives(c, HandleResponse(c, id, error), id, error)
  {
    hide OpOk;
    NotYetClosed(c, id);
    ResponseKeepsChannels(c, id, error);
  }

  lemma OtherResponsesIgnored(c: Client, id: Id, error: Option<Error>)
    requires Inv(c) && id !in c.respWait
    ensures HandleResponse(c, id, error) == c
  {
  }

  /** Where the response of a call stands: waited for, in its channel, or neither. */
  datatype Place = Awaited | InChannel | Nowhere

  ghost predicate Stands(c: Client, r: nat, id: Id, place: Place) {
    && r < |c.ops| && !c.ops[r].sub && id in c.ops[r].ids
    && (id in c.ops[r].sent <==> place == InChannel)
    && (id in c.respWait <==> place == Awaited) && (place == Awaited ==> c.respWait[id] == r)
  }

  predicate Answers(m: Message, id: Id) { m.Response? && m.id == id }

  ghost predicate AnsweredIn(batch: seq<Message>, id: Id) {
    exists m :: m in batch && Answers(m, id)
  }

  /** A response moves an id from being awaited into the channel. */
  function Moved(place: Place, answered: bool): Place {
    if place == Awaited && answered then InChannel else place
  }

  lemma BatchKeepsInv(c: Client, batch: seq<Message>)
    requires Inv(c)
    ensures Inv(HandleBatch(c, batch))
  {
    hide Channels, HandleBatch;
    BatchKeepsChannels(c, batch);
    WaitingRefs(HandleBatch(c, batch).respWait, HandleBatch(c, batch).ops);
    BatchRefs(c, batch);
  }

  lemma BatchRefs(c: Client, batch: seq<Message>)
    requires Inv(c)
    ensures |HandleBatch(c, batch).ops| == |c.ops| && (c.quit ==> HandleBatch(c, batch).respWait == map[])
  {
    hide Channels;
    if c.quit {
      NobodyAnswered(c, batch);
    }
  }

  lemma {:induction false} NobodyAnswered(c: Client, batch: seq<Message>)
    requires Refs(c) && c.respWait == map[]
    ensures HandleBatch(c, batch) == c
  {
    if batch != [] {
      NobodyAnswered(c, batch[..|batch| - 1]);
    }
  }

  lemma HandleStands(c: Client, m: Message, r: nat, id: Id, place: Place)
    requires Inv(c) && Stands(c, r, id, place)
    ensures Stands(Handle(c, m), r, id, Moved(place, Answers(m, id)))
  {
    hide Channels, OpOk, HandleResponse;
    if m.Response? {
      if m.id in c.respWait {
        ResponseIsDelivered(c, m.id, m.error);
      } else {
        OtherResponsesIgnored(c, m.id, m.error);
      }
    }
  }

  /** Every response in a batch to an id that a call waits for reaches that call; ids without a response
      in it are still waited for, and responses nobody waits for change nothing. */
  lemma {:induction false} BatchDelivers(c: Client, batch: seq<Message>, r: nat, id: Id, place: Place)
    requires Inv(c) && Stands(c, r, id, place)
    ensures Stands(HandleBatch(c, batch), r, id, Moved(place, AnsweredIn(batch, id)))
  {
    if batch != [] {
      hide Inv, Stands, Handle, HandleBatch, Answers;
      var before, m := batch[..|batch| - 1], batch[|batch| - 1];
      BatchDelivers(c, before, r, id, place);
      BatchKeepsInv(c, before);
      BatchLast(c, batch);
      HandleStands(HandleBatch(c, before), m, r, id, Moved(place, AnsweredIn(before, id)));
      assert batch == before + [m];
      assert AnsweredIn(batch, id) <==> AnsweredIn(before, id) || Answers(m, id);
    }
  }

  lemma PlaceOf(c: Client, r: nat, id: Id) returns (place: Place)
    requires Inv(c) && r < |c.ops| && !c.ops[r].sub && id in c.ops[r].ids
    ensures Stands(c, r, id, place)
  {
    assert OpOk(c.respWait, c.ops[r]);
    place := if id in c.respWait then Awaited else if id in c.ops[r].sent then InChannel else Nowhere;
    if id in c.respWait {
      assert id in c.ops[c.respWait[id]].ids;
    }
  }

  /** The step reads the response to an id while it is awaited. */
  ghost predicate ReadsAnswer(c: Client, step: Step, id: Id) {
    step.ReadResp? && id in c.respWait && AnsweredIn(step.batch, id)
  }

  /** A call gets the response to an id in exactly the steps that read it while it is awaited. */
  lemma SentIff(c: Client, step: Step, r: nat, id: Id)
    requires Inv(c) && Enabled(c, step) && r < |c.ops| && !c.ops[r].sub && id in c.ops[r].ids
    ensures var c' := Next(c, step);
            && r < |c'.ops| && !c'.ops[r].sub && c'.ops[r].ids == c.ops[r].ids
            && (id in c'.ops[r].sent <==> id in c.ops[r].sent || ReadsAnswer(c, step, id))
  {
    hide Channels, UniqueIds, Covers, HandleBatch, CloseEach, Register, Deregister, AnsweredIn;
    match step
    case ReadResp(batch) =>
      var place := PlaceOf(c, r, id);
      BatchDelivers(c, batch, r, id, place);
      BatchKeepsIds(c, batch, r);
    case ReadErr(order, err) => CloseEachClosesOnce(c, order, err);
    case Close(order) => CloseEachClosesOnce(c, order, ERR_CLIENT_QUIT);
    case _ =>
  }

  lemma {:induction false} BatchKeepsIds(c: Client, batch: seq<Message>, r: nat)
    requires Refs(c) && r < |c.ops|
    ensures |HandleBatch(c, batch).ops| == |c.ops| && HandleBatch(c, batch).ops[r].ids == c.ops[r].ids
  {
    if batch != [] {
      BatchKeepsIds(c, batch[..|batch| - 1], r);
    }
  }

  /** Some step of the run reads the response to the id while it is awaited. */
  ghost predicate ReadWhileAwaited(c: Client, steps: seq<Step>, id: Id)
    requires Inv(c) && Legal(c, steps)
    decreases |steps|
  {
    && steps != []
    && (|| ReadsAnswer(c, steps[0], id)
        || (NextKeepsInv(c, steps[0]); ReadWhileAwaited(Next(c, steps[0]), steps[1..], id)))
  }

  /** In every run a call has the response to an id exactly if it had it before or some step read it
      while the id was awaited; so a call whose responses are all read while it waits has them all. */
  lemma {:induction false} EveryResponseArrives(c: Client, steps: seq<Step>, r: nat, id: Id)
    requires Inv(c) && Legal(c, steps) && r < |c.ops| && !c.ops[r].sub && id in c.ops[r].ids
    ensures var c' := Run(c, steps);
            && r < |c'.ops|
            && (id in c'.ops[r].sent <==> id in c.ops[r].sent || ReadWhileAwaited(c, steps, id))
    decreases |steps|
  {
    if steps != [] {
      hide Inv, Enabled, Next, ReadsAnswer;
      NextKeepsInv(c, steps[0]);
      InvRefs(c, steps[0]);
      SentIff(c, steps[0], r, id);
      EveryResponseArrives(Next(c, steps[0]), steps[1..], r, id);
    }
  }

  lemma InvRefs(c: Client, step: Step)
    requires Inv(c) && Enabled(c, step)
    ensures Refs(c) && (step.SendDone? ==> !c.quit && c.sendDone != [])
  {
  }

  /** Some id of the operation is still waited for. */
  ghost predicate Waits(c: Client, r: nat) {
    exists id :: id in c.respWait && c.respWait[id] == r
  }

  /** When reading fails, and when the client quits, every operation that waits for a response is closed with the
      error, the others are as they were, and nothing is waited for any more. */
  lemma EndIsHeard(c: Client, step: Step)
    requires Inv(c) && Enabled(c, step) && (step.ReadErr? || step.Close?)
    ensures var c', err := Next(c, step), if step.ReadErr? then step.err else ERR_CLIENT_QUIT;
            && c' == c.(ops := c'.ops, respWait := map[], quit := step.Close?) && |c'.ops| == |c.ops|
            && forall r :: 0 <= r < |c.ops| ==>
                 var op, op' := c.ops[r], c'.ops[r];
                 if Waits(c, r)
                 then op'.closes == 1 && op'.byClient && op'.err == Some(err)
                      && op'.ids == op.ids && op'.sent == op.sent
                 else op' == op
  {
    hide Channels, Covers, CloseEach, ClosedSoFar, OpOk;
    var err := if step.ReadErr? then step.err else ERR_CLIENT_QUIT;
    CloseEachClosesOnce(c, step.order, err);
    CloseKeepsChannels(c, step.order, err);
    forall r | 0 <= r < |c.ops|
      ensures Next(c, step).ops[r] == if Waits(c, r) then ClosedOp(c.ops[r], err) else c.ops[r]
      ensures Waits(c, r) ==> c.ops[r].closes == 0
    {
      ClosedIffWaits(c, step.order, err, CloseEach(c, step.order, err), r);
    }
  }

  lemma ClosedIffWaits(c: Client, order: seq<Id>, err: Error, s: Closing, r: nat)
    requires Channels(c.respWait, c.ops) && Covers(c.respWait, order) && ClosedSoFar(c, order, err, s) && r < |c.ops|
    ensures s.c.ops[r] == if Waits(c, r) then ClosedOp(c.ops[r], err) else c.ops[r]
    ensures Waits(c, r) ==> c.ops[r].closes == 0
  {
    hide OpOk, IdsApart;
    if Waits(c, r) {
      var id :| id in c.respWait && c.respWait[id] == r;
      AlreadyTouched(c.respWait, order, id);
    }
  }

  /** A failed write is no longer waited for, its sender alone knows; a successful one is still waited
      for; and either way the send lock is free again. */
  lemma SendDoneEffect(c: Client)
    requires Inv(c) && Enabled(c, SendDone)
    ensures var c', r := Next(c, SendDone), c.lastOp.value;
            && !c'.locked && c'.sendDone == c.sendDone[1..]
            && (if c.sendDone[0].Some?
                then c'.ops[r].failed && forall id :: id in c'.respWait <==> id in c.respWait && id !in c.ops[r].ids
                else c'.respWait == c.respWait && c'.ops == c.ops)
  {
    hide Channels;
  }

  /** A fault is raised by a response to a closed channel or, for a call, a full one, by closing a channel that is
      closed, and by a write that ends while another waits to be heard of. */
  lemma FaultsAreRaised(c: Client, id: Id, error: Option<Error>, did: set<nat>, err: Error, r: nat, werr: Option<Error>)
    requires Refs(c) && id in c.respWait
    ensures var op := c.ops[c.respWait[id]];
            && (HandleResponse(c, id, error).fault <==>
                 c.fault || op.closes >= 1 || (!op.sub && |op.sent| >= |op.ids|))
            && (CloseOne(Closing(c, did), id, err).c.fault <==>
                 c.fault || (c.respWait[id] !in did && op.closes >= 1))
    ensures Next(c, FinishWrite(r, werr)).fault <==> c.fault || c.sendDone != []
  {
  }

  /** A finished write is heard of once, with its error, and its writer is done. */
  lemma FinishWriteEffect(c: Client, r: nat, werr: Option<Error>)
    requires Inv(c) && Enabled(c, FinishWrite(r, werr))
    ensures var c' := Next(c, FinishWrite(r, werr));
            c'.sendDone == [werr] && c'.writers == {} && c'.lastOp == Some(r) && c'.respWait == c.respWait && c'.locked
  {
    hide Channels;
    assert |c.writers| == 1;
    assert |c.writers - {r}| == 0;
  }

  /** An accepted operation is waited for under each of its ids and holds the send lock. */
  lemma SubmitEffect(c: Client, ids: seq<Id>, sub: bool)
    requires Inv(c) && Enabled(c, Submit(ids, sub))
    ensures var c', r := Next(c, Submit(ids, sub)), |c.ops|;
            && c'.ops == c.ops + [c'.ops[r]] && c'.ops[r].ids == ids && c'.ops[r].sub == sub && c'.ops[r].sent == []
            && c'.ops[r].closes == 0 && c'.locked && c'.lastOp == Some(r) && r in c'.writers
            && (forall id :: id in c'.respWait <==> id in c.respWait || id in ids)
            && (forall id :: id in c'.respWait ==> c'.respWait[id] == if id in ids then r else c.respWait[id])
  {
    hide Register, OpOk;
    RegisteredIds(c, ids);
  }

  lemma BatchLast(c: Client, batch: seq<Message>)
    requires Inv(c) && batch != []
    ensures HandleBatch(c, batch) == Handle(HandleBatch(c, batch[..|batch| - 1]), batch[|batch| - 1])
  {
  }

  // ---------------------------------------------------------------- subscriptions

  const MAX_CLIENT_SUBSCRIPTION_BUFFER: nat := 20000

  /** What the select of `forward` chooses. */
  datatype Choice = Quit | In(value: Option<int>) | Out

  datatype Ending = Running | Quitted | BadValue | Overflow

  datatype Forward = Forward(buffer: seq<int>, received: seq<int>, delivered: seq<int>, ending: Ending)

  predicate Possible(f: Forward, choice: Choice) {
    f.ending == Running && (choice.Out? ==> f.buffer != [])
  }

  function ForwardStep(f: Forward, choice: Choice): Forward
    requires Possible(f, choice)
  {
    match choice
    case Quit => f.(ending := Quitted)
    case In(value) =>
      if value.None? then f.(ending := BadValue)
      else
        var f1 := f.(received := f.received + [value.value]);
        if |f.buffer| == MAX_CLIENT_SUBSCRIPTION_BUFFER then f1.(ending := Overflow)
        else f1.(buffer := f.buffer + [value.value])
    case Out => f.(delivered := f.delivered + [f.buffer[0]], buffer := f.buffer[1..])
  }

  /** Nothing is lost or reordered between the buffer and the subscriber, apart from the value
      that overflows. */
  ghost predicate InOrder(f: Forward) {
    && |f.buffer| <= MAX_CLIENT_SUBSCRIPTION_BUFFER
    && (if f.ending == Overflow then
          |f.received| > 0 && f.delivered + f.buffer == f.received[..|f.received| - 1]
          && |f.buffer| == MAX_CLIENT_SUBSCRIPTION_BUFFER
        else f.delivered + f.buffer == f.received)
  }

  /** `forward` over a sequence of choices; the select is never offered an impossible one. */
  function ForwardRun(choices: seq<Choice>): Forward {
    if choices == [] then Forward([], [], [], Running)
    else
      var f := ForwardRun(choices[..|choices| - 1]);
      if Possible(f, choices[|choices| - 1]) then ForwardStep(f, choices[|choices| - 1]) else f
  }

  /** The values that come in, in order. */
  function InValues(choices: seq<Choice>): seq<int> {
    if choices == [] then []
    else
      var last := choices[|choices| - 1];
      InValues(choices[..|choices| - 1]) + if last.In? && last.value.Some? then [last.value.value] else []
  }

  /** For every behaviour of the subscription and its subscriber: what is delivered is a prefix of
      what came in, in order; nothing is missing while the loop runs; and the buffer holds at most
      20000 values. */
  lemma {:induction false} ForwardDeliversInOrder(choices: seq<Choice>)
    ensures var f := ForwardRun(choices);
            && InOrder(f) && f.delivered <= f.received <= InValues(choices)
            && (f.ending == Running ==> f.received == InValues(choices) && f.delivered + f.buffer == InValues(choices))
  {
    if choices != [] {
      var before, last := choices[..|choices| - 1], choices[|choices| - 1];
      ForwardDeliversInOrder(before);
      if Possible(ForwardRun(before), last) {
        StepKeepsOrder(ForwardRun(before), last);
      }
    }
  }

  /** What one more event does while the loop runs: a value is queued behind the others unless 20000 are queued,
      the subscriber gets the value that was queued first, and a quit, an unreadable value and a value too
      many end the loop; after the end nothing happens. */
  lemma ForwardOneMore(choices: seq<Choice>, choice: Choice)
    ensures var f, f' := ForwardRun(choices), ForwardRun(choices + [choice]);
            if f.ending != Running then f' == f
            else match choice
                 case Quit => f'.ending == Quitted && f'.delivered == f.delivered && f'.buffer == f.buffer
                 case In(None) => f'.ending == BadValue && f'.delivered == f.delivered && f'.buffer == f.buffer
                 case In(Some(v)) =>
                   && f'.delivered == f.delivered
                   && (if |f.buffer| == 20000 then f'.ending == Overflow && f'.buffer == f.buffer
                       else f'.ending == Running && f'.buffer == f.buffer + [v])
                 case Out =>
                   && f'.ending == Running
                   && (if f.buffer == [] then f'.delivered == f.delivered && f'.buffer == []
                       else f'.delivered == f.delivered + [f.buffer[0]] && f.buffer == [f.buffer[0]] + f'.buffer)
  {
    assert (choices + [choice])[..|choices|] == choices;
  }

  /** `forward` as the loop it is: without queued values the send case is left out of the select,
      and every way out but quitting unsubscribes at the server. */
  method ForwardLoop(choices: seq<Choice>)
    returns (buffer: seq<int>, delivered: seq<int>, err: Ending, unsubscribeServer: bool)
    ensures var f := ForwardRun(choices);
            && delivered == f.delivered && err == f.ending
            && (err == Running ==> buffer == f.buffer)
            && (unsubscribeServer <==> err == BadValue || err == Overflow)
  {
    buffer, delivered, err, unsubscribeServer := [], [], Running, false;
    ghost var received := [];
    assert choices[..0] == [];
    for i := 0 to |choices|
      invariant ForwardRun(choices[..i]) == Forward(buffer, received, delivered, Running)
      invariant err == Running && !unsubscribeServer
    {
      assert choices[..i + 1][..i] == choices[..i];
      EndedStays(choices, i + 1);
      match choices[i] {
        case Quit =>
          err := Quitted;
          return;
        case In(value) =>
          if value.None? {
            err, unsubscribeServer := BadValue, true;
            return;
          }
          if |buffer| == MAX_CLIENT_SUBSCRIPTION_BUFFER {
            err, unsubscribeServer := Overflow, true;
            return;
          }
          buffer, received := buffer + [value.value], received + [value.value];
        case Out =>
          if |buffer| > 0 {
            delivered, buffer := delivered + [buffer[0]], buffer[1..];
          }
      }
    }
    assert choices[..|choices|] == choices;
  }

  lemma {:induction false} EndedStays(choices: seq<Choice>, i: nat)
    requires i <= |choices|
    ensures ForwardRun(choices[..i]).ending != Running ==> ForwardRun(choices) == ForwardRun(choices[..i])
  {
    if i < |choices| {
      var n := |choices| - 1;
      assert choices[..n][..i] == choices[..i];
      EndedStays(choices[..n], i);
    } else {
      assert choices[..i] == choices;
    }
  }

  lemma StepKeepsOrder(f: Forward, choice: Choice)
    requires InOrder(f) && Possible(f, choice)
    ensures InOrder(ForwardStep(f, choice))
  {
    var f' := ForwardStep(f, choice);
    match choice
    case Quit =>
    case In(value) =>
      if value.Some? {
        assert f'.received[..|f'.received| - 1] == f.received;
      }
    case Out => assert f.buffer == [f.buffer[0]] + f.buffer[1..];
  }

  // ------------------------------------------------------------- the loop in place

  class Dispatcher {
    var ops: seq<Op>
    var respWait: map<Id, nat>
    var locked: bool
    var lastOp: Option<nat>
    var writers: set<nat>
    var sendDone: seq<Option<Error>>
    var quit: bool
    var fault: bool

    constructor ()
      ensures State() == START
    {
      ops, respWait, locked, lastOp := [], map[], false, None;
      writers, sendDone, quit, fault := {}, [], false, false;
    }

    function State(): Client
      reads this
    {
      Client(ops, respWait, locked, lastOp, writers, sendDone, quit, fault)
    }

    method Accept(ids: seq<Id>, sub: bool)
      requires Refs(State())
      modifies this
      ensures State() == Next(old(State()), Submit(ids, sub))
    {
      var r := |ops|;
      ops := ops + [Op(ids, sub, [], 0, None, false, false)];
      locked, lastOp, writers := true, Some(r), writers + {r};
      assert ids[..0] == [];
      var i := 0;
      while i < |ids|
        invariant 0 <= i <= |ids|
        invariant State() == Next(old(State()), Submit(ids, sub)).(respWait := Register(old(respWait), ids[..i], r))
      {
        assert ids[..i + 1][..i] == ids[..i];
        respWait := respWait[ids[i] := r];
        i := i + 1;
      }
      assert ids[..i] == ids;
    }

    method OnSendDone()
      requires Refs(State()) && !quit && sendDone != []
      modifies this
      ensures State() == Next(old(State()), SendDone)
    {
      var r := lastOp.value;
      if sendDone[0].Some? {
        var ids := ops[r].ids;
        ops := ops[r := ops[r].(failed := true)];
        assert Deregister(respWait, ids[..0]) == respWait;
        var i := 0;
        while i < |ids|
          invariant 0 <= i <= |ids|
          invariant State() == old(State()).(respWait := Deregister(old(respWait), ids[..i]),
                                             ops := old(ops)[r := old(ops)[r].(failed := true)])
        {
          respWait := respWait - {ids[i]};
          assert respWait == Deregister(old(respWait), ids[..i + 1]);
          i := i + 1;
        }
        assert ids[..i] == ids;
      }
      sendDone, locked, lastOp := sendDone[1..], false, None;
    }

    method OnResponse(id: Id, error: Option<Error>)
      requires forall i :: i in respWait ==> respWait[i] < |ops|
      modifies this
      ensures State() == HandleResponse(old(State()), id, error)
    {
      if id !in respWait {
        return;
      }
      var r := respWait[id];
      respWait := respWait - {id};
      var op := ops[r];
      if !op.sub {
        fault := fault || op.closes > 0 || |op.sent| >= Capacity(op);
        ops := ops[r := op.(sent := op.sent + [id])];
      } else {
        fault := fault || op.closes > 0;
        ops := ops[r := op.(err := error, closes := op.closes + 1)];
      }
    }

    method OnReadResp(batch: seq<Message>)
      requires forall i :: i in respWait ==> respWait[i] < |ops|
      modifies this
      ensures State() == HandleBatch(old(State()), batch)
    {
      assert batch[..0] == [];
      var k := 0;
      while k < |batch|
        invariant 0 <= k <= |batch|
        invariant State() == HandleBatch(old(State()), batch[..k])
      {
        assert batch[..k + 1][..k] == batch[..k];
        if batch[k].Response? {
          OnResponse(batch[k].id, batch[k].error);
        }
        k := k + 1;
      }
      assert batch[..k] == batch;
    }

    /** The loop of `closeRequestOps`, ranging over the map in the given order. */
    method CloseRequests(order: seq<Id>, err: Error)
      requires forall i :: i in respWait ==> respWait[i] < |ops|
      modifies this
      ensures State() == CloseRequestOps(old(State()), order, err)
    {
      var did: set<nat> := {};
      assert order[..0] == [];
      var k := 0;
      while k < |order|
        invariant 0 <= k <= |order|
        invariant Closing(State(), did) == CloseEach(old(State()), order[..k], err)
      {
        assert order[..k + 1][..k] == order[..k];
        var id := order[k];
        if id in respWait {
          var r := respWait[id];
          respWait := respWait - {id};
          if r !in did {
            var op := ops[r];
            fault := fault || op.closes > 0;
            ops := ops[r := op.(err := Some(err), closes := op.closes + 1, byClient := true)];
            did := did + {r};
          }
        }
        k := k + 1;
      }
      assert order[..k] == order;
    }
  }
}
