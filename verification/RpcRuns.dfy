/** Runs of the RPC client in which a reconnect leaves a caller waiting. */
module RpcRuns {
  import opened Common
  import opened D = RpcDispatch
  import opened R = RpcReconnect

  /** A call with one id. */
  function Call(id: Id, failed: bool): Op { Op([id], false, [], 0, None, false, failed) }

  /** No writer holds the send lock. */
  function Idle(ops: seq<Op>, respWait: map<Id, nat>): Client {
    Client(ops, respWait, false, None, {}, [], false, false)
  }

  /** The last operation is being written. */
  function Writing(ops: seq<Op>, respWait: map<Id, nat>): Client
    requires ops != []
  {
    var r := |ops| - 1;
    Client(ops, respWait, true, Some(r), {r}, [], false, false)
  }

  /** The moves are possible one after the other and lead from one state to the other. */
  ghost predicate Leads(s: Link, moves: seq<Move>, s': Link) {
    Good(s) && R.Legal(s, moves) && R.Run(s, moves) == s'
  }

  lemma {:induction false} Joined(s: Link, a: seq<Move>, s1: Link, b: seq<Move>, s2: Link)
    requires Leads(s, a, s1) && Leads(s1, b, s2)
    ensures Leads(s, a + b, s2)
    decreases |a|
  {
    if a == [] {
      assert a + b == b;
    } else {
      hide D.Inv, D.Next, After, CanMove;
      AfterKeepsGood(s, a[0]);
      Defined(s, a[0]);
      Joined(After(s, a[0]), a[1..], s1, b, s2);
      FirstMove(s, a[0], a[1..] + b);
      assert a + b == [a[0]] + (a[1..] + b);
    }
  }

  lemma Defined(s: Link, m: Move)
    requires Good(s) && CanMove(s, m)
    ensures D.Refs(s.c) && (Core(s, m) == Some(SendDone) ==> !s.c.quit && s.c.sendDone != [])
    ensures m.WriteOut? ==> s.writeConn.Some?
  {
  }

  lemma Moves(s: Link, m: Move, s': Link)
    requires Good(s) && CanMove(s, m) && (Defined(s, m); After(s, m) == s')
    ensures Leads(s, [m], s') && Good(s')
  {
    hide D.Inv, D.Next, After, CanMove;
    Defined(s, m);
    OneMove(s, m);
  }

  lemma Accepts(s: Link, id: Id, ops: seq<Op>, respWait: map<Id, nat>)
    requires Good(s) && s.pending.None? && s.c == Idle(s.c.ops, s.c.respWait) && D.UniqueIds(s.c, [id])
    requires ops == s.c.ops + [Call(id, false)] && respWait == s.c.respWait[id := |s.c.ops|]
    ensures var s' := s.(c := Writing(ops, respWait));
            Leads(s, [Accept([id], false)], s') && Good(s')
  {
    hide D.Inv;
    InvParts(s.c);
    assert [id][..0] == [];
    assert D.Register(s.c.respWait, [id], |s.c.ops|) == respWait;
    Moves(s, Accept([id], false), s.(c := Writing(ops, respWait)));
  }

  /** The last write has ended, and the loop has not yet heard of it. */
  function Ended(c: Client, werr: Option<Error>): Client {
    c.(writers := {}, sendDone := [werr])
  }

  /** The write of the last operation fails, the connection of the writers is given up, and the
      operation is no longer waited for. */
  lemma GivesUp(s: Link, ops: seq<Op>, respWait: map<Id, nat>)
    requires Good(s) && s.pending.None? && s.c.ops != [] && s.c == Writing(s.c.ops, s.c.respWait)
    requires var r := |s.c.ops| - 1;
             ops == s.c.ops[r := s.c.ops[r].(failed := true)] && respWait == D.Deregister(s.c.respWait, s.c.ops[r].ids)
    ensures var r := |s.c.ops| - 1;
            var s' := s.(c := Idle(ops, respWait), writeConn := None);
            Leads(s, [WriteEnds(r, Some("timeout"), true), TakeSendDone], s') && Good(s')
  {
    hide D.Inv;
    InvParts(s.c);
    var r := |s.c.ops| - 1;
    var m := WriteEnds(r, Some("timeout"), true);
    assert s.c.writers - {r} == {};
    var s1 := s.(c := Ended(s.c, Some("timeout")), writeConn := None);
    Moves(s, m, s1);
    InvParts(s1.c);
    var s2 := s1.(c := Idle(ops, respWait));
    Moves(s1, TakeSendDone, s2);
    Joined(s, [m], s1, [TakeSendDone], s2);
  }

  /** The write of the last operation succeeds. */
  lemma Writes(s: Link, on: map<nat, nat>)
    requires Good(s) && s.pending.None? && s.c.ops != [] && s.c == Writing(s.c.ops, s.c.respWait)
    requires |s.c.ops| - 1 !in s.on && s.writeConn == Some(s.conn) && !s.reader.Gone?
    requires on == s.on[|s.c.ops| - 1 := s.conn]
    ensures var r := |s.c.ops| - 1;
            var s' := s.(c := Idle(s.c.ops, s.c.respWait), on := on);
            Leads(s, [WriteOut(r), WriteEnds(r, None, false), TakeSendDone], s') && Good(s')
  {
    hide D.Inv;
    InvParts(s.c);
    var r := |s.c.ops| - 1;
    assert s.c.writers - {r} == {};
    var s1 := s.(on := on);
    Moves(s, WriteOut(r), s1);
    var s2 := s1.(c := Ended(s.c, None));
    Moves(s1, WriteEnds(r, None, false), s2);
    InvParts(s2.c);
    var s3 := s1.(c := Idle(s.c.ops, s.c.respWait));
    Moves(s2, TakeSendDone, s3);
    Joined(s1, [WriteEnds(r, None, false)], s2, [TakeSendDone], s3);
    Joined(s, [WriteOut(r)], s1, [WriteEnds(r, None, false)] + [TakeSendDone], s3);
    assert [WriteOut(r), WriteEnds(r, None, false), TakeSendDone]
        == [WriteOut(r)] + ([WriteEnds(r, None, false)] + [TakeSendDone]);
  }

  /** A writer without a connection. */
  ghost predicate WantsConnection(s: Link) {
    Good(s) && s.pending.None? && s.c.writers != {} && s.writeConn.None? && !s.c.quit && s.reader.Decoding?
  }

  lemma EndsStuck(s: Link)
    requires WantsConnection(s)
    ensures var s' := s.(reader := Offers([]), writeConn := Some(s.conn + 1), pending := Some(s.conn + 1));
            Leads(s, [Decode([]), Reconnect], s')
  {
    hide D.Inv, D.Next, D.Enabled;
    InvParts(s.c);
    var s1 := s.(reader := Offers([]));
    Moves(s, Decode([]), s1);
    var s2 := s1.(writeConn := Some(s.conn + 1), pending := Some(s.conn + 1));
    Moves(s1, Reconnect, s2);
    Joined(s, [Decode([])], s1, [Reconnect], s2);
  }

  /** The reconnect takes the error of the old read loop, and nobody is told. */
  lemma DropsError(s: Link)
    requires WantsConnection(s)
    ensures var s' := s.(conn := s.conn + 1, writeConn := Some(s.conn + 1));
            Leads(s, [Reconnect, Break("EOF"), TakeErrInReconnect], s')
  {
    hide D.Inv, D.Next, D.Enabled;
    InvParts(s.c);
    var s1 := s.(writeConn := Some(s.conn + 1), pending := Some(s.conn + 1));
    Moves(s, Reconnect, s1);
    var s2 := s1.(reader := Fails("EOF"));
    Moves(s1, Break("EOF"), s2);
    var s3 := s.(conn := s.conn + 1, writeConn := Some(s.conn + 1));
    Moves(s2, TakeErrInReconnect, s3);
    Joined(s1, [Break("EOF")], s2, [TakeErrInReconnect], s3);
    Joined(s, [Reconnect], s1, [Break("EOF")] + [TakeErrInReconnect], s3);
    assert [Reconnect, Break("EOF"), TakeErrInReconnect] == [Reconnect] + ([Break("EOF")] + [TakeErrInReconnect]);
  }

  // ------------------------------------------------------------------- the runs

  const A := Call("a", false)
  const B := Call("b", false)
  const C := Call("c", false)

  const GIVE_UP_A: seq<Move> := [WriteEnds(0, Some("timeout"), true), TakeSendDone]

  /** The first write fails, and the next caller reconnects while the read loop has a batch to offer. */
  function BatchAtReconnect(): seq<Move> {
    [Accept(["a"], false)] + (GIVE_UP_A + ([Accept(["b"], false)] + [Decode([]), Reconnect]))
  }

  lemma GetsStuckForEver()
    ensures Good(FRESH) && R.Legal(FRESH, BatchAtReconnect())
    ensures var s := R.Run(FRESH, BatchAtReconnect());
            Stuck(s) && Waits(s.c, 1)
  {
    hide Leads, Good;
    FreshIsGood();
    Accepts(FRESH, "a", [A], map["a" := 0]);
    var s1 := FRESH.(c := Writing([A], map["a" := 0]));
    assert D.Deregister(map["a" := 0], ["a"]) == map[];
    GivesUp(s1, [A.(failed := true)], map[]);
    var s2 := s1.(c := Idle([A.(failed := true)], map[]), writeConn := None);
    Accepts(s2, "b", [A.(failed := true), B], map["b" := 1]);
    var s3 := s2.(c := Writing([A.(failed := true), B], map["b" := 1]));
    EndsStuck(s3);
    var s4 := s3.(reader := Offers([]), writeConn := Some(1), pending := Some(1));
    Joined(s2, [Accept(["b"], false)], s3, [Decode([]), Reconnect], s4);
    Joined(s1, GIVE_UP_A, s2, [Accept(["b"], false)] + [Decode([]), Reconnect], s4);
    Joined(FRESH, [Accept(["a"], false)], s1, GIVE_UP_A + ([Accept(["b"], false)] + [Decode([]), Reconnect]), s4);
    LeadsMeans(FRESH, BatchAtReconnect(), s4);
    assert s4.c.respWait["b"] == 1;
  }

  lemma LeadsMeans(s: Link, moves: seq<Move>, s': Link)
    requires Leads(s, moves, s')
    ensures Good(s) && R.Legal(s, moves) && R.Run(s, moves) == s'
  {
  }

  const WRITE_A: seq<Move> := [WriteOut(0), WriteEnds(0, None, false), TakeSendDone]
  const GIVE_UP_B: seq<Move> := [WriteEnds(1, Some("timeout"), true), TakeSendDone]
  const SWITCH: seq<Move> := [Reconnect, Break("EOF"), TakeErrInReconnect]

  /** A caller waits; the write of the next one fails, and the third one reconnects. */
  function WaiterAtReconnect(): seq<Move> {
    [Accept(["a"], false)] + (WRITE_A + ([Accept(["b"], false)] + (GIVE_UP_B + ([Accept(["c"], false)] + SWITCH))))
  }

  lemma WaiterIsStranded()
    ensures Good(FRESH) && R.Legal(FRESH, WaiterAtReconnect())
    ensures var s := R.Run(FRESH, WaiterAtReconnect());
            && s.pending.None? && s.conn == 1 && 0 in s.on && s.on[0] == 0
            && |s.c.ops| > 0 && s.c.ops[0].closes == 0 && Waits(s.c, 0) && !Served(s)
  {
    hide Leads, Good;
    FreshIsGood();
    Accepts(FRESH, "a", [A], map["a" := 0]);
    var s1 := FRESH.(c := Writing([A], map["a" := 0]));
    Writes(s1, map[0 := 0]);
    var s2 := s1.(c := Idle([A], map["a" := 0]), on := map[0 := 0]);
    LaterCalls(s2);
    var s3 := s2.(c := Writing([A, B.(failed := true), C], map["a" := 0, "c" := 2]), conn := 1, writeConn := Some(1));
    Joined(s1, WRITE_A, s2, [Accept(["b"], false)] + (GIVE_UP_B + ([Accept(["c"], false)] + SWITCH)), s3);
    Joined(FRESH, [Accept(["a"], false)], s1,
           WRITE_A + ([Accept(["b"], false)] + (GIVE_UP_B + ([Accept(["c"], false)] + SWITCH))), s3);
    LeadsMeans(FRESH, WaiterAtReconnect(), s3);
    assert s3.c.respWait["a"] == 0;
  }

  lemma LaterCalls(s: Link)
    requires Good(s) && s == FRESH.(c := Idle([A], map["a" := 0]), on := map[0 := 0])
    ensures Leads(s, [Accept(["b"], false)] + (GIVE_UP_B + ([Accept(["c"], false)] + SWITCH)),
                  s.(c := Writing([A, B.(failed := true), C], map["a" := 0, "c" := 2]), conn := 1,
                     writeConn := Some(1)))
  {
    hide Leads, Good;
    Accepts(s, "b", [A, B], map["a" := 0, "b" := 1]);
    var s1 := s.(c := Writing([A, B], map["a" := 0, "b" := 1]));
    assert D.Deregister(map["a" := 0, "b" := 1], ["b"]) == map["a" := 0];
    GivesUp(s1, [A, B.(failed := true)], map["a" := 0]);
    var s2 := s1.(c := Idle([A, B.(failed := true)], map["a" := 0]), writeConn := None);
    Accepts(s2, "c", [A, B.(failed := true), C], map["a" := 0, "c" := 2]);
    var s3 := s2.(c := Writing([A, B.(failed := true), C], map["a" := 0, "c" := 2]));
    DropsError(s3);
    var s4 := s3.(conn := 1, writeConn := Some(1));
    Joined(s2, [Accept(["c"], false)], s3, SWITCH, s4);
    Joined(s1, GIVE_UP_B, s2, [Accept(["c"], false)] + SWITCH, s4);
    Joined(s, [Accept(["b"], false)], s1, GIVE_UP_B + ([Accept(["c"], false)] + SWITCH), s4);
  }
}
