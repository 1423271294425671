/** The RPC client over several connections: the read loop of a connection, a writer that reconnects
    after a failed write, and the dispatch loop between them. */
module RpcReconnect {
  import opened Common
  import opened D = RpcDispatch

  /** The read loop of the current connection: decoding, offering a batch or its error on an
      unbuffered channel, or ended. */
  datatype Reader = Decoding | Offers(batch: seq<Message>) | Fails(err: Error) | Gone

  /** The client, the connection the dispatch loop reads (they are numbered), its read loop, the
      connection of the writers, the connection each complete request went out on, and the new
      connection while the dispatch loop waits for the old read loop to fail. */
  datatype Link = Link(c: Client, conn: nat, reader: Reader, writeConn: Option<nat>, on: map<nat, nat>,
                       pending: Option<nat>)

  const FRESH := Link(D.START, 0, Decoding, Some(0), map[], None)

  datatype Move =
    | Accept(ids: seq<Id>, sub: bool)
    | WriteOut(r: nat)
    | WriteEnds(r: nat, werr: Option<Error>, broken: bool)
    | TakeSendDone
    | Decode(batch: seq<Message>)
    | Break(err: Error)
    | TakeBatch
    | TakeErr(order: seq<Id>)
    | Reconnect
    | TakeErrInReconnect
    | Quit(order: seq<Id>)

  /** The connection that requests can still be written to. */
  function Live(s: Link): nat {
    if s.pending.Some? then s.pending.value else s.conn
  }

  /** The dispatch loop closes a connection when it takes its read error, when it reconnects, and
      when it quits. */
  predicate Open(s: Link, k: nat) {
    k == Live(s) && !s.c.quit && (s.pending.Some? || !s.reader.Gone?)
  }

  /** What the move does to the client, if it is one of the dispatch loop's own. */
  function Core(s: Link, m: Move): Option<D.Step> {
    match m
    case Accept(ids, sub) => Some(Submit(ids, sub))
    case WriteEnds(r, werr, _) => Some(FinishWrite(r, werr))
    case TakeSendDone => Some(SendDone)
    case TakeBatch => if s.reader.Offers? then Some(ReadResp(s.reader.batch)) else None
    case TakeErr(order) => if s.reader.Fails? then Some(ReadErr(order, s.reader.err)) else None
    case Quit(order) => Some(Close(order))
    case _ => None
  }

  /** The moves that the dispatch loop takes part in; it takes none while it waits in a reconnect. */
  predicate OfLoop(m: Move) {
    m.Accept? || m.TakeSendDone? || m.TakeBatch? || m.TakeErr? || m.Reconnect? || m.Quit?
  }

  ghost predicate CanMove(s: Link, m: Move) {
    && (OfLoop(m) ==> s.pending.None?)
    && (Core(s, m).Some? ==> D.Enabled(s.c, Core(s, m).value))
    && match m
       case WriteOut(r) => r in s.c.writers && r !in s.on && s.writeConn.Some? && Open(s, s.writeConn.value)
       case WriteEnds(r, werr, _) => werr.None? ==> r in s.on
       case Decode(_) => s.reader.Decoding?
       case Break(_) => s.reader.Decoding?
       case TakeBatch => s.reader.Offers?
       case TakeErr(_) => s.reader.Fails?
       case Reconnect => s.c.writers != {} && s.writeConn.None? && !s.c.quit
       case TakeErrInReconnect => s.pending.Some? && s.reader.Fails?
       case _ => true
  }

  function ClientAfter(s: Link, m: Move): Client
    requires D.Refs(s.c) && (Core(s, m) == Some(SendDone) ==> !s.c.quit && s.c.sendDone != [])
  {
    if Core(s, m).Some? then D.Next(s.c, Core(s, m).value) else s.c
  }

  function After(s: Link, m: Move): Link
    requires D.Refs(s.c) && (Core(s, m) == Some(SendDone) ==> !s.c.quit && s.c.sendDone != [])
    requires m.WriteOut? ==> s.writeConn.Some?
  {
    var s1 := s.(c := ClientAfter(s, m));
    match m
    case WriteOut(r) => s1.(on := s.on[r := s.writeConn.value])
    case WriteEnds(_, werr, broken) => if werr.Some? && broken then s1.(writeConn := None) else s1
    case Decode(batch) => s1.(reader := Offers(batch))
    case Break(err) => s1.(reader := Fails(err))
    case TakeBatch => s1.(reader := Decoding)
    case TakeErr(_) => s1.(reader := Gone)
    case Reconnect =>
      var k := s.conn + 1;
      if s.reader.Gone? then s1.(conn := k, reader := Decoding, writeConn := Some(k))
      else s1.(writeConn := Some(k), pending := Some(k))
    case TakeErrInReconnect => s1.(conn := Live(s), reader := Decoding, pending := None)
    case _ => s1
  }

  // ------------------------------------------------------------------ invariant

  ghost predicate Good(s: Link) {
    && D.Inv(s.c)
    && (forall r :: r in s.on ==> r < |s.c.ops|)
    && (s.pending.Some? ==> !s.reader.Gone? && s.pending.value == s.conn + 1)
  }

  /** Across reconnects the client stays as safe as on one connection. */
  lemma AfterKeepsGood(s: Link, m: Move)
    requires Good(s) && CanMove(s, m)
    ensures Good(After(s, m))
  {
    hide D.Inv, D.Enabled, D.Next;
    WritersKnown(s.c);
    InvParts(s.c);
    if Core(s, m).Some? {
      D.NextKeepsInv(s.c, Core(s, m).value);
      OpsGrow(s.c, Core(s, m).value);
    }
  }

  lemma WritersKnown(c: Client)
    requires D.Inv(c)
    ensures forall r :: r in c.writers ==> r < |c.ops|
  {
  }

  lemma InvParts(c: Client)
    requires D.Inv(c)
    ensures D.Refs(c)
    ensures D.Enabled(c, SendDone) ==> !c.quit && c.sendDone != []
  {
  }

  lemma OpsGrow(c: Client, step: D.Step)
    requires D.Inv(c) && D.Enabled(c, step)
    ensures |D.Next(c, step).ops| >= |c.ops|
  {
    hide Channels, UniqueIds;
  }

  /** What becomes of the connections: a reconnect gives the writers the new connection, and the loop reads it at once
      if the old read loop has ended, and otherwise when it has taken the error of the old one; a failed write that
      breaks the connection leaves the writers without one. */
  lemma ConnectionsEffect(s: Link, m: Move)
    requires Good(s) && CanMove(s, m)
    ensures var s', k := After(s, m), s.conn + 1;
            && (m.Reconnect? && s.reader.Gone? ==>
                 s'.conn == k && s'.reader == Decoding && s'.writeConn == Some(k) && s'.pending == None)
            && (m.Reconnect? && !s.reader.Gone? ==>
                 s'.conn == s.conn && s'.reader == s.reader && s'.writeConn == Some(k) && s'.pending == Some(k))
            && (m.TakeErrInReconnect? ==>
                 s'.conn == s.pending.value && s'.reader == Decoding
                 && s'.pending == None && s'.writeConn == s.writeConn)
            && (m.WriteEnds? ==> s'.writeConn == if m.werr.Some? && m.broken then None else s.writeConn)
            && (m.WriteOut? ==> m.r in s'.on && s'.on[m.r] == Live(s) && forall q :: q in s.on ==> q in s'.on)
            && (m.TakeErr? ==> s'.reader == Gone && s'.conn == s.conn)
            && (m.Decode? ==> s'.reader == Offers(m.batch)) && (m.Break? ==> s'.reader == Fails(m.err))
            && (m.TakeBatch? ==> s'.reader == Decoding)
            && (m.Accept? || m.TakeSendDone? || m.Quit? ==> s' == s.(c := s'.c))
  {
    hide D.Inv, D.Next;
    InvParts(s.c);
  }

  /** What the client itself sees of a move. */
  lemma ClientEffect(s: Link, m: Move)
    requires Good(s) && CanMove(s, m)
    ensures var c' := After(s, m).c;
            match m
            case Accept(ids, sub) => c' == D.Next(s.c, Submit(ids, sub))
            case WriteEnds(r, werr, _) => c' == D.Next(s.c, FinishWrite(r, werr))
            case TakeSendDone => s.c.sendDone != [] && !s.c.quit && c' == D.Next(s.c, SendDone)
            case TakeBatch => s.reader.Offers? && c' == D.Next(s.c, ReadResp(s.reader.batch))
            case TakeErr(order) => s.reader.Fails? && c' == D.Next(s.c, ReadErr(order, s.reader.err))
            case Quit(order) => c' == D.Next(s.c, Close(order))
            case _ => c' == s.c
  {
    hide D.Inv, D.Next;
    InvParts(s.c);
  }

  // --------------------------------------------------------------- who waits where

  /** Whoever waits for an answer to a request that went out waits on a connection that is read. */
  ghost predicate Served(s: Link) {
    forall r :: r in s.on && Waits(s.c, r) ==> s.on[r] == Live(s) && !s.reader.Gone?
  }

  /** A reconnect while the old read loop lives and somebody waits for it. */
  ghost predicate Strands(s: Link, m: Move) {
    m.Reconnect? && !s.reader.Gone? && exists r :: r in s.on && Waits(s.c, r)
  }

  /** Nobody starts to wait except for a new operation. */
  ghost predicate FewerWait(before: map<Id, nat>, after: map<Id, nat>) {
    forall id :: id in after ==> id in before && after[id] == before[id]
  }

  lemma {:induction false} BatchFewerWait(c: Client, batch: seq<Message>)
    requires D.Refs(c)
    ensures FewerWait(c.respWait, D.HandleBatch(c, batch).respWait)
  {
    if batch != [] {
      BatchFewerWait(c, batch[..|batch| - 1]);
    }
  }

  lemma StepFewerWait(c: Client, step: D.Step)
    requires D.Inv(c) && D.Enabled(c, step) && !step.Submit?
    ensures FewerWait(c.respWait, D.Next(c, step).respWait)
  {
    hide Channels, UniqueIds, HandleBatch, CloseRequestOps;
    match step
    case FinishWrite(_, _) =>
    case SendDone =>
    case ReadResp(batch) => BatchFewerWait(c, batch);
    case ReadErr(order, err) => D.CloseKeepsChannels(c, order, err);
    case Close(order) => D.CloseKeepsChannels(c, order, D.ERR_CLIENT_QUIT);
  }

  lemma OldWaits(c: Client, step: D.Step, r: nat)
    requires D.Inv(c) && D.Enabled(c, step) && r < |c.ops| && Waits(D.Next(c, step), r)
    ensures Waits(c, r)
  {
    hide D.Inv;
    InvParts(c);
    var c' := D.Next(c, step);
    var id :| id in c'.respWait && c'.respWait[id] == r;
    if step.Submit? {
      D.RegisterLookup(c.respWait, step.ids, |c.ops|, id);
    } else {
      StepFewerWait(c, step);
    }
  }

  /** After the loop has taken a read error, nobody waits. */
  lemma NobodyWaits(c: Client, order: seq<Id>, err: Error, r: nat)
    requires D.Inv(c) && D.Enabled(c, ReadErr(order, err))
    ensures !Waits(D.Next(c, ReadErr(order, err)), r)
  {
    D.CloseKeepsChannels(c, order, err);
  }

  lemma SameWaits(s: Link, m: Move, r: nat)
    requires Good(s) && CanMove(s, m) && r < |s.c.ops| && Waits(After(s, m).c, r)
    ensures Waits(s.c, r) && !m.TakeErr?
  {
    hide D.Inv, D.Enabled, D.Next;
    InvParts(s.c);
    if Core(s, m).Some? {
      OldWaits(s.c, Core(s, m).value, r);
    }
    if m.TakeErr? {
      NobodyWaits(s.c, m.order, s.reader.err, r);
    }
  }

  /** A move keeps everybody served if and only if it does not strand somebody. */
  lemma AfterServedIff(s: Link, m: Move)
    requires Good(s) && CanMove(s, m) && Served(s)
    ensures Served(After(s, m)) <==> !Strands(s, m)
  {
    hide D.Inv, D.Enabled, D.Next, Waits;
    InvParts(s.c);
    var s' := After(s, m);
    if Strands(s, m) {
      var r :| r in s.on && Waits(s.c, r);
      assert s'.on[r] == s.conn && Live(s') == s.conn + 1;
    } else {
      forall r | r in s'.on && Waits(s'.c, r)
        ensures s'.on[r] == Live(s') && !s'.reader.Gone?
      {
        WritersKnown(s.c);
        SameWaits(s, m, r);
      }
    }
  }

  // -------------------------------------------------------------------- every run

  ghost predicate Legal(s: Link, moves: seq<Move>)
    requires Good(s)
    decreases |moves|
  {
    moves != [] ==> CanMove(s, moves[0]) && (AfterKeepsGood(s, moves[0]); Legal(After(s, moves[0]), moves[1..]))
  }

  ghost function Run(s: Link, moves: seq<Move>): (s': Link)
    requires Good(s) && Legal(s, moves)
    ensures Good(s')
    decreases |moves|
  {
    if moves == [] then s else AfterKeepsGood(s, moves[0]); Run(After(s, moves[0]), moves[1..])
  }

  /** Everybody is served at every time of the run. */
  ghost predicate AlwaysServed(s: Link, moves: seq<Move>)
    requires Good(s) && Legal(s, moves)
    decreases |moves|
  {
    Served(s) && (moves != [] ==> (AfterKeepsGood(s, moves[0]); AlwaysServed(After(s, moves[0]), moves[1..])))
  }

  ghost predicate NeverStrands(s: Link, moves: seq<Move>)
    requires Good(s) && Legal(s, moves)
    decreases |moves|
  {
    moves != [] ==>
      !Strands(s, moves[0]) && (AfterKeepsGood(s, moves[0]); NeverStrands(After(s, moves[0]), moves[1..]))
  }

  lemma FreshIsGood()
    ensures Good(FRESH) && Served(FRESH)
  {
  }

  lemma {:induction false} ServedIff(s: Link, moves: seq<Move>)
    requires Good(s) && Served(s) && Legal(s, moves)
    ensures AlwaysServed(s, moves) <==> NeverStrands(s, moves)
    decreases |moves|
  {
    hide Served, Strands, After, D.Inv, D.Next;
    InvParts(s.c);
    if moves != [] {
      AfterKeepsGood(s, moves[0]);
      AfterServedIff(s, moves[0]);
      if !Strands(s, moves[0]) {
        ServedIff(After(s, moves[0]), moves[1..]);
      }
    }
  }

  /** At every time of a run from a new client, whoever waits for the answer to a request that went out
      waits on a connection that is read, if and only if no reconnect is taken while the old read
      loop lives and somebody waits for it: that reconnect takes the read error itself and tells
      nobody. */
  lemma EveryRunServes(moves: seq<Move>)
    requires (FreshIsGood(); Legal(FRESH, moves))
    ensures (FreshIsGood(); AlwaysServed(FRESH, moves) <==> NeverStrands(FRESH, moves))
  {
    FreshIsGood();
    ServedIff(FRESH, moves);
  }

  lemma AllAreTold(c: Client, order: seq<Id>, err: Error, r: nat)
    requires D.Inv(c) && D.Enabled(c, ReadErr(order, err)) && r < |c.ops| && Waits(c, r)
    ensures var c' := D.Next(c, ReadErr(order, err));
            |c'.ops| == |c.ops| && c'.ops[r].closes == 1 && c'.ops[r].err == Some(err)
  {
    hide Channels, CloseEach;
    var id :| id in c.respWait && c.respWait[id] == r;
    D.CloseEachClosesOnce(c, order, err);
    D.NotYetClosed(c, id);
    assert D.Touched(c.respWait, order, r);
  }

  /** Who is told of a read error: all that wait, if the loop takes it; nobody, if a reconnect does. */
  lemma WhoIsTold(s: Link, m: Move, r: nat)
    requires Good(s) && CanMove(s, m) && r < |s.c.ops| && Waits(s.c, r)
    ensures m.TakeErr? ==> var c' := After(s, m).c;
                           |c'.ops| == |s.c.ops| && c'.ops[r].closes == 1 && c'.ops[r].err == Some(s.reader.err)
                           && !Waits(c', r)
    ensures m.TakeErrInReconnect? ==> After(s, m).c == s.c
  {
    hide D.Inv, D.Enabled, D.Next, Waits;
    InvParts(s.c);
    if m.TakeErr? {
      AllAreTold(s.c, m.order, s.reader.err, r);
      NobodyWaits(s.c, m.order, s.reader.err, r);
    }
  }

  // ------------------------------------------------------------------ getting stuck

  /** The dispatch loop waits for an error of a read loop that offers it a batch. */
  predicate Stuck(s: Link) {
    s.pending.Some? && s.reader.Offers?
  }

  /** The reconnect finds the read loop with a batch, or the read loop decodes one more. */
  predicate GetsStuck(s: Link, m: Move) {
    (m.Reconnect? && s.reader.Offers?) || (m.Decode? && s.pending.Some?)
  }

  lemma AfterStuckIff(s: Link, m: Move)
    requires Good(s) && CanMove(s, m) && !Stuck(s)
    ensures Stuck(After(s, m)) <==> GetsStuck(s, m)
  {
    hide D.Inv, D.Next;
  }

  lemma StuckStays(s: Link, m: Move)
    requires Good(s) && CanMove(s, m) && Stuck(s)
    ensures var s' := After(s, m);
            Stuck(s') && s'.c.ops == s.c.ops && s'.c.respWait == s.c.respWait && s'.c.quit == s.c.quit
  {
    hide D.Inv;
  }

  /** Once stuck, the client never answers, closes or accepts anything again, and never quits. */
  lemma {:induction false} StuckForEver(s: Link, moves: seq<Move>)
    requires Good(s) && Stuck(s) && Legal(s, moves)
    ensures var s' := Run(s, moves);
            Stuck(s') && s'.c.ops == s.c.ops && s'.c.respWait == s.c.respWait && s'.c.quit == s.c.quit
    decreases |moves|
  {
    if moves != [] {
      hide After, Stuck, D.Inv, D.Next;
      InvParts(s.c);
      AfterKeepsGood(s, moves[0]);
      StuckStays(s, moves[0]);
      StuckForEver(After(s, moves[0]), moves[1..]);
    }
  }

  ghost predicate NeverStuck(s: Link, moves: seq<Move>)
    requires Good(s) && Legal(s, moves)
    decreases |moves|
  {
    !Stuck(s) && (moves != [] ==> (AfterKeepsGood(s, moves[0]); NeverStuck(After(s, moves[0]), moves[1..])))
  }

  ghost predicate NeverGetsStuck(s: Link, moves: seq<Move>)
    requires Good(s) && Legal(s, moves)
    decreases |moves|
  {
    moves != [] ==>
      !GetsStuck(s, moves[0]) && (AfterKeepsGood(s, moves[0]); NeverGetsStuck(After(s, moves[0]), moves[1..]))
  }

  /** A run never gets stuck if and only if no reconnect finds the read loop with a batch to offer, and
      no batch is decoded while a reconnect waits. */
  lemma {:induction false} StuckIff(s: Link, moves: seq<Move>)
    requires Good(s) && !Stuck(s) && Legal(s, moves)
    ensures NeverStuck(s, moves) <==> NeverGetsStuck(s, moves)
    decreases |moves|
  {
    hide Stuck, GetsStuck, After, D.Inv, D.Next;
    if moves != [] {
      InvParts(s.c);
      AfterKeepsGood(s, moves[0]);
      AfterStuckIff(s, moves[0]);
      if !GetsStuck(s, moves[0]) {
        StuckIff(After(s, moves[0]), moves[1..]);
      }
    }
  }

  /** A reconnect that waits can still come to its end if and only if the read loop offers no batch. */
  lemma ReconnectEndsIff(s: Link)
    requires Good(s) && s.pending.Some?
    ensures !s.reader.Offers? <==> exists moves :: Legal(s, moves) && Run(s, moves).pending.None?
  {
    hide D.Inv;
    InvParts(s.c);
    if s.reader.Offers? {
      forall moves | Legal(s, moves)
        ensures Run(s, moves).pending.Some?
      {
        StuckForEver(s, moves);
      }
    } else if s.reader.Fails? {
      OneMove(s, TakeErrInReconnect);
    } else {
      var s1 := After(s, Break("EOF"));
      OneMove(s1, TakeErrInReconnect);
      FirstMove(s, Break("EOF"), [TakeErrInReconnect]);
    }
  }

  lemma OneMove(s: Link, m: Move)
    requires Good(s) && CanMove(s, m)
    ensures Legal(s, [m]) && Run(s, [m]) == After(s, m)
  {
    hide D.Inv, D.Next;
    InvParts(s.c);
    AfterKeepsGood(s, m);
    assert [m][1..] == [];
  }

  lemma FirstMove(s: Link, m: Move, rest: seq<Move>)
    requires Good(s) && CanMove(s, m) && (AfterKeepsGood(s, m); Legal(After(s, m), rest))
    ensures Legal(s, [m] + rest) && Run(s, [m] + rest) == (AfterKeepsGood(s, m); Run(After(s, m), rest))
  {
    AfterKeepsGood(s, m);
    assert ([m] + rest)[1..] == rest;
  }
}
