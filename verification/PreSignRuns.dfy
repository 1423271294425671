/** Runs of a pre-sign session in which what the nodes hold and what the barrier says differ. */
module PreSignRuns {
  import opened Common
  import opened PreSignSession
  import Barrier
  import PreSignPool

  lemma Unfold(s: Session, steps: seq<Step>, k: nat)
    requires k < |steps| && WellSized(s) && Enabled(s, steps[k]) && Legal(Next(s, steps[k]), steps[k + 1..])
    ensures Legal(s, steps[k..]) && Run(s, steps[k..]) == Run(Next(s, steps[k]), steps[k + 1..])
  {
    hide WellSized, Enabled, Next;
    assert steps[k..][1..] == steps[k + 1..];
  }

  /** Two nodes; the first one with the given pool. */
  function Pair(h: PreSignPool.History): Session {
    Session(1, "sid", Barrier.Start(2), [Before(h), Before(PreSignPool.START)])
  }

  /** Both nodes announce, the barrier of the first one times out, and its branch ends. */
  function TimesOut(deleted: bool): seq<Step> {
    [Announce(0), Announce(1), Net(Barrier.Expire(0)), Finish(0, PreSignPool.EverySlot(), deleted)]
  }

  ghost predicate Waiting(s: Session) {
    WellSized(s) && s.b == Barrier.Start(2) && s.nodes[0].phase.Ready? && s.nodes[1].phase.Ready?
  }

  lemma TimesOutEnds(s: Session, deleted: bool)
    requires Waiting(s)
    ensures Legal(s, TimesOut(deleted))
    ensures var r := Run(s, TimesOut(deleted));
            && |r.b.outcome| == |r.nodes| == |r.b.nodes| == 2 && r.size == s.size && r.key == s.key
            && r.b.outcome[1] == Some(s.nodes[1].returned) && r.b.nodes[0].result == Some(false)
            && r.nodes[0] == FinishNode(s.size, s.key, s.nodes[0], false, PreSignPool.EverySlot(), deleted)
  {
    hide FinishNode;
    var steps := TimesOut(deleted);
    var s1 := Next(s, steps[0]);
    var s2 := Next(s1, steps[1]);
    var s3 := Next(s2, steps[2]);
    Unfold(s3, steps, 3);
    Unfold(s2, steps, 2);
    Unfold(s1, steps, 1);
    Unfold(s, steps, 0);
    assert steps[0..] == steps;
  }

  lemma FinishNodeFields(s: Session, n: Member, result: bool, deleted: bool)
    ensures var n' := FinishNode(s.size, s.key, n, result, PreSignPool.EverySlot(), deleted);
            && n'.phase.Ended? && (n'.phase.deleted ==> deleted) && n'.fate == n.fate && n'.wrote == n.wrote
  {
  }

  /** One node stores the entry, the other fails, and the delete after the barrier fails too. */
  function DeleteFails(): seq<Step> { [PutEntry(0, 0, "", true, true), NoEntry(1)] + TimesOut(false) }

  lemma KeptAfterFailure()
    ensures var s0 := Pair(PreSignPool.START);
            && Start(s0) && Legal(s0, DeleteFails())
            && var s := Run(s0, DeleteFails());
            && |s.b.outcome| == |s.nodes| == 2
            && s.b.outcome[1] == Some(false) && s.nodes[0].phase.Ended? && Keeps(s, 0)
  {
    hide PutNode, FinishNode, HasEntry, TimesOut, Run, Legal;
    var s0, steps := Pair(PreSignPool.START), DeleteFails();
    StartHasInv(s0);
    var s1 := Next(s0, steps[0]);
    PutWritesIff(s0, 0, 0, "", true, true);
    PutNodePhase(s0, s0.nodes[0], 0, "", true, true);
    var s2 := Next(s1, steps[1]);
    TimesOutEnds(s2, false);
    FinishNodeFields(s2, s2.nodes[0], false, false);
    assert steps[2..] == TimesOut(false);
    Unfold(s1, steps, 1);
    Unfold(s0, steps, 0);
    assert steps[0..] == steps;
    EveryRunSettles(s0, steps, 0);
  }

  /** Another session picks the entry before the other node's failure is known. */
  function PickedEarly(): seq<Step> {
    [PutEntry(0, 0, "", true, true), Other(0, PreSignPool.PickStep(PreSignPool.EverySlot(), true)), NoEntry(1)]
    + TimesOut(true)
  }

  lemma UsedDespiteFailure()
    ensures var s0 := Pair(PreSignPool.START);
            && Start(s0) && Legal(s0, PickedEarly())
            && var s := Run(s0, PickedEarly());
            && |s.b.outcome| == |s.nodes| == 2
            && s.b.outcome[1] == Some(false) && s.nodes[0].phase.Ended? && Handed(s.nodes[0].h, s.key)
  {
    hide PutNode, FinishNode, HasEntry, TimesOut, Run, Legal, PreSignPool.Next, FateAfter, Handed;
    var s0, steps := Pair(PreSignPool.START), PickedEarly();
    StartHasInv(s0);
    var s1 := Next(s0, steps[0]);
    PutNodePhase(s0, s0.nodes[0], 0, "", true, true);
    PickTakesIt(s0, s0.nodes[0]);
    var s2 := Next(s1, steps[1]);
    var s3 := Next(s2, steps[2]);
    TimesOutEnds(s3, true);
    FinishNodeFields(s3, s3.nodes[0], false, true);
    assert steps[3..] == TimesOut(true);
    Unfold(s2, steps, 2);
    Unfold(s1, steps, 1);
    Unfold(s0, steps, 0);
    assert steps[0..] == steps;
    EveryRunSettles(s0, steps, 0);
  }

  lemma PickTakesIt(s: Session, n: Member)
    requires s.size == 1 && s.key != "" && n.h == PreSignPool.START
    ensures var n' := PutNode(s.size, s.key, n, 0, "", true, true);
            FateAfter(s.size, s.key, n', PreSignPool.PickStep(PreSignPool.EverySlot(), true)) == HandedOut
  {
    var n' := PutNode(s.size, s.key, n, 0, "", true, true);
    assert n'.h.slots == map[0 := PreSignPool.Good(PreSignPool.Entry(s.key, ""))];
    assert PreSignPool.Holds(n'.h.slots, s.key)(0);
    var seen := PreSignPool.Seen(n'.h.slots, PreSignPool.EverySlot());
    assert seen == n'.h.slots;
    assert PreSignPool.Search(PreSignPool.Decodable(seen), 0, 0) == 0;
    assert PreSignPool.Next(1, n'.h, PreSignPool.PickStep(PreSignPool.EverySlot(), true)).slots == map[];
  }

  /** Both nodes announce, hear of each other, and end. */
  function Succeeds(): seq<Step> {
    [Announce(0), Announce(1), Net(Barrier.Deliver(0, Barrier.Sync(1, true))),
     Net(Barrier.Deliver(1, Barrier.Sync(0, true))), Net(Barrier.Wake(0)), Net(Barrier.Wake(1)),
     Finish(0, PreSignPool.EverySlot(), true), Finish(1, PreSignPool.EverySlot(), true)]
  }

  /** The barrier of two nodes that both announce a success and hear of each other. */
  function Met(): Barrier.System {
    var a, b := Barrier.Sync(0, true), Barrier.Sync(1, true);
    Barrier.System.System(2, [Some(true), Some(true)], {a, b},
                          [Barrier.Collector([a, b], 1, None), Barrier.Collector([b, a], 1, None)])
  }

  lemma Meeting(b: Barrier.System)
    requires b == Barrier.Start(2)
    ensures var b1 := Barrier.Next(b, Barrier.Announce(0, true));
            var b2 := Barrier.Next(b1, Barrier.Announce(1, true));
            var b3 := Barrier.Next(b2, Barrier.Deliver(0, Barrier.Sync(1, true)));
            Barrier.Next(b3, Barrier.Deliver(1, Barrier.Sync(0, true))) == Met()
  {
    var m0, m1 := Barrier.Sync(0, true), Barrier.Sync(1, true);
    var b1 := Barrier.Next(b, Barrier.Announce(0, true));
    assert b1.nodes[0] == Barrier.Collector([m0], 0, None);
    var b2 := Barrier.Next(b1, Barrier.Announce(1, true));
    assert b2.nodes[0] == b1.nodes[0] && b2.nodes[1] == Barrier.Collector([m1], 0, None);
    assert b2.outcome == [Some(true), Some(true)];
    var b3 := Barrier.Next(b2, Barrier.Deliver(0, m1));
    assert b3.nodes[0] == Barrier.Collector([m0, m1], 1, None);
    var b4 := Barrier.Next(b3, Barrier.Deliver(1, m0));
    assert b4.nodes[0] == b3.nodes[0] && b4.nodes[1] == Barrier.Collector([m1, m0], 1, None);
    assert b4.nodes == Met().nodes;
  }

  lemma SucceedsEnds(s: Session)
    requires Waiting(s) && s.nodes[0].returned && s.nodes[1].returned
    ensures Legal(s, Succeeds())
    ensures var r := Run(s, Succeeds());
            && |r.nodes| == |r.b.nodes| == 2 && r.size == s.size && r.key == s.key
            && r.b.nodes[0].result == Some(true) && r.b.nodes[1].result == Some(true)
            && r.nodes[0] == FinishNode(s.size, s.key, s.nodes[0], true, PreSignPool.EverySlot(), true)
            && r.nodes[1] == FinishNode(s.size, s.key, s.nodes[1], true, PreSignPool.EverySlot(), true)
  {
    hide FinishNode, Run, Legal;
    var steps := Succeeds();
    Meeting(s.b);
    var s1 := Next(s, steps[0]);
    var s2 := Next(s1, steps[1]);
    var s3 := Next(s2, steps[2]);
    var s4 := Next(s3, steps[3]);
    assert s4.b == Met() && s4.nodes == s.nodes;
    AfterMeeting(s4, steps);
    Unfold(s3, steps, 3);
    Unfold(s2, steps, 2);
    Unfold(s1, steps, 1);
    Unfold(s, steps, 0);
    assert steps[0..] == steps;
  }

  lemma AfterMeeting(s: Session, steps: seq<Step>)
    requires WellSized(s) && s.b == Met() && s.nodes[0].phase.Ready? && s.nodes[1].phase.Ready?
    requires steps == Succeeds()
    ensures Legal(s, steps[4..])
    ensures var r := Run(s, steps[4..]);
            && |r.nodes| == |r.b.nodes| == 2 && r.size == s.size && r.key == s.key
            && r.b.nodes[0].result == Some(true) && r.b.nodes[1].result == Some(true)
            && r.nodes[0] == FinishNode(s.size, s.key, s.nodes[0], true, PreSignPool.EverySlot(), true)
            && r.nodes[1] == FinishNode(s.size, s.key, s.nodes[1], true, PreSignPool.EverySlot(), true)
  {
    hide FinishNode, Run, Legal;
    var s1 := Next(s, steps[4]);
    var s2 := Next(s1, steps[5]);
    var s3 := Next(s2, steps[6]);
    var s4 := Next(s3, steps[7]);
    NoSteps(s4, steps[8..]);
    Unfold(s3, steps, 7);
    Unfold(s2, steps, 6);
    Unfold(s1, steps, 5);
    Unfold(s, steps, 4);
  }

  lemma NoSteps(s: Session, steps: seq<Step>)
    requires steps == []
    ensures Legal(s, steps) && Run(s, steps) == s
  {
  }

  /** A forced put onto an occupied slot whose write fails is announced as a success: every barrier
      succeeds, and the node does not have the entry. */
  function NotWritten(): seq<Step> { [PutEntry(0, 0, "", true, false), PutEntry(1, 0, "", true, true)] + Succeeds() }

  const OLDER := PreSignPool.Entry("x", "")

  const FULL := PreSignPool.History(map[0 := PreSignPool.Good(OLDER)], [OLDER], [])

  lemma LacksDespiteSuccess()
    ensures var s0 := Pair(FULL);
            && Start(s0) && Legal(s0, NotWritten())
            && var s := Run(s0, NotWritten());
            && |s.b.nodes| == |s.nodes| == 2
            && s.nodes[0].phase.Ended? && s.b.nodes[0].result == Some(true) && !Keeps(s, 0)
            && s.nodes[1].phase.Ended? && s.b.nodes[1].result == Some(true) && Keeps(s, 1)
  {
    hide PutNode, FinishNode, HasEntry, Succeeds, Run, Legal, PreSignPool.Next;
    var s0, steps := Pair(FULL), NotWritten();
    StartHasInv(s0);
    var s1 := Next(s0, steps[0]);
    NextKeepsInv(s0, steps[0]);
    PutWritesIff(s0, 0, 0, "", true, false);
    PutNodePhase(s0, s0.nodes[0], 0, "", true, false);
    var s2 := Next(s1, steps[1]);
    PutWritesIff(s1, 1, 0, "", true, true);
    PutNodePhase(s1, s1.nodes[1], 0, "", true, true);
    SucceedsEnds(s2);
    FinishNodeFields(s2, s2.nodes[0], true, true);
    FinishNodeFields(s2, s2.nodes[1], true, true);
    assert steps[2..] == Succeeds();
    Unfold(s1, steps, 1);
    Unfold(s0, steps, 0);
    assert steps[0..] == steps;
    EveryRunSettles(s0, steps, 0);
    EveryRunSettles(s0, steps, 1);
  }
}
