/** A run of a key-generation session in which a disagreement is taken, its record cannot be
    deleted, the sender changes the answer, and the request succeeds. */
module LostDisagreement {
  import opened Common
  import opened Approvals
  import opened Lifecycle
  import opened Quorum

  /** The command of the first account, a disagreement and a later agreement of the second, and an
      agreement of the third. */
  function Parse(raw: Raw): Option<Entry> {
    if raw == "C" then Some(Entry("ann", 0, None))
    else if raw == "D" then Some(Entry("beth", 1, Some("DISAGREE")))
    else if raw == "A" then Some(Entry("beth", 2, Some("AGREE")))
    else if raw == "B" then Some(Entry("carol", 3, Some("AGREE")))
    else None
  }

  const GROUP := Group(["e1", "e2", "e3"], ["3", "e1", "ann", "e2", "beth", "e3", "carol"], Some(3))

  const KEY := Key(KeyGen, "ann", 0, "EC256K1")

  const CONFIG := Config(KEY, Parse, Some(GROUP), 3, ["C"])

  const NOT_DELETED := Faults(true, true, false, true)

  /** The request has just been saved. */
  function Saved(rec: Record): History {
    Lifecycle.Next(Lifecycle.START, Lifecycle.Begin(KEY, rec, Reads(true, true), true, true, true))
  }

  lemma Beth()
    ensures ValidAccept(GROUP, "beth") && LookupENode(GROUP, "beth") == Enode("e2")
  {
    assert BoundAt(GROUP, 3, "beth");
    assert FirstIndex(GROUP.mms, "beth") == 4 by {
      assert GROUP.mms[4] == "beth" && forall j :: 0 <= j < 4 ==> |GROUP.mms[j]| != 4;
    }
  }

  lemma Carol()
    ensures ValidAccept(GROUP, "carol") && LookupENode(GROUP, "carol") == Enode("e3")
  {
    assert BoundAt(GROUP, 5, "carol");
    assert FirstIndex(GROUP.mms, "carol") == 6 by {
      assert GROUP.mms[6] == "carol" && forall j :: 0 <= j < 6 ==> |GROUP.mms[j]| != 5;
    }
  }

  /** A message of a sender who has an older entry, or none, is taken. */
  lemma Takes(s: Session, raw: Raw, ac: Record)
    requires raw in {"D", "A", "B"} && !s.approved && Clean(Parse, s.list) && !Outdated(Parse, s.list, raw)
    ensures Taken(CONFIG, s, raw, ac)
    ensures Answers(CONFIG, raw)
    ensures Feed(Parse, s.list, raw) == Without(Parse, s.list, Sender(Parse, raw)) + [raw]
  {
    hide Feed, Without, ValidAccept, LookupENode;
    Beth();
    Carol();
    assert LetIn(CONFIG, s, raw, ac);
    assert raw !in s.list;
    FilterFromClean(Parse, raw, [], s.list);
    FeedReplacesOlder(Parse, s.list, raw);
  }

  function Reply2(accept: string, time: int): Reply { Reply("e2", "beth", accept, time) }

  const REPLY3 := Reply("e3", "carol", "AGREE", 3)

  /** The database part of the three approvals. */
  function AfterD(h: History, ac: Record): History {
    Lifecycle.Next(h, Lifecycle.Decide(KEY, UpdateFor(ac, "DISAGREE"), NOT_DELETED))
  }

  function AfterAgree(h: History, ac: Record): History {
    Lifecycle.Next(h, Lifecycle.Decide(KEY, UpdateFor(ac, "AGREE"), NO_FAULTS))
  }

  lemma StepD(s: Session, ac: Record)
    requires s.list == ["C"] && s.replies == [] && !s.approved
    ensures var s' := Approve(CONFIG, s, "D", ac, NOT_DELETED);
            && s'.list == ["C", "D"] && s'.replies == [Reply2("DISAGREE", 1)] && !s'.approved
            && s'.h == AfterD(s.h, ac)
  {
    hide Lifecycle.Next, UpdateFor, LookupENode, Feed, Taken;
    Takes(s, "D", ac);
    Beth();
    assert Without(Parse, ["C"], "beth") == ["C"];
  }

  lemma StepA(s: Session, ac: Record)
    requires s.list == ["C", "D"] && s.replies == [Reply2("DISAGREE", 1)] && !s.approved
    ensures var s' := Approve(CONFIG, s, "A", ac, NO_FAULTS);
            && s'.list == ["C", "A"] && s'.replies == [Reply2("AGREE", 2)] && !s'.approved
            && s'.h == AfterAgree(s.h, ac)
  {
    hide Lifecycle.Next, UpdateFor, LookupENode, Feed, Taken;
    Takes(s, "A", ac);
    Beth();
    assert ["C", "D"][1..] == ["D"] && ["D"][1..] == [];
    assert Without(Parse, ["D"], "beth") == [];
    assert Without(Parse, ["C", "D"], "beth") == ["C"];
  }

  lemma StepB(s: Session, ac: Record)
    requires s.list == ["C", "A"] && s.replies == [Reply2("AGREE", 2)] && !s.approved
    ensures var s' := Approve(CONFIG, s, "B", ac, NO_FAULTS);
            && s'.approved && s'.replies == [Reply2("AGREE", 2), REPLY3]
            && s'.h == AfterAgree(s.h, ac)
  {
    hide Lifecycle.Next, UpdateFor, LookupENode, Feed, Taken;
    Takes(s, "B", ac);
    Carol();
    assert ["C", "A"][1..] == ["A"] && ["A"][1..] == [];
    assert Without(Parse, ["A"], "carol") == ["A"];
    assert Without(Parse, ["C", "A"], "carol") == ["C", "A"];
    assert Upsert(s.replies, REPLY3) == s.replies + [REPLY3];
  }

  /** What a worker stores on a unanimous decision, and at the end. */
  function Decided(h: History): History {
    Lifecycle.Next(h, Lifecycle.Decide(KEY, KEEP.(accept := "true", status := "Pending"), NO_FAULTS))
  }

  function Succeeded(h: History): History {
    Lifecycle.Next(h, Lifecycle.Decide(KEY, KEEP.(status := "Success"), NO_FAULTS))
  }

  ghost predicate IsPending(h: History) {
    KEY in h.db.pending && h.db.pending[KEY].status == PENDING && Request(KEY) !in h.db.general
  }

  lemma DbSteps(rec: Record, ac: Record)
    ensures var h := Decided(AfterAgree(AfterAgree(AfterD(Saved(rec), ac), ac), ac));
            IsPending(h)
  {
    assert IsPending(Saved(rec));
    StaysPendingD(Saved(rec), ac);
    StaysPending(AfterD(Saved(rec), ac), UpdateFor(ac, "AGREE"));
    StaysPending(AfterAgree(AfterD(Saved(rec), ac), ac), UpdateFor(ac, "AGREE"));
    StaysPending(AfterAgree(AfterAgree(AfterD(Saved(rec), ac), ac), ac), KEEP.(accept := "true", status := "Pending"));
  }

  lemma StaysPendingD(h: History, ac: Record)
    requires IsPending(h)
    ensures IsPending(AfterD(h, ac))
  {
  }

  lemma StaysPending(h: History, u: Update)
    requires IsPending(h) && u.status == PENDING
    ensures IsPending(Lifecycle.Next(h, Lifecycle.Decide(KEY, u, NO_FAULTS)))
  {
  }

  lemma ThreeApprovals(s0: Session, ac: Record)
    requires s0.list == ["C"] && s0.replies == [] && !s0.approved
    ensures var steps := [Approval("D", ac, NOT_DELETED), Approval("A", ac, NO_FAULTS), Approval("B", ac, NO_FAULTS)];
            var s := Quorum.Run(CONFIG, s0, steps);
            && s.approved && s.replies == [Reply2("AGREE", 2), REPLY3]
            && s.h == AfterAgree(AfterAgree(AfterD(s0.h, ac), ac), ac)
  {
    hide Approve, AfterD, AfterAgree, Quorum.Run;
    var a1, a2, a3 := Approval("D", ac, NOT_DELETED), Approval("A", ac, NO_FAULTS), Approval("B", ac, NO_FAULTS);
    var s1 := Approve(CONFIG, s0, "D", ac, NOT_DELETED);
    var s2 := Approve(CONFIG, s1, "A", ac, NO_FAULTS);
    StepD(s0, ac);
    StepA(s1, ac);
    StepB(s2, ac);
    ThreeSteps(s0, a1, a2, a3);
  }

  lemma RepliesAgree()
    ensures forall r :: r in [Reply2("AGREE", 2), REPLY3] ==> Agrees(r.accept)
  {
    assert Fold("AGREE") == Fold("Agree");
  }

  /** The whole run: the session takes the disagreement, the latch fires on the newer agreements,
      all replies agree, and the record becomes Success. */
  lemma DisagreementIsLost(rec: Record, ac: Record)
    ensures var s0 := Quorum.Begin(CONFIG, Saved(rec));
            var steps := [Approval("D", ac, NOT_DELETED), Approval("A", ac, NO_FAULTS), Approval("B", ac, NO_FAULTS)];
            var s := Quorum.Run(CONFIG, s0, steps);
            var h := Succeeded(Decided(s.h));
            && Taken(CONFIG, s0, "D", ac)
            && s.approved && (forall r :: r in s.replies ==> Agrees(r.accept))
            && Request(KEY) in h.db.general && h.db.general[Request(KEY)].Rec?
            && h.db.general[Request(KEY)].rec.status == "Success"
  {
    hide Quorum.Run, Approve, Saved, AfterD, AfterAgree, Decided, Succeeded, Taken, Agrees, IsPending;
    var s0 := Quorum.Begin(CONFIG, Saved(rec));
    StartList();
    Takes(s0, "D", ac);
    ThreeApprovals(s0, ac);
    RepliesAgree();
    DbSteps(rec, ac);
    Succeeds(Decided(AfterAgree(AfterAgree(AfterD(s0.h, ac), ac), ac)));
  }

  lemma StartList()
    ensures FeedAll(Parse, [], ["C"]) == ["C"]
  {
    assert ["C"][..0] == [];
    assert FeedAll(Parse, [], ["C"]) == Feed(Parse, [], "C");
  }

  lemma ThreeSteps(s: Session, a: Quorum.Step, b: Quorum.Step, d: Quorum.Step)
    ensures Quorum.Run(CONFIG, s, [a, b, d])
            == Quorum.Next(CONFIG, Quorum.Next(CONFIG, Quorum.Next(CONFIG, s, a), b), d)
  {
    hide Quorum.Next;
    assert [a, b, d][..2] == [a, b] && [a, b][..1] == [a] && [a][..0] == [];
    assert Quorum.Run(CONFIG, s, [a]) == Quorum.Next(CONFIG, s, a);
  }

  lemma Succeeds(h: History)
    requires IsPending(h)
    ensures var h' := Succeeded(h);
            && Request(KEY) in h'.db.general && h'.db.general[Request(KEY)].Rec?
            && h'.db.general[Request(KEY)].rec.status == "Success"
  {
  }
}
