/** The approval latch of a session: approvals of bound accounts are collected until there are
    enough entries, each answer is merged into the stored record, and the decision follows. */
module Quorum {
  import opened Common
  import opened Approvals
  import Lifecycle

  /** The nodes of the group and the fields of the group-signature string: a count followed by
      enode and account in turn. */
  datatype Group = Group(nodes: seq<string>, mms: seq<string>, nodeCount: Option<nat>)

  datatype Reply = Reply(enode: string, from: string, accept: string, time: int)

  datatype Config = Config(key: Lifecycle.Key, parse: Parser, group: Option<Group>, quorum: int, initial: seq<Raw>)

  /** A session and the databases; `fed` is the history of the approvals that were let in. */
  datatype Session = Session(list: seq<Raw>, replies: seq<Reply>, approved: bool, signals: nat,
                             fed: seq<Raw>, h: Lifecycle.History)

  // ------------------------------------------------------------ bound accounts

  predicate RightLength(g: Group) {
    |g.mms| >= 3 && g.nodeCount.Some? && |g.mms| == 2 * g.nodeCount.value + 1
  }

  predicate BoundAt(g: Group, k: int, from: string) {
    0 <= k < |g.mms| - 1 && g.mms[k] in g.nodes && g.mms[k + 1] == from
  }

  /** The account stands behind the enode of some group node. */
  predicate Bound(g: Group, from: string) {
    exists k :: 0 <= k < |g.mms| && BoundAt(g, k, from)
  }

  predicate ValidAccept(g: Group, from: string) {
    from != "" && RightLength(g) && Bound(g, from)
  }

  /** `IsValidAccept`. */
  method IsValidAccept(g: Group, from: string) returns (r: bool)
    ensures r == ValidAccept(g, from)
  {
    if from == "" || |g.mms| < 3 || g.nodeCount.None? || |g.mms| != 2 * g.nodeCount.value + 1 {
      return false;
    }
    var i := 0;
    while i < |g.nodes|
      invariant 0 <= i <= |g.nodes|
      invariant forall j, k :: 0 <= j < i && 0 <= k < |g.mms| - 1 ==> !(g.mms[k] == g.nodes[j] && g.mms[k + 1] == from)
    {
      var k := 0;
      while k < |g.mms|
        invariant 0 <= k <= |g.mms|
        invariant forall n :: 0 <= n < k && n < |g.mms| - 1 ==> !(g.mms[n] == g.nodes[i] && g.mms[n + 1] == from)
      {
        if g.mms[k] == g.nodes[i] && k + 1 < |g.mms| && g.mms[k + 1] == from {
          assert BoundAt(g, k, from);
          return true;
        }
        k := k + 1;
      }
      i := i + 1;
    }
    return false;
  }

  /** The enode of an account: found, missing, or an index before the first field. */
  datatype Lookup = Enode(name: string) | NoEnode | OutOfRange

  /** `GetENodeByFrom`: the field before the first field that is the account. */
  function LookupENode(g: Group, from: string): Lookup {
    if from == "" || !RightLength(g) then NoEnode
    else
      var k := FirstIndex(g.mms, from);
      if k == |g.mms| then NoEnode
      else if k == 0 then OutOfRange
      else if g.mms[k - 1] == "" then NoEnode
      else Enode(g.mms[k - 1])
  }

  method GetENodeByFrom(g: Group, from: string) returns (r: Lookup)
    ensures r == LookupENode(g, from)
  {
    if from == "" || |g.mms| < 3 || g.nodeCount.None? || |g.mms| != 2 * g.nodeCount.value + 1 {
      return NoEnode;
    }
    var k := 0;
    while k < |g.mms|
      invariant 0 <= k <= |g.mms|
      invariant forall j :: 0 <= j < k ==> g.mms[j] != from
    {
      if g.mms[k] == from {
        if k - 1 < 0 {
          return OutOfRange;
        }
        var enode := g.mms[k - 1];
        if enode == "" {
          return NoEnode;
        }
        return Enode(enode);
      }
      k := k + 1;
    }
    return NoEnode;
  }

  /** Accounts stand at even positions behind non-empty enodes and nowhere else. */
  predicate WellBound(g: Group) {
    && RightLength(g)
    && forall i, j :: 0 < i < |g.mms| && i % 2 == 0 && 0 <= j < |g.mms| && g.mms[j] == g.mms[i] ==>
         j > 0 && j % 2 == 0 && g.mms[j - 1] != ""
  }

  /** In a well-bound group no node's enode is also an account. */
  predicate EnodesAreEnodes(g: Group) {
    forall k :: 0 <= k < |g.mms| && g.mms[k] in g.nodes ==> k % 2 == 1
  }

  /** Under well-bound signatures, every account that may approve has an enode. */
  lemma ApproverHasENode(g: Group, from: string)
    requires WellBound(g) && EnodesAreEnodes(g) && ValidAccept(g, from)
    ensures LookupENode(g, from).Enode?
  {
    var k :| 0 <= k < |g.mms| && BoundAt(g, k, from);
    assert k % 2 == 1;
    var i := k + 1;
    var j := FirstIndex(g.mms, from);
    assert g.mms[i] == from && j <= i;
    assert g.mms[j] == g.mms[i];
  }

  /** An account may approve exactly if the fields are a count n and n pairs, at least one, and it is the field behind
      the enode of a node of the group. */
  lemma ValidAcceptIff(g: Group, from: string)
    ensures ValidAccept(g, from)
            <==> && |from| > 0 && g.nodeCount.Some? && |g.mms| == 1 + g.nodeCount.value + g.nodeCount.value
                 && g.nodeCount.value >= 1
                 && exists j, k :: 0 <= j < |g.nodes| && 1 <= k < |g.mms| && g.nodes[j] == g.mms[k - 1]
                                   && g.mms[k] == from
  {
    if ValidAccept(g, from) {
      var k :| 0 <= k < |g.mms| && BoundAt(g, k, from);
      var j :| 0 <= j < |g.nodes| && g.nodes[j] == g.mms[k];
      var l := k + 1;
      assert g.nodes[j] == g.mms[l - 1] && g.mms[l] == from;
    }
    if j, k :| 0 <= j < |g.nodes| && 1 <= k < |g.mms| && g.nodes[j] == g.mms[k - 1] && g.mms[k] == from {
      assert BoundAt(g, k - 1, from);
    }
  }

  /** The enode of an account is the field before its first occurrence, if that is not empty; an account that is the
      first field has an index out of range, and one that does not occur has none. */
  lemma LookupMeans(g: Group, from: string, k: nat)
    requires |from| > 0 && g.nodeCount.Some? && |g.mms| == 1 + g.nodeCount.value + g.nodeCount.value >= 3
    requires k <= |g.mms| && (forall j :: 0 <= j < k ==> g.mms[j] != from) && (k < |g.mms| ==> g.mms[k] == from)
    ensures LookupENode(g, from)
            == if k == |g.mms| then NoEnode else if k == 0 then OutOfRange
               else if |g.mms[k - 1]| == 0 then NoEnode else Enode(g.mms[k - 1])
  {
    assert FirstIndex(g.mms, from) == k;
  }

  lemma LookupFails(g: Group, from: string)
    requires from == "" || g.nodeCount.None? || g.nodeCount.value == 0 || |g.mms| != 2 * g.nodeCount.value + 1
    ensures LookupENode(g, from) == NoEnode
  {
  }

  // ------------------------------------------------------------------- approval

  function Answer(accept: string): string {
    if accept == "" then "DISAGREE" else accept
  }

  function UpdateFor(ac: Lifecycle.Record, accept: string): Lifecycle.Update {
    Lifecycle.Update(ac.initiator, "false", Answer(accept), if accept != "AGREE" then "Failure" else "Pending",
                     "", "", "", None, ac.workID, "")
  }

  function IndexOf(replies: seq<Reply>, from: string): (k: nat)
    ensures k <= |replies|
    ensures k < |replies| ==> replies[k].from == from
    ensures forall j :: 0 <= j < k ==> replies[j].from != from
  {
    if replies == [] || replies[0].from == from then 0 else 1 + IndexOf(replies[1..], from)
  }

  function Upsert(replies: seq<Reply>, r: Reply): seq<Reply> {
    var k := IndexOf(replies, r.from);
    if k < |replies| then replies[k := r] else replies + [r]
  }

  /** The checks before an approval reaches the list. */
  predicate LetIn(c: Config, s: Session, raw: Raw, ac: Lifecycle.Record) {
    && Parses(c.parse, raw) && c.parse(raw).value.answer.Some?
    && !s.approved
    && (c.key.kind == Lifecycle.Sign ==> ac.deal != "true" && ac.status !in {"Success", "Failure", "Timeout"})
    && c.group.Some?
    && ValidAccept(c.group.value, Sender(c.parse, raw))
  }

  predicate Taken(c: Config, s: Session, raw: Raw, ac: Lifecycle.Record) {
    LetIn(c, s, raw, ac) && !Find(s.list, raw) && Filter(c.parse, raw, s.list).ok
  }

  /** `ExecApproveKeyGen`, `ExecApproveSigning`. Without an enode for the sender the handler ends
      after the list and the record have been changed. */
  function Approve(c: Config, s: Session, raw: Raw, ac: Lifecycle.Record, faults: Lifecycle.Faults): Session {
    if !LetIn(c, s, raw, ac) then s
    else
      var s1 := s.(list := Feed(c.parse, s.list, raw), fed := s.fed + [raw]);
      if !Taken(c, s, raw, ac) then s1
      else
        var e := c.parse(raw).value;
        var u := UpdateFor(ac, e.answer.value);
        var s2 := s1.(h := Lifecycle.Next(s.h, Lifecycle.Decide(c.key, u, faults)));
        var enode := LookupENode(c.group.value, e.sender);
        if !enode.Enode? then s2
        else
          var s3 := s2.(replies := Upsert(s2.replies, Reply(enode.name, e.sender, Answer(e.answer.value), e.time)));
          if |s3.list| >= c.quorum then s3.(approved := true, signals := s3.signals + 1) else s3
  }

  /** Approvals that are refused at once: not an approval, too late, of a signing request that is dealt with or
      finished, or of an account that may not approve. */
  predicate Refused(c: Config, s: Session, raw: Raw, ac: Lifecycle.Record) {
    || raw == "" || c.parse(raw).None? || c.parse(raw).value.answer.None? || s.approved || c.group.None?
    || (c.key.kind == Lifecycle.Sign
        && (ac.deal == "true" || ac.status == "Success" || ac.status == "Failure" || ac.status == "Timeout"))
    || !ValidAccept(c.group.value, c.parse(raw).value.sender)
  }

  /** What one approval does. Refused, it changes nothing. Known or outdated, at most the list. Otherwise its answer
      goes into the record, an empty one as DISAGREE and all but AGREE as a failure, and the latch is raised,
      once, exactly if its sender has an enode and the list has reached the quorum. */
  lemma ApproveEffect(c: Config, s: Session, raw: Raw, ac: Lifecycle.Record, faults: Lifecycle.Faults)
    ensures var s' := Approve(c, s, raw, ac, faults);
            if Refused(c, s, raw, ac) then s' == s
            else if !Taken(c, s, raw, ac) then
              s' == s.(list := Feed(c.parse, s.list, raw), fed := s.fed + [raw])
            else
              var e := c.parse(raw).value;
              var answer := e.answer.value;
              var u := Lifecycle.KEEP.(initiator := ac.initiator, deal := "false", workID := ac.workID,
                                       accept := if |answer| == 0 then "DISAGREE" else answer,
                                       status := if answer == "AGREE" then "Pending" else "Failure");
              && s'.list == Feed(c.parse, s.list, raw) && s'.fed == s.fed + [raw]
              && s'.h == Lifecycle.Next(s.h, Lifecycle.Decide(c.key, u, faults))
              && (s'.approved <==> LookupENode(c.group.value, e.sender).Enode? && |s'.list| >= c.quorum)
              && s'.signals == s.signals + (if s'.approved then 1 else 0)
  {
    hide Feed, LookupENode, Lifecycle.Next, ValidAccept;
  }

  lemma TakenIsLetIn(c: Config, s: Session, raw: Raw, ac: Lifecycle.Record)
    ensures Taken(c, s, raw, ac) ==> !Refused(c, s, raw, ac)
  {
  }

  // ---------------------------------------------------------------------- runs

  datatype Step =
    | Approval(raw: Raw, ac: Lifecycle.Record, faults: Lifecycle.Faults)
    | Other(step: Lifecycle.Step)

  /** What is in the list before the first approval is the command. */
  predicate CommandsOnly(c: Config) {
    forall i :: 0 <= i < |c.initial| && Parses(c.parse, c.initial[i]) ==> c.parse(c.initial[i]).value.answer.None?
  }

  /** A session starts with the command itself, when it passed the filter. */
  function Begin(c: Config, h: Lifecycle.History): Session {
    Session(FeedAll(c.parse, [], c.initial), [], false, 0, [], h)
  }

  function Next(c: Config, s: Session, step: Step): Session {
    match step
    case Approval(raw, ac, faults) => Approve(c, s, raw, ac, faults)
    case Other(lstep) => s.(h := Lifecycle.Next(s.h, lstep))
  }

  function Run(c: Config, s: Session, steps: seq<Step>): Session {
    if steps == [] then s else Next(c, Run(c, s, steps[..|steps| - 1]), steps[|steps| - 1])
  }

  /** The step is an approval that is taken, of an account with an enode, and the list then has the quorum. */
  predicate Completes(c: Config, s: Session, step: Step) {
    && step.Approval? && Taken(c, s, step.raw, step.ac)
    && LookupENode(c.group.value, c.parse(step.raw).value.sender).Enode?
    && |Feed(c.parse, s.list, step.raw)| >= c.quorum
  }

  ghost predicate Completed(c: Config, s: Session, steps: seq<Step>) {
    exists m :: 0 <= m < |steps| && Completes(c, Run(c, s, steps[..m]), steps[m])
  }

  lemma CompletedSplit(c: Config, s: Session, steps: seq<Step>)
    requires steps != []
    ensures var before := steps[..|steps| - 1];
            Completed(c, s, steps) <==> Completed(c, s, before) || Completes(c, Run(c, s, before), steps[|steps| - 1])
  {
    hide Run, Completes;
    var n := |steps| - 1;
    var before := steps[..n];
    assert forall m :: 0 <= m < n ==> before[..m] == steps[..m] && before[m] == steps[m];
    if Completed(c, s, before) {
      var m :| 0 <= m < |before| && Completes(c, Run(c, s, before[..m]), before[m]);
      assert Completes(c, Run(c, s, steps[..m]), steps[m]);
    }
    if Completed(c, s, steps) {
      var m :| 0 <= m < |steps| && Completes(c, Run(c, s, steps[..m]), steps[m]);
      assert m < n ==> Completes(c, Run(c, s, before[..m]), before[m]);
    }
  }

  /** The latch of a session is raised exactly if some approval completed the quorum. */
  lemma {:induction false} ApprovedIff(c: Config, h: Lifecycle.History, steps: seq<Step>)
    ensures Run(c, Begin(c, h), steps).approved <==> Completed(c, Begin(c, h), steps)
  {
    hide Next, Completed, Completes;
    if steps == [] {
      NothingCompleted(c, h);
    } else {
      var n := |steps| - 1;
      ApprovedIff(c, h, steps[..n]);
      CompletedSplit(c, Begin(c, h), steps);
      ApprovedStep(c, Run(c, Begin(c, h), steps[..n]), steps[n]);
    }
  }

  lemma NothingCompleted(c: Config, h: Lifecycle.History)
    ensures !Completed(c, Begin(c, h), [])
  {
  }

  lemma ApprovedStep(c: Config, s: Session, step: Step)
    ensures Next(c, s, step).approved <==> s.approved || Completes(c, s, step)
  {
    hide Feed, LookupENode, Lifecycle.Next;
    if step.Approval? {
      ApproveEffect(c, s, step.raw, step.ac, step.faults);
      TakenIsLetIn(c, s, step.raw, step.ac);
    }
  }

  // ---------------------------------------------------------------- invariants

  predicate IsApproval(parse: Parser, raw: Raw) {
    Parses(parse, raw) && parse(raw).value.answer.Some?
  }

  /** An approval whose sender has an enode. */
  predicate Answers(c: Config, raw: Raw) {
    IsApproval(c.parse, raw) && c.group.Some? && LookupENode(c.group.value, Sender(c.parse, raw)).Enode?
  }

  function ReplyOf(c: Config, raw: Raw): Reply
    requires Answers(c, raw)
  {
    var e := c.parse(raw).value;
    Reply(LookupENode(c.group.value, e.sender).name, e.sender, Answer(e.answer.value), e.time)
  }

  ghost predicate Arrived(c: Config, list: seq<Raw>, fed: seq<Raw>) {
    && list == FeedAll(c.parse, [], c.initial + fed)
    && (forall i :: 0 <= i < |fed| ==>
         IsApproval(c.parse, fed[i]) && c.group.Some? && ValidAccept(c.group.value, Sender(c.parse, fed[i])))
  }

  ghost predicate OneReplyEach(replies: seq<Reply>) {
    forall i, j :: 0 <= i < j < |replies| ==> replies[i].from != replies[j].from
  }

  /** The replies are exactly the answers in the list. */
  ghost predicate RepliesMatch(c: Config, list: seq<Raw>, replies: seq<Reply>) {
    && OneReplyEach(replies)
    && (forall raw :: raw in list && Answers(c, raw) ==> ReplyOf(c, raw) in replies)
    && (forall r :: r in replies ==> HasAnswer(c, list, r))
  }

  ghost predicate HasAnswer(c: Config, list: seq<Raw>, r: Reply) {
    exists raw :: raw in list && Answers(c, raw) && ReplyOf(c, raw) == r
  }

  ghost predicate Latch(c: Config, s: Session) {
    && s.signals == (if s.approved then 1 else 0)
    && (s.approved ==> |s.list| >= c.quorum && s.replies != [])
  }

  ghost predicate Inv(c: Config, s: Session) {
    Arrived(c, s.list, s.fed) && RepliesMatch(c, s.list, s.replies) && Latch(c, s)
  }

  lemma ArrivedIsClean(c: Config, list: seq<Raw>, fed: seq<Raw>)
    requires Arrived(c, list, fed)
    ensures Clean(c.parse, list)
  {
    FeedAllClean(c.parse, c.initial + fed);
  }

  lemma ArriveOne(c: Config, list: seq<Raw>, fed: seq<Raw>, raw: Raw)
    requires Arrived(c, list, fed) && IsApproval(c.parse, raw)
    requires c.group.Some? && ValidAccept(c.group.value, Sender(c.parse, raw))
    ensures Arrived(c, Feed(c.parse, list, raw), fed + [raw])
  {
    var all := c.initial + fed;
    assert c.initial + (fed + [raw]) == all + [raw];
    assert (all + [raw])[..|all|] == all;
  }

  lemma UpsertElements(replies: seq<Reply>, r: Reply, x: Reply)
    requires OneReplyEach(replies)
    ensures x in Upsert(replies, r) <==> x == r || (x in replies && x.from != r.from)
    ensures OneReplyEach(Upsert(replies, r))
  {
    var k := IndexOf(replies, r.from);
    var after := Upsert(replies, r);
    if x in replies && x.from != r.from {
      var i :| 0 <= i < |replies| && replies[i] == x;
      assert after[i] == x;
    }
    assert after[k] == r;
    if x in after {
      var i :| 0 <= i < |after| && after[i] == x;
      assert i != k ==> replies[i] == x;
    }
  }

  /** A taken approval replaces the answer its sender gave before. */
  lemma TakenKeepsReplies(c: Config, list: seq<Raw>, replies: seq<Reply>, raw: Raw)
    requires Clean(c.parse, list) && RepliesMatch(c, list, replies) && IsApproval(c.parse, raw)
    ensures var list' := Without(c.parse, list, Sender(c.parse, raw)) + [raw];
            var replies' := if Answers(c, raw) then Upsert(replies, ReplyOf(c, raw)) else replies;
            RepliesMatch(c, list', replies')
  {
    hide LookupENode, Upsert;
    var sender := Sender(c.parse, raw);
    var list' := Without(c.parse, list, sender) + [raw];
    var replies' := if Answers(c, raw) then Upsert(replies, ReplyOf(c, raw)) else replies;
    if Answers(c, raw) {
      UpsertElements(replies, ReplyOf(c, raw), ReplyOf(c, raw));
    }
    forall x | x in list' && Answers(c, x)
      ensures ReplyOf(c, x) in replies'
    {
      WithoutElements(c.parse, list, sender, x);
      if Answers(c, raw) {
        UpsertElements(replies, ReplyOf(c, raw), ReplyOf(c, x));
      }
    }
    forall r | r in replies'
      ensures HasAnswer(c, list', r)
    {
      if Answers(c, raw) {
        UpsertElements(replies, ReplyOf(c, raw), r);
      }
      if Answers(c, raw) && r == ReplyOf(c, raw) {
        assert raw in list';
      } else {
        var x :| x in list && Answers(c, x) && ReplyOf(c, x) == r;
        WithoutElements(c.parse, list, sender, x);
        assert x in list';
      }
    }
  }

  lemma UpsertIsNotEmpty(replies: seq<Reply>, r: Reply)
    ensures Upsert(replies, r) != []
  {
  }

  /** What the list becomes when an approval is let in. */
  lemma LetInList(c: Config, s: Session, raw: Raw, ac: Lifecycle.Record)
    requires LetIn(c, s, raw, ac) && Clean(c.parse, s.list)
    ensures Feed(c.parse, s.list, raw)
            == if Taken(c, s, raw, ac) then Without(c.parse, s.list, Sender(c.parse, raw)) + [raw] else s.list
  {
    FeedReplacesOlder(c.parse, s.list, raw);
    if raw in s.list {
      var i :| 0 <= i < |s.list| && s.list[i] == raw;
      assert Outdated(c.parse, s.list, raw);
    } else {
      FilterFromClean(c.parse, raw, [], s.list);
    }
  }

  lemma ApproveKeepsInv(c: Config, s: Session, raw: Raw, ac: Lifecycle.Record, faults: Lifecycle.Faults)
    requires Inv(c, s)
    ensures Inv(c, Approve(c, s, raw, ac, faults))
  {
    hide Arrived, RepliesMatch, Feed, Filter, Find, LookupENode, ValidAccept, Without, Clean, Upsert, Lifecycle.Next;
    if LetIn(c, s, raw, ac) {
      ArrivedIsClean(c, s.list, s.fed);
      ArriveOne(c, s.list, s.fed, raw);
      LetInList(c, s, raw, ac);
      if Taken(c, s, raw, ac) {
        TakenKeepsReplies(c, s.list, s.replies, raw);
        if Answers(c, raw) {
          UpsertIsNotEmpty(s.replies, ReplyOf(c, raw));
        }
      }
    }
  }

  lemma {:induction false} RunKeepsInv(c: Config, s: Session, steps: seq<Step>)
    requires Inv(c, s)
    ensures Inv(c, Run(c, s, steps))
  {
    hide Inv, Approve;
    if steps != [] {
      var before, last := steps[..|steps| - 1], steps[|steps| - 1];
      RunKeepsInv(c, s, before);
      var s' := Run(c, s, before);
      match last
      case Approval(raw, ac, faults) => ApproveKeepsInv(c, s', raw, ac, faults);
      case Other(lstep) => OtherKeepsInv(c, s', lstep);
    }
  }

  lemma OtherKeepsInv(c: Config, s: Session, lstep: Lifecycle.Step)
    requires Inv(c, s)
    ensures Inv(c, s.(h := Lifecycle.Next(s.h, lstep)))
  {
  }

  lemma BeginHasInv(c: Config, h: Lifecycle.History)
    requires CommandsOnly(c)
    ensures Inv(c, Begin(c, h))
  {
    var s := Begin(c, h);
    assert c.initial + [] == c.initial;
    forall raw | raw in s.list
      ensures !IsApproval(c.parse, raw)
    {
      ListIsNewest(c.parse, c.initial, raw);
    }
  }

  /** In every run of a session with any other activity on the databases: the signal is raised at
      most once; when it has been raised the list holds at least the quorum of entries from
      pairwise different senders, so all but the command are approvals of that many different
      accounts, and there is a reply to decide on; every approval in the list is of an account
      bound to a group node; and the replies are, one for each approver with an enode, exactly the
      newest answers that arrived. */
  lemma EverySession(c: Config, h: Lifecycle.History, steps: seq<Step>)
    requires CommandsOnly(c)
    ensures var s := Run(c, Begin(c, h), steps);
            && s.signals <= 1
            && (s.approved <==> s.signals == 1)
            && (s.approved ==> |s.list| >= c.quorum && s.replies != [])
            && (s.approved ==> |Approvers(c, s.list)| >= c.quorum - |c.initial|)
            && Clean(c.parse, s.list)
            && (forall raw :: raw in s.list && IsApproval(c.parse, raw) ==>
                 c.group.Some? && ValidAccept(c.group.value, Sender(c.parse, raw)))
            && OneReplyEach(s.replies)
            && (forall r :: r in s.replies <==> NewestAnswer(c, c.initial + s.fed, r))
  {
    BeginHasInv(c, h);
    RunKeepsInv(c, Begin(c, h), steps);
    var s := Run(c, Begin(c, h), steps);
    SessionFacts(c, s);
  }

  lemma SessionFacts(c: Config, s: Session)
    requires CommandsOnly(c) && Inv(c, s)
    ensures Clean(c.parse, s.list)
    ensures |s.list| <= |Approvers(c, s.list)| + |c.initial|
    ensures forall raw :: raw in s.list && IsApproval(c.parse, raw) ==>
              c.group.Some? && ValidAccept(c.group.value, Sender(c.parse, raw))
    ensures forall r :: r in s.replies <==> NewestAnswer(c, c.initial + s.fed, r)
  {
    hide ValidAccept, NewestAnswer, Approvers;
    ArrivedIsClean(c, s.list, s.fed);
    forall raw | raw in s.list && IsApproval(c.parse, raw)
      ensures c.group.Some? && ValidAccept(c.group.value, Sender(c.parse, raw))
    {
      ApprovalsAreBound(c, s.list, s.fed, raw);
    }
    forall r
      ensures r in s.replies <==> NewestAnswer(c, c.initial + s.fed, r)
    {
      RepliesAreNewest(c, s, r);
    }
    forall raw | raw in s.list && !IsApproval(c.parse, raw)
      ensures raw in c.initial
    {
      OthersAreInitial(c, s.list, s.fed, raw);
    }
    ApproversCount(c, s.list, c.initial);
    InitialCount(c.initial, s.list);
  }

  /** The accounts whose approvals are in the list. */
  function Approvers(c: Config, list: seq<Raw>): set<string> {
    set i | 0 <= i < |list| && IsApproval(c.parse, list[i]) :: Sender(c.parse, list[i])
  }

  function InBoth(a: seq<Raw>, b: seq<Raw>): set<Raw> {
    set x | x in a && x in b
  }

  lemma OthersAreInitial(c: Config, list: seq<Raw>, fed: seq<Raw>, raw: Raw)
    requires Arrived(c, list, fed) && raw in list && !IsApproval(c.parse, raw)
    ensures raw in c.initial
  {
    hide FeedAll, Newest, ValidAccept;
    var all := c.initial + fed;
    ListIsNewest(c.parse, all, raw);
    var i :| 0 <= i < |all| && all[i] == raw && Newest(c.parse, all, i);
    assert i < |c.initial|;
  }

  lemma ApproversAppend(c: Config, before: seq<Raw>, last: Raw)
    ensures Approvers(c, before + [last])
            == Approvers(c, before) + if IsApproval(c.parse, last) then {Sender(c.parse, last)} else {}
  {
    var list := before + [last];
    forall i | 0 <= i < |before| && IsApproval(c.parse, before[i])
      ensures Sender(c.parse, before[i]) in Approvers(c, list)
    {
      assert list[i] == before[i];
    }
    if IsApproval(c.parse, last) {
      assert list[|before|] == last;
    }
  }

  lemma InBothAppend(initial: seq<Raw>, before: seq<Raw>, last: Raw)
    ensures InBoth(initial, before + [last]) == InBoth(initial, before) + if last in initial then {last} else {}
  {
  }

  lemma LastIsNew(c: Config, before: seq<Raw>, last: Raw)
    requires Clean(c.parse, before + [last])
    ensures Clean(c.parse, before) && last !in before && Parses(c.parse, last)
    ensures Sender(c.parse, last) !in Approvers(c, before)
  {
    var list := before + [last];
    assert list[|before|] == last;
    assert forall i :: 0 <= i < |before| ==> list[i] == before[i];
  }

  /** Each entry of a clean list is a command, or the approval of another account. */
  lemma {:induction false} ApproversCount(c: Config, list: seq<Raw>, initial: seq<Raw>)
    requires Clean(c.parse, list) && forall raw :: raw in list && !IsApproval(c.parse, raw) ==> raw in initial
    ensures |list| <= |Approvers(c, list)| + |InBoth(initial, list)|
  {
    if list != [] {
      hide Clean, Approvers, InBoth, IsApproval;
      var n := |list| - 1;
      var before, last := list[..n], list[n];
      assert last in list && list == before + [last];
      LastIsNew(c, before, last);
      ApproversCount(c, before, initial);
      ApproversAppend(c, before, last);
      InBothAppend(initial, before, last);
      NotInBoth(initial, before, last);
    }
  }

  lemma NotInBoth(initial: seq<Raw>, before: seq<Raw>, last: Raw)
    requires last !in before
    ensures last !in InBoth(initial, before)
  {
  }

  lemma SubsetSize(a: set<Raw>, b: set<Raw>)
    requires a <= b
    ensures |a| <= |b|
  {
    assert b == a + (b - a);
  }

  lemma {:induction false} InitialCount(initial: seq<Raw>, list: seq<Raw>)
    ensures |InBoth(initial, list)| <= |initial|
  {
    if initial == [] {
      assert InBoth(initial, list) == {};
    } else {
      var n := |initial| - 1;
      InitialCount(initial[..n], list);
      SubsetSize(InBoth(initial, list), InBoth(initial[..n], list) + {initial[n]});
    }
  }

  /** With well-formed group signatures every approver has a reply. */
  lemma EveryApproverReplies(c: Config, s: Session, raw: Raw)
    requires CommandsOnly(c) && Inv(c, s) && c.group.Some?
    requires WellBound(c.group.value) && EnodesAreEnodes(c.group.value)
    requires raw in s.list && IsApproval(c.parse, raw)
    ensures Answers(c, raw) && ReplyOf(c, raw) in s.replies
  {
    hide WellBound, EnodesAreEnodes, ValidAccept;
    ApprovalsAreBound(c, s.list, s.fed, raw);
    ApproverHasENode(c.group.value, Sender(c.parse, raw));
  }

  /** The reply states the newest message of its sender among `raws`. */
  ghost predicate NewestAnswer(c: Config, raws: seq<Raw>, r: Reply) {
    exists raw :: IsNewest(c.parse, raws, raw) && Answers(c, raw) && ReplyOf(c, raw) == r
  }

  lemma ApprovalsAreBound(c: Config, list: seq<Raw>, fed: seq<Raw>, raw: Raw)
    requires CommandsOnly(c) && Arrived(c, list, fed) && raw in list && IsApproval(c.parse, raw)
    ensures c.group.Some? && ValidAccept(c.group.value, Sender(c.parse, raw))
  {
    hide FeedAll, Newest, ValidAccept;
    var all := c.initial + fed;
    ListIsNewest(c.parse, all, raw);
    var i :| 0 <= i < |all| && all[i] == raw && Newest(c.parse, all, i);
    assert i >= |c.initial|;
    assert fed[i - |c.initial|] == raw;
  }

  lemma RepliesAreNewest(c: Config, s: Session, r: Reply)
    requires Inv(c, s)
    ensures r in s.replies <==> NewestAnswer(c, c.initial + s.fed, r)
  {
    hide IsNewest, ReplyOf, Latch, Answers, FeedAll;
    var all := c.initial + s.fed;
    if r in s.replies {
      var raw :| raw in s.list && Answers(c, raw) && ReplyOf(c, raw) == r;
      ListIsNewest(c.parse, all, raw);
    }
    if NewestAnswer(c, all, r) {
      var raw :| IsNewest(c.parse, all, raw) && Answers(c, raw) && ReplyOf(c, raw) == r;
      ListIsNewest(c.parse, all, raw);
    }
  }

  // -------------------------------------------------------- disagreement is final

  /** What a step of the session does on the databases. */
  function DbStep(c: Config, s: Session, step: Step): seq<Lifecycle.Step> {
    match step
    case Other(lstep) => [lstep]
    case Approval(raw, ac, faults) =>
      if Taken(c, s, raw, ac) then
        [Lifecycle.Decide(c.key, UpdateFor(ac, c.parse(raw).value.answer.value), faults)]
      else []
  }

  function DbSteps(c: Config, s: Session, steps: seq<Step>): seq<Lifecycle.Step> {
    if steps == [] then []
    else
      var before := steps[..|steps| - 1];
      DbSteps(c, s, before) + DbStep(c, Run(c, s, before), steps[|steps| - 1])
  }

  lemma NextOnDb(c: Config, s: Session, step: Step)
    ensures |DbStep(c, s, step)| <= 1
    ensures Next(c, s, step).h
            == if DbStep(c, s, step) == [] then s.h else Lifecycle.Next(s.h, DbStep(c, s, step)[0])
  {
    hide Lifecycle.Next, Feed, Upsert, LookupENode, UpdateFor;
  }

  lemma {:induction false} RunOnDb(c: Config, s: Session, steps: seq<Step>)
    ensures Run(c, s, steps).h == Lifecycle.Run(s.h, DbSteps(c, s, steps))
  {
    if steps != [] {
      hide Lifecycle.Next, Next, DbStep;
      var before := steps[..|steps| - 1];
      RunOnDb(c, s, before);
      var done, now := DbSteps(c, s, before), DbStep(c, Run(c, s, before), steps[|steps| - 1]);
      NextOnDb(c, Run(c, s, before), steps[|steps| - 1]);
      if now == [] {
        assert done + now == done;
      } else {
        assert now == [now[0]];
        assert (done + now)[..|done|] == done;
      }
    }
  }

  /** The request is not stored as anything but Failure, unless it was decided before. */
  ghost predicate FailsOnly(key: Lifecycle.Key, before: Lifecycle.History, h: Lifecycle.History) {
    var r := Lifecycle.Request(key);
    r in h.db.general && r !in before.db.general ==>
      h.db.general[r].Rec? && h.db.general[r].rec.status == "Failure"
  }

  /** The disagreement takes the record out of the pending database, or it has left it before. */
  predicate Recorded(s: Session, key: Lifecycle.Key, faults: Lifecycle.Faults) {
    key !in s.h.db.pending || (faults.readPending && faults.delete)
  }

  /** After an answer other than AGREE was taken, the request is never stored as anything but
      Failure, whatever approvals, decisions, requests and restarts follow, if and only if the
      record could be read and deleted, or had left the pending database before. The source does
      not look at the result. (What follows must not replay a nonce.) */
  lemma DisagreementIsFinal(c: Config, s: Session, raw: Raw, ac: Lifecycle.Record, faults: Lifecycle.Faults)
    requires Lifecycle.Inv(s.h) && c.key in s.h.saved
    requires Taken(c, s, raw, ac) && c.parse(raw).value.answer != Some("AGREE")
    ensures var s1 := Approve(c, s, raw, ac, faults);
            (forall steps: seq<Step> :: Lifecycle.NoReplay(s1.h, DbSteps(c, s1, steps)) ==>
              FailsOnly(c.key, s.h, Run(c, s1, steps).h))
            <==> Recorded(s, c.key, faults)
  {
    hide Lifecycle.Inv, Lifecycle.NoReplay, Run, FailsOnly, Recorded, Taken, DbSteps;
    var s1 := Approve(c, s, raw, ac, faults);
    if Recorded(s, c.key, faults) {
      forall steps: seq<Step> | Lifecycle.NoReplay(s1.h, DbSteps(c, s1, steps))
        ensures FailsOnly(c.key, s.h, Run(c, s1, steps).h)
      {
        RecordedIsFinal(c, s, raw, ac, faults, steps);
      }
    } else {
      var steps := [SuccessStep(c)];
      LostCanSucceed(c, s, raw, ac, faults);
      assert Lifecycle.NoReplay(s1.h, DbSteps(c, s1, steps)) && !FailsOnly(c.key, s.h, Run(c, s1, steps).h);
    }
  }

  lemma TakenOnDb(c: Config, s: Session, raw: Raw, ac: Lifecycle.Record, faults: Lifecycle.Faults)
    requires Taken(c, s, raw, ac)
    ensures Approve(c, s, raw, ac, faults).h
            == Lifecycle.Next(s.h, Lifecycle.Decide(c.key, UpdateFor(ac, c.parse(raw).value.answer.value), faults))
  {
    hide Feed, Upsert, LookupENode, Lifecycle.Next, UpdateFor;
  }

  lemma RecordedIsFinal(c: Config, s: Session, raw: Raw, ac: Lifecycle.Record, faults: Lifecycle.Faults,
                        steps: seq<Step>)
    requires Lifecycle.Inv(s.h) && c.key in s.h.saved
    requires Taken(c, s, raw, ac) && c.parse(raw).value.answer != Some("AGREE") && Recorded(s, c.key, faults)
    requires var s1 := Approve(c, s, raw, ac, faults); Lifecycle.NoReplay(s1.h, DbSteps(c, s1, steps))
    ensures var h := Run(c, Approve(c, s, raw, ac, faults), steps).h;
            c.key !in h.db.pending && FailsOnly(c.key, s.h, h)
  {
    hide Lifecycle.Inv, Lifecycle.NoReplay, Approve, Lifecycle.Next, Recorded;
    var u := UpdateFor(ac, c.parse(raw).value.answer.value);
    var s1 := Approve(c, s, raw, ac, faults);
    TakenOnDb(c, s, raw, ac, faults);
    FailureCloses(s, c.key, u, faults);
    Lifecycle.NextKeepsInv(s.h, Lifecycle.Decide(c.key, u, faults));
    RunOnDb(c, s1, steps);
    Lifecycle.ClosedForEver(s1.h, DbSteps(c, s1, steps), c.key);
  }

  lemma FailureCloses(s: Session, key: Lifecycle.Key, u: Lifecycle.Update, faults: Lifecycle.Faults)
    requires Lifecycle.Inv(s.h) && key in s.h.saved && u.status == "Failure" && Recorded(s, key, faults)
    ensures var h := Lifecycle.Next(s.h, Lifecycle.Decide(key, u, faults));
            Lifecycle.Closed(h, key) && FailsOnly(key, s.h, h)
  {
    hide Lifecycle.Consecutive, Lifecycle.NoncesStored, Lifecycle.CountAccount;
  }

  /** The end of a key generation or signing that has gone well. */
  function SuccessStep(c: Config): Step {
    Other(Lifecycle.Decide(c.key, Lifecycle.KEEP.(status := "Success"), Lifecycle.NO_FAULTS))
  }

  /** A disagreement that is not recorded leaves the request pending, and it can succeed. */
  lemma LostCanSucceed(c: Config, s: Session, raw: Raw, ac: Lifecycle.Record, faults: Lifecycle.Faults)
    requires Lifecycle.Inv(s.h)
    requires Taken(c, s, raw, ac) && c.parse(raw).value.answer != Some("AGREE") && !Recorded(s, c.key, faults)
    ensures var s1 := Approve(c, s, raw, ac, faults);
            && Lifecycle.NoReplay(s1.h, DbSteps(c, s1, [SuccessStep(c)]))
            && !FailsOnly(c.key, s.h, Run(c, s1, [SuccessStep(c)]).h)
  {
    hide Lifecycle.Consecutive, Lifecycle.NoncesStored, Lifecycle.CountAccount, Approve;
    TakenOnDb(c, s, raw, ac, faults);
    var s1 := Approve(c, s, raw, ac, faults);
    assert UpdateFor(ac, c.parse(raw).value.answer.value).status == "Failure";
    assert "Failure"[0] != "Pending"[0];
    assert s1.h.db == s.h.db;
    var steps := [SuccessStep(c)];
    assert steps[..0] == [];
    assert Run(c, s1, steps) == Next(c, s1, steps[0]);
    assert DbSteps(c, s1, steps) == [steps[0].step];
  }

  // ------------------------------------------------------------------ the decision

  predicate Agrees(accept: string) {
    Fold(accept) == Fold("Agree")
  }

  /** An answer is an agreement exactly when it says so itself; no answer is none. */
  lemma AnswerAgreesIff(accept: string)
    ensures Agrees(Answer(accept)) <==> Fold(accept) == Fold("Agree")
  {
    assert |Fold("DISAGREE")| != |Fold("Agree")|;
    assert |Fold("")| != |Fold("Agree")|;
  }

  function ReplyLine(r: Reply, initiator: string): Lifecycle.NodeReply {
    Lifecycle.NodeReply(r.enode, r.accept, r.time, if initiator == r.enode then "1" else "0")
  }

  /** `GetAllReplyFromGroup2` and the loop over its result after the signal. */
  method Decide(replies: seq<Reply>, initiator: string) returns (ars: seq<Lifecycle.NodeReply>, reply: bool)
    ensures |ars| == |replies| && forall i :: 0 <= i < |ars| ==> ars[i] == ReplyLine(replies[i], initiator)
    ensures forall i :: 0 <= i < |ars| ==>
              && ars[i].enode == replies[i].enode && ars[i].status == replies[i].accept
              && ars[i].time == replies[i].time
              && ars[i].initiator == if replies[i].enode == initiator then "1" else "0"
    ensures reply <==> forall r :: r in replies ==> Agrees(r.accept)
  {
    ars, reply := [], true;
    var i := 0;
    while i < |replies|
      invariant 0 <= i <= |replies| && |ars| == i
      invariant forall j :: 0 <= j < i ==> ars[j] == ReplyLine(replies[j], initiator)
    {
      var r := replies[i];
      var initiated := "0";
      if initiator == r.enode {
        initiated := "1";
      }
      ars := ars + [Lifecycle.NodeReply(r.enode, r.accept, r.time, initiated)];
      i := i + 1;
    }
    i := 0;
    while i < |ars|
      invariant 0 <= i <= |ars|
      invariant forall j :: 0 <= j < i ==> Agrees(replies[j].accept)
    {
      if !Agrees(ars[i].status) {
        return ars, false;
      }
      i := i + 1;
    }
  }

  /** The decision is positive exactly when the newest answer of every approver with an enode is an
      agreement. */
  lemma DecisionIsUnanimous(c: Config, h: Lifecycle.History, steps: seq<Step>)
    requires CommandsOnly(c)
    ensures var s := Run(c, Begin(c, h), steps);
            (forall r :: r in s.replies ==> Agrees(r.accept))
            <==> (forall raw :: IsNewest(c.parse, c.initial + s.fed, raw) && Answers(c, raw) ==>
                   Agrees(c.parse(raw).value.answer.value))
  {
    hide Agrees, IsNewest, Run, Answer, ValidAccept, LookupENode, Approvers;
    EverySession(c, h, steps);
    var s := Run(c, Begin(c, h), steps);
    var all := c.initial + s.fed;
    if forall r :: r in s.replies ==> Agrees(r.accept) {
      forall raw | IsNewest(c.parse, all, raw) && Answers(c, raw)
        ensures Agrees(c.parse(raw).value.answer.value)
      {
        assert NewestAnswer(c, all, ReplyOf(c, raw));
        SameAgreement(c.parse(raw).value.answer.value);
      }
    }
    if forall raw :: IsNewest(c.parse, all, raw) && Answers(c, raw) ==> Agrees(c.parse(raw).value.answer.value) {
      forall r | r in s.replies
        ensures Agrees(r.accept)
      {
        assert NewestAnswer(c, all, r);
        var raw :| IsNewest(c.parse, all, raw) && Answers(c, raw) && ReplyOf(c, raw) == r;
        SameAgreement(c.parse(raw).value.answer.value);
      }
    }
  }

  lemma SameAgreement(accept: string)
    ensures Agrees(Answer(accept)) <==> Agrees(accept)
  {
    AnswerAgreesIff(accept);
  }

  // ------------------------------------------------------------- the worker in place

  class Worker {
    const list: ApprovalList
    const store: Lifecycle.Store
    var replies: seq<Reply>
    var approved: bool
    var signals: nat

    constructor (approvals: ApprovalList, databases: Lifecycle.Store)
      ensures list == approvals && store == databases
      ensures replies == [] && !approved && signals == 0
    {
      list, store := approvals, databases;
      replies, approved, signals := [], false, 0;
    }

    /** The worker's part of a session whose history is `fed` and `h`. */
    ghost function State(fed: seq<Raw>, h: Lifecycle.History): Session
      reads this, list, store
    {
      Session(list.entries, replies, approved, signals, fed, h.(db := store.Contents()))
    }

    method ReplaceReply(r: Reply)
      modifies this`replies
      ensures replies == Upsert(old(replies), r)
    {
      var index := -1;
      var k := 0;
      while k < |replies| && index == -1
        invariant 0 <= k <= |replies| && replies == old(replies)
        invariant index == -1 ==> forall j :: 0 <= j < k ==> replies[j].from != r.from
        invariant index != -1 ==> index == IndexOf(replies, r.from) < |replies|
        decreases |replies| - k, index == -1
      {
        if replies[k].from == r.from {
          index := k;
        } else {
          k := k + 1;
        }
      }
      if index != -1 {
        replies := replies[index := r];
      } else {
        replies := replies + [r];
      }
    }

    /** `ExecApproveKeyGen`, `ExecApproveSigning`. */
    method ExecApprove(c: Config, raw: Raw, ac: Lifecycle.Record, faults: Lifecycle.Faults,
                       ghost fed: seq<Raw>, ghost h: Lifecycle.History)
      modifies this, list, store
      ensures var s' := Approve(c, old(State(fed, h)), raw, ac, faults);
              State(s'.fed, s'.h) == s'
    {
      hide Filter, Upsert, LookupENode, ValidAccept, Lifecycle.Accept;
      ghost var s := State(fed, h);
      ghost var s' := Approve(c, s, raw, ac, faults);
      assert State(s.fed, s.h) == s;
      if raw == "" {
        return;
      }
      var parsed := c.parse(raw);
      if parsed.None? || parsed.value.answer.None? || approved {
        return;
      }
      if c.key.kind == Lifecycle.Sign && (ac.deal == "true" || ac.status in {"Success", "Failure", "Timeout"}) {
        return;
      }
      if c.group.None? {
        return;
      }
      var valid := IsValidAccept(c.group.value, parsed.value.sender);
      if !valid {
        return;
      }
      var taken := list.Take(c.parse, raw);
      if !taken {
        assert State(s'.fed, s'.h) == s';
        return;
      }
      var e := parsed.value;
      var accept, status := e.answer.value, "Pending";
      if accept == "" {
        accept := "DISAGREE";
      }
      if e.answer.value != "AGREE" {
        status := "Failure";
      }
      var u := Lifecycle.Update(ac.initiator, "false", accept, status, "", "", "", None, ac.workID, "");
      var ok := store.AcceptRequest(c.key, u, faults);
      var enode := GetENodeByFrom(c.group.value, e.sender);
      if !enode.Enode? {
        assert State(s'.fed, s'.h) == s';
        return;
      }
      ReplaceReply(Reply(enode.name, e.sender, accept, e.time));
      if |list.entries| >= c.quorum {
        approved, signals := true, signals + 1;
      }
      assert State(s'.fed, s'.h) == s';
    }
  }
}
