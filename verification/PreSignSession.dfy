/** A pre-sign session of a group: every node puts its entry into its pool, announces whether that
    went well, waits at the barrier, and drops the entry if the barrier fails. The barrier and the
    pools of the nodes together decide who holds the entry. */
module PreSignSession {
  import opened Common
  import opened PreSignPool
  import Barrier

  /** What became of an entry through other operations on the pool. */
  datatype Fate = There | HandedOut | Overwritten

  /** At the end, `deleted` tells whether the entry was deleted after a failed barrier. */
  datatype Phase = Idle | Ready | Ended(deleted: bool)

  /** One node: its pool, where it is in the session, what its put returned, whether the entry was
      written into the pool, whether the session dropped it, and its fate otherwise. */
  datatype Member = Member(h: History, phase: Phase, returned: bool, wrote: bool, dropped: bool, fate: Fate)

  datatype Session = Session(size: nat, key: string, b: Barrier.System, nodes: seq<Member>)

  datatype Step =
    | NoEntry(i: nat)
    | PutEntry(i: nat, index: int, data: string, read: bool, written: bool)
    | Announce(i: nat)
    | Net(step: Barrier.Step)
    | Finish(i: nat, visible: Visible, deleted: bool)
    | Other(i: nat, op: PreSignPool.Step)

  /** The entry of the session is where searches look for it. */
  predicate HasEntry(slots: Slots, size: nat, key: string) {
    exists i :: 0 <= i < size && Holds(slots, key)(i)
  }

  predicate WellSized(s: Session) {
    |s.nodes| == s.b.n && |s.b.outcome| == s.b.n && |s.b.nodes| == s.b.n && s.key != ""
  }

  /** Operations of other sessions: they use other keys, but may pick or take this entry. */
  predicate OtherOp(s: Session, h: History, op: PreSignPool.Step) {
    && Fresh(h, op)
    && (op.PutStep? ==> op.entry.key != s.key)
    && (op.DropStep? ==> op.key != s.key)
  }

  predicate Enabled(s: Session, step: Step)
    requires WellSized(s)
  {
    match step
    case NoEntry(i) => i < s.b.n && s.nodes[i].phase.Idle?
    case PutEntry(i, index, data, read, written) =>
      && i < s.b.n && s.nodes[i].phase.Idle?
      && Fresh(s.nodes[i].h, PutStep(index, Entry(s.key, data), true, read, written))
    case Announce(i) => i < s.b.n && s.nodes[i].phase.Ready? && s.b.outcome[i] == None
    case Net(st) => !st.Announce? && Barrier.Enabled(s.b, st)
    case Finish(i, _, _) => i < s.b.n && s.nodes[i].phase.Ready? && s.b.nodes[i].result.Some?
    case Other(i, op) => i < s.b.n && OtherOp(s, s.nodes[i].h, op)
  }

  function FateAfter(size: nat, key: string, n: Member, op: PreSignPool.Step): Fate {
    var h' := PreSignPool.Next(size, n.h, op);
    if HasEntry(n.h.slots, size, key) && !HasEntry(h'.slots, size, key) then
      if op.PutStep? then Overwritten else HandedOut
    else n.fate
  }

  /** The put of the branch is forced. */
  function PutNode(size: nat, key: string, n: Member, index: int, data: string, read: bool, written: bool): Member {
    var e := Entry(key, data);
    var h' := PreSignPool.Next(size, n.h, PutStep(index, e, true, read, written));
    n.(h := h', phase := Ready, returned := Put(n.h.slots, index, e, true, read, written).ok,
       wrote := HasEntry(h'.slots, size, key))
  }

  /** The end of the branch: the entry is deleted when the put was announced as a success and the
      barrier failed. */
  function FinishNode(size: nat, key: string, n: Member, result: bool, visible: Visible, deleted: bool): Member {
    if n.returned && !result then
      var ok := TakeByKey(n.h.slots, size, key, visible, deleted).entry.Some?;
      n.(h := PreSignPool.Next(size, n.h, DropStep(key, visible, deleted)), phase := Ended(ok), dropped := ok)
    else n.(phase := Ended(false))
  }

  function Next(s: Session, step: Step): Session
    requires WellSized(s) && Enabled(s, step)
  {
    match step
    case NoEntry(i) => s.(nodes := s.nodes[i := s.nodes[i].(phase := Ready, returned := false)])
    case PutEntry(i, index, data, read, written) =>
      s.(nodes := s.nodes[i := PutNode(s.size, s.key, s.nodes[i], index, data, read, written)])
    case Announce(i) => s.(b := Barrier.Next(s.b, Barrier.Announce(i, s.nodes[i].returned)))
    case Net(st) => s.(b := Barrier.Next(s.b, st))
    case Finish(i, visible, deleted) =>
      s.(nodes := s.nodes[i := FinishNode(s.size, s.key, s.nodes[i], s.b.nodes[i].result.value, visible, deleted)])
    case Other(i, op) =>
      var n := s.nodes[i];
      s.(nodes := s.nodes[i := n.(h := PreSignPool.Next(s.size, n.h, op), fate := FateAfter(s.size, s.key, n, op))])
  }

  // ------------------------------------------------------------ entries in a pool

  lemma FoundIff(slots: Slots, size: nat, key: string)
    ensures FirstWithKey(slots, key, size) >= 0 <==> HasEntry(slots, size, key)
  {
    SearchFindsLeast(Holds(slots, key), 0, size - 1);
  }

  /** A pool that never got the key has no entry with it. */
  lemma FreshIsAbsent(h: History, size: nat, key: string)
    requires PreSignPool.Inv(h) && forall k :: 0 <= k < |h.put| ==> h.put[k].key != key
    ensures !HasEntry(h.slots, size, key) && !Handed(h, key)
  {
    forall i | 0 <= i < size && Holds(h.slots, key)(i)
      ensures false
    {
      assert InPool(h.slots, i);
    }
  }

  predicate Handed(h: History, key: string) {
    exists k :: 0 <= k < |h.handed| && h.handed[k].key == key
  }

  lemma PutWrites(h: History, size: nat, index: int, e: Entry, read: bool, written: bool)
    requires !HasEntry(h.slots, size, e.key)
    ensures HasEntry(PreSignPool.Next(size, h, PutStep(index, e, true, read, written)).slots, size, e.key)
            <==> written && 0 <= index < size
  {
    var slots' := PreSignPool.Next(size, h, PutStep(index, e, true, read, written)).slots;
    if written && 0 <= index < size {
      assert Holds(slots', e.key)(index);
    }
    if HasEntry(slots', size, e.key) {
      var i :| 0 <= i < size && Holds(slots', e.key)(i);
      assert i != index ==> Holds(h.slots, e.key)(i);
    }
  }

  /** A drop succeeds exactly when it sees the entry and the delete succeeds; then the entry is gone,
      and otherwise nothing changes for it. */
  lemma DropRemoves(h: History, size: nat, key: string, visible: Visible, deleted: bool)
    requires PreSignPool.Inv(h) && key != ""
    ensures var ok := TakeByKey(h.slots, size, key, visible, deleted).entry.Some?;
            && (ok <==> HasEntry(Seen(h.slots, visible), size, key) && deleted)
            && (ok ==> HasEntry(h.slots, size, key))
            && (HasEntry(PreSignPool.Next(size, h, DropStep(key, visible, deleted)).slots, size, key)
                <==> HasEntry(h.slots, size, key) && !ok)
  {
    var seen := Seen(h.slots, visible);
    FoundIff(seen, size, key);
    FoundSlots(seen, key, size);
    SearchRange(seen, size, key);
    var r := FirstWithKey(seen, key, size);
    RemovedEntry(h, size, key, r);
    assert r >= 0 ==> Holds(h.slots, key)(r);
  }

  /** Keys are unique, so taking out the slot of the entry takes out the entry, and taking out
      another slot does not. */
  lemma RemovedEntry(h: History, size: nat, key: string, r: int)
    requires PreSignPool.Inv(h)
    ensures r >= 0 && InPool(h.slots, r) && h.slots[r].entry.key == key ==> !HasEntry(h.slots - {r}, size, key)
    ensures r < 0 || !InPool(h.slots, r) || h.slots[r].entry.key != key ==>
              (HasEntry(h.slots - {r}, size, key) <==> HasEntry(h.slots, size, key))
  {
    var slots' := h.slots - {r};
    forall i | 0 <= i < size && Holds(slots', key)(i)
      ensures InPool(h.slots, i) && h.slots[i].entry.key == key && i != r
      ensures Holds(h.slots, key)(i)
    {
    }
    if HasEntry(h.slots, size, key) && (r < 0 || !InPool(h.slots, r) || h.slots[r].entry.key != key) {
      var i :| 0 <= i < size && Holds(h.slots, key)(i);
      assert Holds(slots', key)(i);
    }
  }

  /** What a take does to the entry: it is handed out exactly when it leaves the pool. */
  lemma TakeEffect(h: History, size: nat, key: string, r: int, deleted: bool)
    requires PreSignPool.Inv(h) && -1 <= r < size && (r >= 0 ==> r in h.slots && h.slots[r].Good?)
    ensures var out := TakeAt(h.slots, r, deleted);
            && (HasEntry(out.slots, size, key) ==> HasEntry(h.slots, size, key))
            && (out.entry.Some? && out.entry.value.key == key
                <==> HasEntry(h.slots, size, key) && !HasEntry(out.slots, size, key))
  {
    RemovedEntry(h, size, key, r);
    if r >= 0 && h.slots[r].entry.key == key {
      assert Holds(h.slots, key)(r);
    }
  }

  lemma HandOutEffect(h: History, out: TakeOutcome, key: string)
    ensures Handed(HandOut(h, out), key) <==> Handed(h, key) || (out.entry.Some? && out.entry.value.key == key)
  {
    var handed' := HandOut(h, out).handed;
    if Handed(h, key) {
      var k :| 0 <= k < |h.handed| && h.handed[k].key == key;
      assert handed'[k] == h.handed[k];
    }
    if out.entry.Some? {
      assert handed'[|h.handed|] == out.entry.value;
    }
  }

  lemma SearchRange(slots: Slots, size: nat, key: string)
    ensures -1 <= FirstDecodable(slots, size) < size && -1 <= FirstWithKey(slots, key, size) < size
  {
    SearchFindsLeast(Decodable(slots), 0, size - 1);
    SearchFindsLeast(Holds(slots, key), 0, size - 1);
  }

  /** Other operations never bring the entry back, and hand it out exactly when a pick or a take
      makes it leave the pool. */
  lemma OtherOpEffect(s: Session, h: History, op: PreSignPool.Step)
    requires PreSignPool.Inv(h) && OtherOp(s, h, op)
    ensures var h' := PreSignPool.Next(s.size, h, op);
            && PreSignPool.Inv(h')
            && (HasEntry(h'.slots, s.size, s.key) ==> HasEntry(h.slots, s.size, s.key))
            && (Handed(h', s.key)
                <==> Handed(h, s.key)
                     || (!op.PutStep? && HasEntry(h.slots, s.size, s.key) && !HasEntry(h'.slots, s.size, s.key)))
  {
    hide PreSignPool.Inv, Search, HasEntry, Handed;
    PreSignPool.NextKeepsInv(s.size, h, op);
    match op
    case PutStep(_, _, _, _, _) => OtherPut(s, h, op);
    case PickStep(visible, deleted) =>
      var seen := Seen(h.slots, visible);
      FoundSlots(seen, "", s.size);
      SearchRange(seen, s.size, "");
      TakeEffect(h, s.size, s.key, FirstDecodable(seen, s.size), deleted);
      HandOutEffect(h, Pick(h.slots, s.size, visible, deleted), s.key);
    case TakeStep(key, visible, deleted) =>
      var seen := Seen(h.slots, visible);
      FoundSlots(seen, key, s.size);
      SearchRange(seen, s.size, key);
      TakeEffect(h, s.size, s.key, if key == "" then -1 else FirstWithKey(seen, key, s.size), deleted);
      HandOutEffect(h, TakeByKey(h.slots, s.size, key, visible, deleted), s.key);
    case DropStep(key, visible, deleted) =>
      var seen := Seen(h.slots, visible);
      FoundSlots(seen, key, s.size);
      SearchRange(seen, s.size, key);
      TakeEffect(h, s.size, s.key, if key == "" then -1 else FirstWithKey(seen, key, s.size), deleted);
      SameHanded(h, PreSignPool.Next(s.size, h, op), s.key);
  }

  lemma SameHanded(h: History, h': History, key: string)
    requires h'.handed == h.handed
    ensures Handed(h', key) <==> Handed(h, key)
  {
  }

  lemma OtherPut(s: Session, h: History, op: PreSignPool.Step)
    requires op.PutStep? && op.entry.key != s.key
    ensures var h' := PreSignPool.Next(s.size, h, op);
            && (HasEntry(h'.slots, s.size, s.key) ==> HasEntry(h.slots, s.size, s.key))
            && (Handed(h', s.key) <==> Handed(h, s.key))
  {
    var h' := PreSignPool.Next(s.size, h, op);
    if HasEntry(h'.slots, s.size, s.key) {
      var i :| 0 <= i < s.size && Holds(h'.slots, s.key)(i);
      assert Holds(h.slots, s.key)(i);
    }
  }

  // ------------------------------------------------------------------ invariant

  /** Where the entry is, at any time of the session. */
  ghost predicate NodeOk(size: nat, key: string, n: Member) {
    && PreSignPool.Inv(n.h)
    && (HasEntry(n.h.slots, size, key) <==> n.wrote && !n.dropped && n.fate == There)
    && (Handed(n.h, key) <==> n.fate == HandedOut)
    && (n.fate != There ==> n.wrote)
    && (n.wrote ==> n.returned)
    && (n.phase == Idle ==> !n.wrote && !n.returned && !n.dropped && n.fate == There)
    && (n.phase == Ready ==> !n.dropped)
  }

  /** The announcement is what the put returned, and the entry is dropped exactly by a failed
      barrier and a successful delete. */
  ghost predicate InStep(n: Member, outcome: Option<bool>, result: Option<bool>) {
    && (outcome.Some? ==> !n.phase.Idle? && outcome == Some(n.returned))
    && (result.Some? ==> outcome.Some?)
    && (n.phase.Ended? ==> result.Some? && (n.dropped <==> n.returned && result == Some(false) && n.phase.deleted))
  }

  ghost predicate Inv(s: Session) {
    && WellSized(s) && Barrier.Inv(s.b)
    && (forall i :: 0 <= i < s.b.n ==> NodeOk(s.size, s.key, s.nodes[i]))
    && (forall i :: 0 <= i < s.b.n ==> InStep(s.nodes[i], s.b.outcome[i], s.b.nodes[i].result))
  }

  lemma PutNodeOk(s: Session, n: Member, index: int, data: string, read: bool, written: bool)
    requires NodeOk(s.size, s.key, n) && n.phase.Idle? && s.key != ""
    requires Fresh(n.h, PutStep(index, Entry(s.key, data), true, read, written))
    ensures NodeOk(s.size, s.key, PutNode(s.size, s.key, n, index, data, read, written))
    ensures PutNode(s.size, s.key, n, index, data, read, written).wrote <==> written && 0 <= index < s.size
  {
    hide HasEntry, Handed, PreSignPool.Inv;
    var e := Entry(s.key, data);
    var op := PutStep(index, e, true, read, written);
    FreshIsAbsent(n.h, s.size, s.key);
    PreSignPool.NextKeepsInv(s.size, n.h, op);
    PutWrites(n.h, s.size, index, e, read, written);
    SameHanded(n.h, PreSignPool.Next(s.size, n.h, op), s.key);
  }

  lemma FinishNodeOk(s: Session, n: Member, result: bool, visible: Visible, deleted: bool)
    requires NodeOk(s.size, s.key, n) && n.phase.Ready? && s.key != ""
    ensures var n' := FinishNode(s.size, s.key, n, result, visible, deleted);
            && NodeOk(s.size, s.key, n')
            && n'.phase.Ended? && (n'.dropped <==> n.returned && !result && n'.phase.deleted)
  {
    hide HasEntry, Handed, PreSignPool.Inv;
    if n.returned && !result {
      var op := DropStep(s.key, visible, deleted);
      DropRemoves(n.h, s.size, s.key, visible, deleted);
      PreSignPool.NextKeepsInv(s.size, n.h, op);
      SameHanded(n.h, PreSignPool.Next(s.size, n.h, op), s.key);
    }
  }

  lemma OtherNodeOk(s: Session, n: Member, op: PreSignPool.Step)
    requires NodeOk(s.size, s.key, n) && OtherOp(s, n.h, op)
    ensures NodeOk(s.size, s.key, n.(h := PreSignPool.Next(s.size, n.h, op), fate := FateAfter(s.size, s.key, n, op)))
  {
    hide HasEntry, Handed, PreSignPool.Inv, PreSignPool.Next, OtherOp;
    OtherOpEffect(s, n.h, op);
  }

  lemma NextKeepsInv(s: Session, step: Step)
    requires Inv(s) && Enabled(s, step)
    ensures Inv(Next(s, step))
  {
    hide NodeOk, OtherOp, PutNode, FateAfter, Barrier.Inv, Fresh;
    match step
    case NoEntry(i) => NoEntryOk(s, s.nodes[i]);
    case PutEntry(i, index, data, read, written) =>
      PutNodeOk(s, s.nodes[i], index, data, read, written);
      PutNodePhase(s, s.nodes[i], index, data, read, written);
    case Announce(i) => AnnounceKeepsInv(s, i);
    case Net(st) => NetKeepsInv(s, st);
    case Finish(i, visible, deleted) => FinishNodeOk(s, s.nodes[i], s.b.nodes[i].result.value, visible, deleted);
    case Other(i, op) => OtherNodeOk(s, s.nodes[i], op);
  }

  lemma NoEntryOk(s: Session, n: Member)
    requires NodeOk(s.size, s.key, n) && n.phase.Idle?
    ensures NodeOk(s.size, s.key, n.(phase := Ready, returned := false))
  {
  }

  lemma PutNodePhase(s: Session, n: Member, index: int, data: string, read: bool, written: bool)
    ensures var n' := PutNode(s.size, s.key, n, index, data, read, written);
            && n'.phase == Ready && n'.fate == n.fate && n'.dropped == n.dropped
            && (n'.returned <==> index >= 0 && (written || !read || index in n.h.slots))
  {
  }

  lemma AnnounceKeepsInv(s: Session, i: nat)
    requires Inv(s) && Enabled(s, Announce(i))
    ensures Inv(Next(s, Announce(i)))
  {
    hide NodeOk, Barrier.Inv;
    Barrier.NextKeepsInv(s.b, Barrier.Announce(i, s.nodes[i].returned));
  }

  lemma NetKeepsInv(s: Session, st: Barrier.Step)
    requires Inv(s) && Enabled(s, Net(st))
    ensures Inv(Next(s, Net(st)))
  {
    hide NodeOk, Barrier.Inv;
    Barrier.NextKeepsInv(s.b, st);
  }

  // ------------------------------------------------------------------- every run

  predicate NeverPut(h: History, key: string) {
    forall k :: 0 <= k < |h.put| ==> h.put[k].key != key
  }

  function Before(h: History): Member { Member(h, Idle, false, false, false, There) }

  /** A node before the session, with any pool that never got the key of the session. */
  ghost predicate Unstarted(n: Member, key: string) {
    PreSignPool.Inv(n.h) && NeverPut(n.h, key) && n == Before(n.h)
  }

  ghost predicate Start(s: Session) {
    && WellSized(s) && s.b == Barrier.Start(s.b.n)
    && forall i :: 0 <= i < s.b.n ==> Unstarted(s.nodes[i], s.key)
  }

  lemma StartHasInv(s: Session)
    requires Start(s)
    ensures Inv(s)
  {
    Barrier.StartHasInv(s.b.n);
    forall i | 0 <= i < s.b.n
      ensures NodeOk(s.size, s.key, s.nodes[i])
    {
      assert Unstarted(s.nodes[i], s.key);
      FreshIsAbsent(s.nodes[i].h, s.size, s.key);
    }
  }

  predicate Legal(s: Session, steps: seq<Step>)
    decreases |steps|
  {
    steps != [] ==> WellSized(s) && Enabled(s, steps[0]) && Legal(Next(s, steps[0]), steps[1..])
  }

  function Run(s: Session, steps: seq<Step>): Session
    requires Legal(s, steps)
    decreases |steps|
  {
    if steps == [] then s else Run(Next(s, steps[0]), steps[1..])
  }

  lemma {:induction false} RunKeepsInv(s: Session, steps: seq<Step>)
    requires Inv(s) && Legal(s, steps)
    ensures var r := Run(s, steps);
            Inv(r) && r.b.n == s.b.n && r.size == s.size && r.key == s.key
    decreases |steps|
  {
    hide NodeOk, InStep, Enabled, Barrier.Inv;
    if steps != [] {
      NextKeepsInv(s, steps[0]);
      RunKeepsInv(Next(s, steps[0]), steps[1..]);
    }
  }

  /** Where node `i` keeps the entry. */
  predicate Keeps(s: Session, i: nat)
    requires i < |s.nodes|
  {
    HasEntry(s.nodes[i].h.slots, s.size, s.key)
  }

  /** What holds for a node: it handed out the entry to another session exactly if that is its fate;
      at the end of the branch it holds the entry exactly if its put wrote it, no other session took
      or overwrote it, and its barrier succeeded or the delete failed; and after a failure
      announced by any node, it holds the entry only if its delete failed. */
  predicate Settled(s: Session, i: nat) {
    && i < |s.nodes| == |s.b.nodes|
    && var n, result := s.nodes[i], s.b.nodes[i].result;
    && (Handed(n.h, s.key) <==> n.fate == HandedOut)
    && (n.phase.Ended? ==>
         && result.Some?
         && (Keeps(s, i) <==> n.wrote && n.fate == There && (result == Some(true) || !n.phase.deleted))
         && (Keeps(s, i) && Some(false) in s.b.outcome ==> !n.phase.deleted))
  }

  lemma InvSettles(s: Session, i: nat)
    requires Inv(s) && i < s.b.n
    ensures Settled(s, i)
  {
    hide Barrier.Inv, HasEntry, Handed, PreSignPool.Inv;
    var result := s.b.nodes[i].result;
    assert NodeOk(s.size, s.key, s.nodes[i]) && InStep(s.nodes[i], s.b.outcome[i], result);
    assert result.Some? ==> result == if result.value then Some(true) else Some(false);
    if result == Some(true) {
      Barrier.TrueIsUnanimous(s.b, i);
    }
  }

  /** Over every run of the session among all other uses of the pools, every node is settled. */
  lemma EveryRunSettles(s0: Session, steps: seq<Step>, i: nat)
    requires Start(s0) && Legal(s0, steps) && i < s0.b.n
    ensures Settled(Run(s0, steps), i)
  {
    hide Settled, Inv, Start, Legal, Run;
    StartHasInv(s0);
    RunKeepsInv(s0, steps);
    InvSettles(Run(s0, steps), i);
  }

  /** A put of the session writes the entry exactly if the write succeeds inside the pool. */
  lemma PutWritesIff(s: Session, i: nat, index: int, data: string, read: bool, written: bool)
    requires Inv(s) && Enabled(s, PutEntry(i, index, data, read, written))
    ensures Next(s, PutEntry(i, index, data, read, written)).nodes[i].wrote <==> written && 0 <= index < s.size
  {
    PutNodeOk(s, s.nodes[i], index, data, read, written);
  }

  /** The end of the branch deletes the entry exactly if the put was announced as a success, the
      barrier failed, the entry is seen in the pool, and the delete succeeds. */
  lemma FinishDeletesIff(s: Session, i: nat, visible: Visible, deleted: bool)
    requires Inv(s) && Enabled(s, Finish(i, visible, deleted))
    ensures var n, n' := s.nodes[i], Next(s, Finish(i, visible, deleted)).nodes[i];
            && n'.phase.Ended?
            && (n'.phase.deleted <==> n.returned && s.b.nodes[i].result == Some(false) && deleted
                                      && HasEntry(Seen(n.h.slots, visible), s.size, s.key))
  {
    hide HasEntry, Barrier.Inv;
    var result := s.b.nodes[i].result;
    assert result == if result.value then Some(true) else Some(false);
    assert NodeOk(s.size, s.key, s.nodes[i]);
    DropRemoves(s.nodes[i].h, s.size, s.key, visible, deleted);
  }

  /** What a step changes, and whom: a branch without an entry is ready to announce a failure, an announcement is what
      the branch returned, messages and timers only move the barrier, and an operation of another session is done
      on the pool of its node, where an entry that it removes was overwritten by a put or handed out. */
  lemma StepEffect(s: Session, step: Step)
    requires WellSized(s) && Enabled(s, step)
    ensures var s' := Next(s, step);
            && |s'.nodes| == |s.nodes| && s'.key == s.key && s'.size == s.size
            && (step.Net? || step.Announce? ==> s' == s.(b := s'.b))
            && (!step.Net? && !step.Announce? ==>
                 s'.b == s.b && forall j :: 0 <= j < |s.nodes| && j != step.i ==> s'.nodes[j] == s.nodes[j])
            && (step.NoEntry? ==> s'.nodes[step.i].phase == Ready && !s'.nodes[step.i].returned)
            && (step.Announce? ==>
                 && s'.b.outcome == s.b.outcome[step.i := Some(s.nodes[step.i].returned)]
                 && Barrier.Sync(step.i, s.nodes[step.i].returned) in s'.b.sent)
            && (step.Net? ==> s'.b == Barrier.Next(s.b, step.step))
            && (step.Other? ==> Displaced(s.size, s.key, s.nodes[step.i], s'.nodes[step.i], step.op))
  {
    hide PutNode, FinishNode, HasEntry, PreSignPool.Next, OtherOp;
  }

  /** The member after an operation of another session on its pool. */
  predicate Displaced(size: nat, key: string, n: Member, n': Member, op: PreSignPool.Step) {
    var gone := HasEntry(n.h.slots, size, key) && !HasEntry(n'.h.slots, size, key);
    && n'.h == PreSignPool.Next(size, n.h, op)
    && n'.fate == (if gone && op.PutStep? then Overwritten else if gone then HandedOut else n.fate)
    && n'.phase == n.phase && n'.returned == n.returned && n'.wrote == n.wrote && n'.dropped == n.dropped
  }
}
