/** The pool of pre-sign entries of one public key, input code and group: numbered slots with
    recursive search, and entries that are consumed when they are picked. The number of slots,
    `size`, is configured. */
module PreSignPool {
  import opened Common

  /** A pre-sign entry under its (case-folded) data key. */
  datatype Entry = Entry(key: string, data: string)

  /** What a slot stores: bytes that decode to an entry, or bytes that do not. */
  datatype Slot = Good(entry: Entry) | Corrupt

  type Slots = map<int, Slot>

  // ----------------------------------------------------------------------- search

  /** The recursion shared by the three searches: halves [start, start + mid - 1] and
      [start + mid, end] with mid = (end + 1 - start) / 2; -1 if nothing is found. */
  function Search(test: int -> bool, start: int, end: int): (r: int)
    decreases end - start
  {
    if start < 0 || end < 0 || start > end then -1
    else if start == end then if test(start) then start else -1
    else
      var mid := GoDiv(end + 1 - start, 2);
      var left := Search(test, start, start + mid - 1);
      if left >= 0 then left else Search(test, start + mid, end)
  }

  /** The search returns the least index that passes the test, or -1 if there is none. */
  lemma {:induction false} SearchFindsLeast(test: int -> bool, start: int, end: int)
    requires 0 <= start
    ensures var r := Search(test, start, end);
            && (r == -1 || (start <= r <= end && test(r)))
            && (forall i :: start <= i <= end && (r == -1 || i < r) ==> !test(i))
    decreases end - start
  {
    if start < end {
      var mid := GoDiv(end + 1 - start, 2);
      SearchFindsLeast(test, start, start + mid - 1);
      SearchFindsLeast(test, start + mid, end);
    }
  }

  /** Which slots an operation can read; an unreadable slot is neither vacant nor found. */
  type Visible = int -> bool

  function EverySlot(): Visible { _ => true }

  /** The slots as an operation sees them. */
  function Seen(slots: Slots, visible: Visible): (r: Slots)
    ensures forall i :: i in r <==> i in slots && visible(i)
    ensures forall i :: i in r ==> r[i] == slots[i]
  {
    map i | i in slots && visible(i) :: slots[i]
  }

  function Vacant(slots: Slots, visible: Visible): int -> bool { i => visible(i) && i !in slots }

  function Holds(slots: Slots, key: string): int -> bool {
    i => i in slots && slots[i].Good? && slots[i].entry.key == key
  }

  function Decodable(slots: Slots): int -> bool {
    i => i in slots && slots[i].Good?
  }

  /** `BinarySearchVacancy`, `BinarySearchPreSignData` and `BinarySearchPick` over the whole pool, the
      latter two on the slots that are seen. */
  function FirstVacant(slots: Slots, visible: Visible, size: nat): int { Search(Vacant(slots, visible), 0, size - 1) }

  function FirstWithKey(slots: Slots, key: string, size: nat): int { Search(Holds(slots, key), 0, size - 1) }

  function FirstDecodable(slots: Slots, size: nat): int { Search(Decodable(slots), 0, size - 1) }

  // ------------------------------------------------------------------- total count

  /** How many slots of the pool are occupied below `n`. */
  function Occupied(slots: Slots, n: nat): set<int> {
    set i | 0 <= i < n && i in slots
  }

  /** `GetTotalCount`; `has` says which slots its loop can read, `visible` which ones its search can. */
  function TotalCount(slots: Slots, visible: Visible, has: Visible, size: nat): int {
    var index := FirstVacant(slots, visible, size);
    if index < 0 then |Occupied(Seen(slots, has), size)| else index
  }

  predicate AllRead(visible: Visible, size: nat) {
    forall i :: 0 <= i < size ==> visible(i)
  }

  lemma {:induction false} AllOccupied(slots: Slots, n: nat)
    requires forall i :: 0 <= i < n ==> i in slots
    ensures |Occupied(slots, n)| == n
  {
    if n > 0 {
      AllOccupied(slots, n - 1);
      assert Occupied(slots, n) == Occupied(slots, n - 1) + {n - 1};
    }
  }

  lemma NoneOccupied(slots: Slots)
    ensures Occupied(slots, 0) == {}
  {
  }

  lemma OneMoreSlot(slots: Slots, i: nat)
    ensures |Occupied(slots, i + 1)| == |Occupied(slots, i)| + if i in slots then 1 else 0
  {
    assert Occupied(slots, i + 1) == if i in slots then Occupied(slots, i) + {i} else Occupied(slots, i);
  }

  /** With any read failures the count is the least slot that is seen to be vacant, or, if there is
      none, the number of slots that are seen to be occupied. */
  lemma TotalCountCases(slots: Slots, visible: Visible, has: Visible, size: nat)
    ensures var n := TotalCount(slots, visible, has, size);
            if exists i :: 0 <= i < size && Vacant(slots, visible)(i) then
              0 <= n < size && Vacant(slots, visible)(n) && forall i :: 0 <= i < n ==> !Vacant(slots, visible)(i)
            else n == |Occupied(Seen(slots, has), size)|
  {
    SearchFindsLeast(Vacant(slots, visible), 0, size - 1);
  }

  /** When every slot can be read, `GetTotalCount` is the length of the occupied prefix of the pool. */
  lemma TotalCountIsPrefix(slots: Slots, visible: Visible, has: Visible, size: nat)
    requires AllRead(visible, size) && AllRead(has, size)
    ensures var n := TotalCount(slots, visible, has, size);
            && 0 <= n <= size
            && (forall i :: 0 <= i < n ==> i in slots)
            && (n < size ==> n !in slots)
  {
    SearchFindsLeast(Vacant(slots, visible), 0, size - 1);
    var bound := if FirstVacant(slots, visible, size) < 0 then size else FirstVacant(slots, visible, size);
    forall i | 0 <= i < bound
      ensures i in slots
    {
      assert !Vacant(slots, visible)(i);
    }
    if FirstVacant(slots, visible, size) < 0 {
      AllOccupied(Seen(slots, has), size);
    }
  }

  lemma SubsetCount(a: set<int>, b: set<int>)
    requires a <= b
    ensures |a| <= |b|
    ensures |a| == |b| ==> a == b
  {
    var rest := b - a;
    assert b == a + rest;
    if |a| == |b| {
      assert rest == {};
    }
  }

  /** The count never exceeds the number of entries in the pool, and equals it exactly when the
      occupied slots have no gap. */
  lemma TotalCountIffNoGap(slots: Slots, visible: Visible, has: Visible, size: nat)
    requires AllRead(visible, size) && AllRead(has, size)
    ensures var n := |Occupied(slots, size)|;
            && TotalCount(slots, visible, has, size) <= n
            && (TotalCount(slots, visible, has, size) == n <==>
                 forall i, j :: 0 <= i < j < size && j in slots ==> i in slots)
  {
    var k := TotalCount(slots, visible, has, size);
    var all := Occupied(slots, size);
    TotalCountIsPrefix(slots, visible, has, size);
    AllOccupied(slots, k);
    SubsetCount(Occupied(slots, k), all);
    if k == |all| {
      forall i, j | 0 <= i < j < size && j in slots
        ensures i in slots
      {
        assert j in all;
      }
    }
    if forall i, j :: 0 <= i < j < size && j in slots ==> i in slots {
      forall j | j in all
        ensures j < k
      {
        assert k < j ==> k in slots;
      }
      assert all == Occupied(slots, k);
    }
  }

  /** A pool with a gap: one entry, and a count of zero. */
  lemma GapIsNotCounted(e: Entry, visible: Visible, has: Visible, size: nat)
    requires size >= 2 && AllRead(visible, size) && AllRead(has, size)
    ensures TotalCount(map[1 := Good(e)], visible, has, size) == 0 && |Occupied(map[1 := Good(e)], size)| == 1
  {
    var slots := map[1 := Good(e)];
    TotalCountIsPrefix(slots, visible, has, size);
    assert 0 < TotalCount(slots, visible, has, size) ==> 0 in slots;
    assert Occupied(slots, size) == {1};
  }

  // ------------------------------------------------------------------- operations

  datatype PutOutcome = PutOutcome(slots: Slots, ok: bool)

  /** `PutPreSignData`; `read` and `written` say whether the database calls succeed. A slot that
      cannot be read counts as taken, and a forced put on a taken slot reports success even when its
      write fails. */
  function Put(slots: Slots, index: int, e: Entry, force: bool, read: bool, written: bool): PutOutcome {
    if index < 0 then PutOutcome(slots, false)
    else if read && index !in slots then
      PutOutcome(if written then slots[index := Good(e)] else slots, written)
    else if force then
      PutOutcome(if written then slots[index := Good(e)] else slots, true)
    else PutOutcome(slots, false)
  }

  datatype TakeOutcome = TakeOutcome(slots: Slots, entry: Option<Entry>)

  /** Remove the entry in a slot and hand it out, or do neither. */
  function TakeAt(slots: Slots, index: int, deleted: bool): TakeOutcome
    requires index >= 0 ==> index in slots && slots[index].Good?
  {
    if index < 0 || !deleted then TakeOutcome(slots, None)
    else TakeOutcome(slots - {index}, Some(slots[index].entry))
  }

  lemma FoundSlots(slots: Slots, key: string, size: nat)
    ensures FirstDecodable(slots, size) >= -1 && FirstWithKey(slots, key, size) >= -1
    ensures FirstDecodable(slots, size) >= 0 ==>
              FirstDecodable(slots, size) in slots && slots[FirstDecodable(slots, size)].Good?
    ensures FirstWithKey(slots, key, size) >= 0 ==>
              FirstWithKey(slots, key, size) in slots && slots[FirstWithKey(slots, key, size)].Good?
              && slots[FirstWithKey(slots, key, size)].entry.key == key
  {
    SearchFindsLeast(Decodable(slots), 0, size - 1);
    SearchFindsLeast(Holds(slots, key), 0, size - 1);
  }

  /** `PickPreSignData`. */
  function Pick(slots: Slots, size: nat, visible: Visible, deleted: bool): TakeOutcome {
    FoundSlots(Seen(slots, visible), "", size);
    TakeAt(slots, FirstDecodable(Seen(slots, visible), size), deleted)
  }

  /** `GetPreSignData` followed by `DeletePreSignData`, when a peer names the entry to use; `visible` are
      the slots that both can read. */
  function TakeByKey(slots: Slots, size: nat, key: string, visible: Visible, deleted: bool): TakeOutcome {
    FoundSlots(Seen(slots, visible), key, size);
    if key == "" then TakeOutcome(slots, None)
    else TakeAt(slots, FirstWithKey(Seen(slots, visible), key, size), deleted)
  }

  /** What a put does: the entry is in its slot exactly if the write succeeds and the slot was seen vacant or
      the put is forced, no other slot changes, and success is reported for every forced put but one
      that sees the slot vacant and fails to write. */
  lemma PutEffect(slots: Slots, index: int, e: Entry, force: bool, read: bool, written: bool)
    ensures var out, vacant := Put(slots, index, e, force, read, written), read && index !in slots;
            && (index >= 0 && written && (vacant || force) ==> out.slots == slots[index := Good(e)])
            && (!(index >= 0 && written && (vacant || force)) ==> out.slots == slots)
            && (out.ok <==> index >= 0 && ((vacant && written) || (!vacant && force)))
  {
  }

  /** A pick takes the least slot that it can read and decode, or changes nothing. */
  lemma PickEffect(slots: Slots, size: nat, visible: Visible, deleted: bool)
    ensures var out := Pick(slots, size, visible, deleted);
            if out.entry.Some? then
              exists i :: && 0 <= i < size && Takes(slots, out, i) && visible(i)
                          && forall j :: 0 <= j < i ==> !(visible(j) && j in slots && slots[j].Good?)
            else out.slots == slots
  {
    var seen := Seen(slots, visible);
    SearchFindsLeast(Decodable(seen), 0, size - 1);
    var i := FirstDecodable(seen, size);
    if i >= 0 && deleted {
      forall j | 0 <= j < i
        ensures !(visible(j) && j in slots && slots[j].Good?)
      {
        assert !Decodable(seen)(j);
      }
      assert Takes(slots, Pick(slots, size, visible, deleted), i);
    }
  }

  /** The entry of slot `i` has been taken out. */
  predicate Takes(slots: Slots, out: TakeOutcome, i: int) {
    i in slots && slots[i].Good? && out.entry == Some(slots[i].entry) && out.slots == slots - {i}
  }

  /** A take by key gives the entry with that key from a slot that it can read, exactly if there is one, the
      key is not empty and the delete succeeds; otherwise nothing changes. */
  lemma TakeByKeyEffect(slots: Slots, size: nat, key: string, visible: Visible, deleted: bool)
    ensures var out := TakeByKey(slots, size, key, visible, deleted);
            && (out.entry.Some? <==>
                 key != "" && deleted && exists i :: 0 <= i < size && visible(i) && Holds(slots, key)(i))
            && (out.entry.Some? ==> out.entry.value.key == key && exists i :: 0 <= i < size && Takes(slots, out, i))
            && (out.entry.None? ==> out.slots == slots)
  {
    var seen := Seen(slots, visible);
    SearchFindsLeast(Holds(seen, key), 0, size - 1);
    var r := FirstWithKey(seen, key, size);
    if r >= 0 {
      assert Holds(slots, key)(r);
      if key != "" && deleted {
        assert Takes(slots, TakeByKey(slots, size, key, visible, deleted), r);
      }
    }
    forall i | 0 <= i < size && visible(i) && Holds(slots, key)(i)
      ensures Holds(seen, key)(i)
    {
    }
  }

  // -------------------------------------------------------------------------- runs

  datatype Step =
    | PutStep(index: int, entry: Entry, force: bool, read: bool, written: bool)
    | PickStep(visible: Visible, deleted: bool)
    | TakeStep(key: string, visible: Visible, deleted: bool)
    | DropStep(key: string, visible: Visible, deleted: bool)

  /** The pool, the entries ever put into it, and the entries handed out. */
  datatype History = History(slots: Slots, put: seq<Entry>, handed: seq<Entry>)

  const START := History(map[], [], [])

  /** Each pre-sign session has its own data key. */
  predicate Fresh(h: History, step: Step) {
    step.PutStep? ==> forall k :: 0 <= k < |h.put| ==> h.put[k].key != step.entry.key
  }

  function HandOut(h: History, out: TakeOutcome): History {
    History(out.slots, h.put, if out.entry.Some? then h.handed + [out.entry.value] else h.handed)
  }

  function Next(size: nat, h: History, step: Step): History {
    match step
    case PutStep(index, e, force, read, written) =>
      History(Put(h.slots, index, e, force, read, written).slots, h.put + [e], h.handed)
    case PickStep(visible, deleted) => HandOut(h, Pick(h.slots, size, visible, deleted))
    case TakeStep(key, visible, deleted) => HandOut(h, TakeByKey(h.slots, size, key, visible, deleted))
    case DropStep(key, visible, deleted) => h.(slots := TakeByKey(h.slots, size, key, visible, deleted).slots)
  }

  predicate Legal(size: nat, h: History, steps: seq<Step>)
    decreases |steps|
  {
    steps != [] ==> Fresh(h, steps[0]) && Legal(size, Next(size, h, steps[0]), steps[1..])
  }

  function Run(size: nat, h: History, steps: seq<Step>): History
    decreases |steps|
  {
    if steps == [] then h else Run(size, Next(size, h, steps[0]), steps[1..])
  }

  /** What each operation does to the history: a put enters its entry, what is picked or taken is handed out, what is
      dropped is not, and the pool is as the operation leaves it. */
  lemma HistoryEffect(size: nat, h: History, step: Step)
    ensures var h' := Next(size, h, step);
            match step
            case PutStep(index, e, force, read, written) =>
              h'.slots == Put(h.slots, index, e, force, read, written).slots && h'.put == h.put + [e]
              && h'.handed == h.handed
            case PickStep(visible, deleted) =>
              var out := Pick(h.slots, size, visible, deleted);
              h'.slots == out.slots && h'.put == h.put
              && h'.handed == if out.entry.Some? then h.handed + [out.entry.value] else h.handed
            case TakeStep(key, visible, deleted) =>
              var out := TakeByKey(h.slots, size, key, visible, deleted);
              h'.slots == out.slots && h'.put == h.put
              && h'.handed == if out.entry.Some? then h.handed + [out.entry.value] else h.handed
            case DropStep(key, visible, deleted) =>
              h' == h.(slots := TakeByKey(h.slots, size, key, visible, deleted).slots)
  {
  }

  predicate InPool(slots: Slots, i: int) { i in slots && slots[i].Good? }

  ghost predicate KeysDiffer(slots: Slots) {
    forall i, j :: InPool(slots, i) && InPool(slots, j) && slots[i].entry.key == slots[j].entry.key ==> i == j
  }

  ghost predicate WasPut(h: History) {
    && (forall i :: InPool(h.slots, i) ==> h.slots[i].entry in h.put)
    && (forall k :: 0 <= k < |h.handed| ==> h.handed[k] in h.put)
  }

  /** Nothing that was handed out is in the pool or was handed out twice. */
  ghost predicate HandedOnce(h: History) {
    && (forall i, k :: InPool(h.slots, i) && 0 <= k < |h.handed| ==> h.slots[i].entry.key != h.handed[k].key)
    && (forall j, k :: 0 <= j < k < |h.handed| ==> h.handed[j].key != h.handed[k].key)
  }

  ghost predicate Inv(h: History) {
    KeysDiffer(h.slots) && WasPut(h) && HandedOnce(h)
  }

  lemma TakeKeepsInv(h: History, index: int, deleted: bool)
    requires Inv(h) && (index >= 0 ==> index in h.slots && h.slots[index].Good?)
    ensures Inv(HandOut(h, TakeAt(h.slots, index, deleted)))
    ensures Inv(h.(slots := TakeAt(h.slots, index, deleted).slots))
  {
    var slots' := TakeAt(h.slots, index, deleted).slots;
    assert forall i :: InPool(slots', i) ==> InPool(h.slots, i) && slots'[i] == h.slots[i];
    if index >= 0 && deleted {
      assert InPool(h.slots, index);
    }
  }

  lemma PutKeepsInv(size: nat, h: History, step: Step)
    requires Inv(h) && step.PutStep? && Fresh(h, step)
    ensures Inv(Next(size, h, step))
  {
    var h' := Next(size, h, step);
    assert forall i :: InPool(h'.slots, i) ==>
        (InPool(h.slots, i) && h'.slots[i] == h.slots[i]) || (i == step.index && h'.slots[i] == Good(step.entry));
  }

  lemma NextKeepsInv(size: nat, h: History, step: Step)
    requires Inv(h) && Fresh(h, step)
    ensures Inv(Next(size, h, step))
  {
    hide Inv, Search;
    match step
    case PutStep(_, _, _, _, _) => PutKeepsInv(size, h, step);
    case PickStep(visible, deleted) =>
      FoundSlots(Seen(h.slots, visible), "", size);
      TakeKeepsInv(h, FirstDecodable(Seen(h.slots, visible), size), deleted);
    case TakeStep(key, visible, deleted) =>
      FoundSlots(Seen(h.slots, visible), key, size);
      TakeKeepsInv(h, if key == "" then -1 else FirstWithKey(Seen(h.slots, visible), key, size), deleted);
    case DropStep(key, visible, deleted) =>
      FoundSlots(Seen(h.slots, visible), key, size);
      TakeKeepsInv(h, if key == "" then -1 else FirstWithKey(Seen(h.slots, visible), key, size), deleted);
  }

  lemma {:induction false} RunKeepsInv(size: nat, h: History, steps: seq<Step>)
    requires Inv(h) && Legal(size, h, steps)
    ensures Inv(Run(size, h, steps))
    decreases |steps|
  {
    hide Inv, Next, Fresh;
    if steps != [] {
      NextKeepsInv(size, h, steps[0]);
      RunKeepsInv(size, Next(size, h, steps[0]), steps[1..]);
    }
  }

  /** Over every run of puts, picks, takes and drops with fresh keys: what is handed out was put,
      no entry is handed out twice, and what has been handed out is no longer in the pool. */
  lemma EveryRunHandsOutOnce(size: nat, steps: seq<Step>)
    requires Legal(size, START, steps)
    ensures var h := Run(size, START, steps);
            && (forall k :: 0 <= k < |h.handed| ==> h.handed[k] in h.put)
            && (forall j, k :: 0 <= j < k < |h.handed| ==> h.handed[j].key != h.handed[k].key)
            && (forall i, k :: InPool(h.slots, i) && 0 <= k < |h.handed| ==> h.slots[i].entry.key != h.handed[k].key)
  {
    assert Inv(START);
    RunKeepsInv(size, START, steps);
  }

  /** A pick gives nothing exactly if its delete fails or no slot that it can read is decodable. */
  lemma PickFailsIffEmpty(all: Slots, size: nat, visible: Visible, deleted: bool)
    ensures Pick(all, size, visible, deleted).entry == None
            <==> !deleted || forall i :: 0 <= i < size ==> !InPool(Seen(all, visible), i)
  {
    var slots := Seen(all, visible);
    SearchFindsLeast(Decodable(slots), 0, size - 1);
    var r := FirstDecodable(slots, size);
    if r == -1 {
      forall i | 0 <= i < size
        ensures !InPool(slots, i)
      {
        assert !Decodable(slots)(i);
      }
    } else {
      assert InPool(slots, r);
    }
  }

  // ------------------------------------------------------------- the store in place

  class Pool {
    const size: nat
    var slots: Slots

    constructor (prePubDataCount: nat)
      ensures size == prePubDataCount && slots == map[]
    {
      size, slots := prePubDataCount, map[];
    }

    method PutPreSignData(index: int, e: Entry, force: bool, read: bool, written: bool) returns (ok: bool)
      modifies this
      ensures PutOutcome(slots, ok) == Put(old(slots), index, e, force, read, written)
    {
      if index < 0 {
        return false;
      }
      if read && index !in slots {
        if written {
          slots := slots[index := Good(e)];
        }
        return written;
      }
      if force {
        if written {
          slots := slots[index := Good(e)];
        }
        return true;
      }
      return false;
    }

    method DeletePreSignData(key: string, visible: Visible, deleted: bool) returns (ok: bool)
      modifies this
      ensures slots == TakeByKey(old(slots), size, key, visible, deleted).slots
      ensures ok <==> TakeByKey(old(slots), size, key, visible, deleted).entry.Some?
    {
      if key == "" {
        return false;
      }
      var index := FirstWithKey(Seen(slots, visible), key, size);
      if index < 0 {
        return false;
      }
      if deleted {
        slots := slots - {index};
      }
      return deleted;
    }

    method PickPreSignData(visible: Visible, deleted: bool) returns (r: Option<Entry>)
      modifies this
      ensures TakeOutcome(slots, r) == Pick(old(slots), size, visible, deleted)
    {
      var index := FirstDecodable(Seen(slots, visible), size);
      FoundSlots(Seen(slots, visible), "", size);
      if index < 0 {
        return None;
      }
      var data := slots[index].entry;
      if !deleted {
        return None;
      }
      slots := slots - {index};
      return Some(data);
    }

    method GetTotalCount(visible: Visible, has: Visible) returns (n: int)
      ensures n == TotalCount(slots, visible, has, size)
    {
      hide Search, Occupied;
      var index := FirstVacant(slots, visible, size);
      if index >= 0 {
        return index;
      }
      n := 0;
      ghost var seen := Seen(slots, has);
      NoneOccupied(seen);
      var i := 0;
      while i < size
        invariant 0 <= i <= size
        invariant n == |Occupied(seen, i)|
      {
        OneMoreSlot(seen, i);
        if i in slots && has(i) {
          n := n + 1;
        }
        i := i + 1;
      }
    }
  }
}
