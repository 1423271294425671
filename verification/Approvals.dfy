/** The list of approvals of a session: duplicates are filtered out so that each sender counts
    once, with its newest message. Texts that the source compares without regard to case are
    represented by their case-folded form. */
module Approvals {
  import opened Common

  type Raw = string

  /** What a raw message says: who signed it, when, and its answer (none for the command itself). */
  datatype Entry = Entry(sender: string, time: int, answer: Option<string>)

  type Parser = Raw -> Option<Entry>

  /** `Find`. */
  predicate Find(l: seq<Raw>, raw: Raw) {
    raw != "" && raw in l
  }

  datatype Filtered = Filtered(list: seq<Raw>, ok: bool)

  /** The loop of `CheckReqAddrDulpRawReply`, `CheckSignDulpRawReply`: `kept` has been passed,
      `rest` is still to be visited; removals happen as it goes. */
  function FilterFrom(parse: Parser, raw: Raw, me: Entry, kept: seq<Raw>, rest: seq<Raw>): Filtered
    decreases |rest|
  {
    if rest == [] then Filtered(kept, true)
    else if rest[0] == "" || rest[0] == raw then Filtered(kept + rest, false)
    else
      match parse(rest[0])
      case None => Filtered(kept + rest, false)
      case Some(other) =>
        if other.sender != me.sender then FilterFrom(parse, raw, me, kept + [rest[0]], rest[1..])
        else if me.time > other.time then FilterFrom(parse, raw, me, kept, rest[1..])
        else Filtered(kept + rest, false)
  }

  function Filter(parse: Parser, raw: Raw, l: seq<Raw>): Filtered {
    if raw == "" || parse(raw).None? then Filtered(l, false)
    else FilterFrom(parse, raw, parse(raw).value, [], l)
  }

  /** A message arrives: look it up, filter, push it back. */
  function Feed(parse: Parser, l: seq<Raw>, raw: Raw): seq<Raw> {
    if Find(l, raw) then l
    else
      var f := Filter(parse, raw, l);
      if f.ok then f.list + [raw] else f.list
  }

  function FeedAll(parse: Parser, l: seq<Raw>, raws: seq<Raw>): seq<Raw> {
    if raws == [] then l else Feed(parse, FeedAll(parse, l, raws[..|raws| - 1]), raws[|raws| - 1])
  }

  /** Messages that a list can hold at all. */
  predicate Parses(parse: Parser, raw: Raw) {
    raw != "" && parse(raw).Some?
  }

  predicate Clean(parse: Parser, l: seq<Raw>) {
    && (forall i :: 0 <= i < |l| ==> Parses(parse, l[i]))
    && (forall i, j :: 0 <= i < j < |l| ==> parse(l[i]).value.sender != parse(l[j]).value.sender)
  }

  // -------------------------------------------------------------- the filter

  /** The loop ends here: a message that cannot be read, the message itself, or one of its sender that is
      at least as new. */
  predicate Stops(parse: Parser, raw: Raw, me: Entry, other: Raw) {
    || other == "" || other == raw || parse(other).None?
    || (parse(other).value.sender == me.sender && parse(other).value.time >= me.time)
  }

  /** The messages of other senders. */
  function Others(parse: Parser, sender: string, l: seq<Raw>): seq<Raw> {
    if l == [] then []
    else
      var before, last := Others(parse, sender, l[..|l| - 1]), l[|l| - 1];
      if parse(last).Some? && parse(last).value.sender != sender then before + [last] else before
  }

  /** On any list the loop removes the older messages of the sender up to the first message at which it stops, and
      leaves everything from there on; it succeeds exactly if it stops nowhere. */
  lemma {:induction false} FilterEffect(parse: Parser, raw: Raw, me: Entry, kept: seq<Raw>, rest: seq<Raw>, i: nat)
    requires i <= |rest| && forall j :: 0 <= j < i ==> !Stops(parse, raw, me, rest[j])
    requires i < |rest| ==> Stops(parse, raw, me, rest[i])
    ensures FilterFrom(parse, raw, me, kept, rest)
            == Filtered(kept + Others(parse, me.sender, rest[..i]) + rest[i..], i == |rest|)
    decreases |rest|
  {
    if i == 0 {
      assert rest[..0] == [] && rest[0..] == rest;
      assert kept + [] + rest == kept + rest;
    } else {
      var other := parse(rest[0]).value;
      var kept' := if other.sender != me.sender then kept + [rest[0]] else kept;
      assert !Stops(parse, raw, me, rest[0]);
      FilterEffect(parse, raw, me, kept', rest[1..], i - 1);
      OthersFirst(parse, me.sender, rest[..i]);
      assert rest[..i][1..] == rest[1..][..i - 1] && rest[1..][i - 1..] == rest[i..];
      assert kept' + Others(parse, me.sender, rest[1..][..i - 1]) == kept + Others(parse, me.sender, rest[..i]);
    }
  }

  lemma {:induction false} OthersFirst(parse: Parser, sender: string, l: seq<Raw>)
    requires l != []
    ensures Others(parse, sender, l)
            == (if parse(l[0]).Some? && parse(l[0]).value.sender != sender then [l[0]] else [])
               + Others(parse, sender, l[1..])
  {
    if |l| == 1 {
      assert l[..0] == [] && l[1..] == [];
    } else {
      var n := |l| - 1;
      OthersFirst(parse, sender, l[..n]);
      assert l[..n][1..] == l[1..][..n - 1] && l[1..][n - 1] == l[n];
    }
  }

  // ------------------------------------------------------------- one message

  function Sender(parse: Parser, raw: Raw): string
    requires Parses(parse, raw)
  {
    parse(raw).value.sender
  }

  function Time(parse: Parser, raw: Raw): int
    requires Parses(parse, raw)
  {
    parse(raw).value.time
  }

  /** The list without the entry of `sender`. */
  function Without(parse: Parser, l: seq<Raw>, sender: string): seq<Raw>
    requires forall i :: 0 <= i < |l| ==> Parses(parse, l[i])
  {
    if l == [] then []
    else if Sender(parse, l[0]) == sender then Without(parse, l[1..], sender)
    else [l[0]] + Without(parse, l[1..], sender)
  }

  /** Some entry of the same sender is at least as new. */
  predicate Outdated(parse: Parser, l: seq<Raw>, raw: Raw)
    requires Parses(parse, raw) && forall i :: 0 <= i < |l| ==> Parses(parse, l[i])
  {
    exists i :: 0 <= i < |l| && Sender(parse, l[i]) == Sender(parse, raw) && Time(parse, l[i]) >= Time(parse, raw)
  }

  lemma {:induction false} WithoutElements(parse: Parser, l: seq<Raw>, sender: string, r: Raw)
    requires forall i :: 0 <= i < |l| ==> Parses(parse, l[i])
    ensures r in Without(parse, l, sender) <==> r in l && Sender(parse, r) != sender
  {
    if l != [] {
      WithoutElements(parse, l[1..], sender, r);
      assert l == [l[0]] + l[1..];
    }
  }

  lemma {:induction false} WithoutAbsent(parse: Parser, l: seq<Raw>, sender: string)
    requires forall i :: 0 <= i < |l| ==> Parses(parse, l[i])
    requires forall i :: 0 <= i < |l| ==> Sender(parse, l[i]) != sender
    ensures Without(parse, l, sender) == l
  {
    if l != [] {
      WithoutAbsent(parse, l[1..], sender);
    }
  }

  lemma OutdatedStep(parse: Parser, l: seq<Raw>, raw: Raw)
    requires Parses(parse, raw) && l != [] && forall i :: 0 <= i < |l| ==> Parses(parse, l[i])
    ensures Outdated(parse, l, raw)
            <==> (Sender(parse, l[0]) == Sender(parse, raw) && Time(parse, l[0]) >= Time(parse, raw))
                 || Outdated(parse, l[1..], raw)
  {
    var tail := l[1..];
    if Outdated(parse, tail, raw) {
      var i :| 0 <= i < |tail| && Sender(parse, tail[i]) == Sender(parse, raw)
        && Time(parse, tail[i]) >= Time(parse, raw);
      assert l[i + 1] == tail[i];
    }
  }

  /** One step of the loop. */
  lemma FilterStep(parse: Parser, raw: Raw, kept: seq<Raw>, rest: seq<Raw>)
    requires Parses(parse, raw) && rest != [] && Parses(parse, rest[0]) && rest[0] != raw
    ensures FilterFrom(parse, raw, parse(raw).value, kept, rest)
            == if Sender(parse, rest[0]) != Sender(parse, raw) then
                 FilterFrom(parse, raw, parse(raw).value, kept + [rest[0]], rest[1..])
               else if Time(parse, raw) > Time(parse, rest[0]) then
                 FilterFrom(parse, raw, parse(raw).value, kept, rest[1..])
               else Filtered(kept + rest, false)
  {
  }

  /** On a clean list the loop either removes the one older entry of the sender, or changes
      nothing. */
  lemma {:induction false} FilterFromClean(parse: Parser, raw: Raw, kept: seq<Raw>, rest: seq<Raw>)
    requires Parses(parse, raw) && Clean(parse, rest) && raw !in rest
    ensures FilterFrom(parse, raw, parse(raw).value, kept, rest)
            == if Outdated(parse, rest, raw) then Filtered(kept + rest, false)
               else Filtered(kept + Without(parse, rest, Sender(parse, raw)), true)
    decreases |rest|
  {
    if rest == [] {
      assert kept + [] == kept;
    } else {
      hide FilterFrom, Outdated, Clean, Parses;
      var tail := rest[1..];
      CleanTail(parse, rest);
      OutdatedStep(parse, rest, raw);
      FilterStep(parse, raw, kept, rest);
      if Sender(parse, rest[0]) != Sender(parse, raw) {
        FilterFromClean(parse, raw, kept + [rest[0]], tail);
        assert kept + [rest[0]] + tail == kept + rest;
        var w := Without(parse, tail, Sender(parse, raw));
        assert kept + [rest[0]] + w == kept + ([rest[0]] + w);
      } else if Time(parse, raw) > Time(parse, rest[0]) {
        FilterFromClean(parse, raw, kept, tail);
        OnlyOne(parse, rest, raw);
      }
    }
  }

  lemma CleanTail(parse: Parser, l: seq<Raw>)
    requires Clean(parse, l) && l != []
    ensures Clean(parse, l[1..])
    ensures forall i :: 0 <= i < |l| ==> Parses(parse, l[i])
    ensures forall i :: 0 <= i < |l[1..]| ==> Parses(parse, l[1..][i])
  {
  }

  /** A sender has no second entry in a clean list. */
  lemma OnlyOne(parse: Parser, rest: seq<Raw>, raw: Raw)
    requires Parses(parse, raw) && Clean(parse, rest) && rest != []
    requires Sender(parse, rest[0]) == Sender(parse, raw)
    ensures !Outdated(parse, rest[1..], raw)
  {
    var tail := rest[1..];
    assert forall j :: 0 <= j < |tail| ==> tail[j] == rest[j + 1];
  }

  /** What one message does to a clean list: it replaces the older entry of its sender, or it is
      ignored. In particular a message that is not taken removes nothing. */
  lemma FeedReplacesOlder(parse: Parser, l: seq<Raw>, raw: Raw)
    requires Clean(parse, l)
    ensures Feed(parse, l, raw)
            == if Parses(parse, raw) && !Outdated(parse, l, raw) then Without(parse, l, Sender(parse, raw)) + [raw]
               else l
  {
    if Parses(parse, raw) {
      if raw in l {
        var i :| 0 <= i < |l| && l[i] == raw;
        assert Outdated(parse, l, raw);
      } else {
        FilterFromClean(parse, raw, [], l);
      }
    }
  }

  lemma {:induction false} WithoutClean(parse: Parser, l: seq<Raw>, sender: string)
    requires Clean(parse, l)
    ensures Clean(parse, Without(parse, l, sender))
  {
    if l != [] {
      var tail := l[1..];
      WithoutClean(parse, tail, sender);
      var w := Without(parse, tail, sender);
      forall j | 0 <= j < |w|
        ensures Sender(parse, w[j]) != Sender(parse, l[0])
      {
        WithoutElements(parse, tail, sender, w[j]);
        var k :| 0 <= k < |tail| && tail[k] == w[j];
        assert l[k + 1] == tail[k];
      }
    }
  }

  lemma FeedKeepsClean(parse: Parser, l: seq<Raw>, raw: Raw)
    requires Clean(parse, l)
    ensures Clean(parse, Feed(parse, l, raw))
  {
    FeedReplacesOlder(parse, l, raw);
    if Parses(parse, raw) && !Outdated(parse, l, raw) {
      var w := Without(parse, l, Sender(parse, raw));
      WithoutClean(parse, l, Sender(parse, raw));
      forall j | 0 <= j < |w|
        ensures Sender(parse, w[j]) != Sender(parse, raw)
      {
        WithoutElements(parse, l, Sender(parse, raw), w[j]);
      }
    }
  }

  // ---------------------------------------------------------- every sequence

  /** The `i`-th message is the newest of its sender, and the first to arrive among equally new. */
  predicate Newest(parse: Parser, raws: seq<Raw>, i: nat)
    requires i < |raws|
  {
    && Parses(parse, raws[i])
    && forall j :: 0 <= j < |raws| && Parses(parse, raws[j]) && Sender(parse, raws[j]) == Sender(parse, raws[i]) ==>
         Time(parse, raws[j]) < Time(parse, raws[i]) || (Time(parse, raws[j]) == Time(parse, raws[i]) && i <= j)
  }

  lemma {:induction false} FeedAllClean(parse: Parser, raws: seq<Raw>)
    ensures Clean(parse, FeedAll(parse, [], raws))
  {
    if raws != [] {
      FeedAllClean(parse, raws[..|raws| - 1]);
      FeedKeepsClean(parse, FeedAll(parse, [], raws[..|raws| - 1]), raws[|raws| - 1]);
    }
  }

  ghost predicate IsNewest(parse: Parser, raws: seq<Raw>, r: Raw) {
    exists i :: 0 <= i < |raws| && raws[i] == r && Newest(parse, raws, i)
  }

  /** Whatever arrives, in whatever order and however often, the list holds exactly the newest
      message of each sender. */
  lemma {:induction false} ListIsNewest(parse: Parser, raws: seq<Raw>, r: Raw)
    ensures r in FeedAll(parse, [], raws) <==> IsNewest(parse, raws, r)
    decreases |raws|, 0
  {
    hide IsNewest, Outdated, Superseded, Feed;
    if raws == [] {
      NoneIsNewest(parse, r);
    } else {
      var before, last := raws[..|raws| - 1], raws[|raws| - 1];
      var l := FeedAll(parse, [], before);
      assert raws == before + [last];
      FeedAllClean(parse, before);
      FeedReplacesOlder(parse, l, last);
      ListIsNewest(parse, before, r);
      if !Parses(parse, last) {
        UnparsedIgnored(parse, before, last, r);
      } else {
        OutdatedIff(parse, before, last);
        WithoutElements(parse, l, Sender(parse, last), r);
        AppendNewest(parse, before, last, r);
      }
    }
  }

  lemma NoneIsNewest(parse: Parser, r: Raw)
    ensures !IsNewest(parse, [], r)
  {
  }

  lemma UnparsedIgnored(parse: Parser, before: seq<Raw>, last: Raw, r: Raw)
    requires !Parses(parse, last)
    ensures IsNewest(parse, before + [last], r) <==> IsNewest(parse, before, r)
  {
    var raws := before + [last];
    if IsNewest(parse, before, r) {
      var i :| 0 <= i < |before| && before[i] == r && Newest(parse, before, i);
      assert raws[i] == r && Newest(parse, raws, i);
    }
    if IsNewest(parse, raws, r) {
      var i :| 0 <= i < |raws| && raws[i] == r && Newest(parse, raws, i);
      assert i < |before|;
      assert forall j :: 0 <= j < |before| ==> before[j] == raws[j];
      assert before[i] == r && Newest(parse, before, i);
    }
  }

  /** Some earlier message of the same sender is at least as new. */
  ghost predicate Superseded(parse: Parser, before: seq<Raw>, last: Raw)
    requires Parses(parse, last)
  {
    exists j :: 0 <= j < |before| && Parses(parse, before[j]) && Sender(parse, before[j]) == Sender(parse, last)
                && Time(parse, before[j]) >= Time(parse, last)
  }

  /** Among earlier messages of a sender, one is the newest. */
  lemma {:induction false} SomeNewest(parse: Parser, raws: seq<Raw>, k: nat) returns (i: nat)
    requires k < |raws| && Parses(parse, raws[k])
    ensures i < |raws| && Newest(parse, raws, i)
    ensures Sender(parse, raws[i]) == Sender(parse, raws[k]) && Time(parse, raws[i]) >= Time(parse, raws[k])
  {
    i := k;
    var n := 0;
    while n < |raws|
      invariant 0 <= n <= |raws|
      invariant i < |raws| && Parses(parse, raws[i]) && Sender(parse, raws[i]) == Sender(parse, raws[k])
      invariant Time(parse, raws[i]) >= Time(parse, raws[k])
      invariant forall j :: 0 <= j < n && Parses(parse, raws[j]) && Sender(parse, raws[j]) == Sender(parse, raws[k]) ==>
                  || Time(parse, raws[j]) < Time(parse, raws[i])
                  || (Time(parse, raws[j]) == Time(parse, raws[i]) && i <= j)
    {
      if Parses(parse, raws[n]) && Sender(parse, raws[n]) == Sender(parse, raws[k])
         && (Time(parse, raws[n]) > Time(parse, raws[i]) || (Time(parse, raws[n]) == Time(parse, raws[i]) && n < i)) {
        i := n;
      }
      n := n + 1;
    }
  }

  lemma OutdatedIff(parse: Parser, before: seq<Raw>, last: Raw)
    requires Parses(parse, last)
    ensures Clean(parse, FeedAll(parse, [], before))
    ensures Outdated(parse, FeedAll(parse, [], before), last) <==> Superseded(parse, before, last)
    decreases |before|, 1
  {
    var l := FeedAll(parse, [], before);
    FeedAllClean(parse, before);
    if Outdated(parse, l, last) {
      var k :| 0 <= k < |l| && Sender(parse, l[k]) == Sender(parse, last) && Time(parse, l[k]) >= Time(parse, last);
      ListIsNewest(parse, before, l[k]);
    }
    if Superseded(parse, before, last) {
      var j :| 0 <= j < |before| && Parses(parse, before[j]) && Sender(parse, before[j]) == Sender(parse, last)
               && Time(parse, before[j]) >= Time(parse, last);
      var i := SomeNewest(parse, before, j);
      ListIsNewest(parse, before, before[i]);
      var k :| 0 <= k < |l| && l[k] == before[i];
    }
  }

  /** A newest message stays newest when a later message does not beat it, and only then. */
  lemma NewestAfter(parse: Parser, before: seq<Raw>, last: Raw, i: nat)
    requires i < |before| && Parses(parse, last)
    ensures Newest(parse, before + [last], i)
            <==> Newest(parse, before, i)
                 && (Sender(parse, before[i]) != Sender(parse, last) || Time(parse, before[i]) >= Time(parse, last))
  {
    var raws := before + [last];
    assert forall j :: 0 <= j < |before| ==> raws[j] == before[j];
    assert raws[|before|] == last;
    if Newest(parse, raws, i) {
      assert Newest(parse, before, i);
    }
  }

  lemma LastIsNewest(parse: Parser, before: seq<Raw>, last: Raw)
    requires Parses(parse, last)
    ensures Newest(parse, before + [last], |before|) <==> !Superseded(parse, before, last)
  {
    var raws := before + [last];
    assert forall j :: 0 <= j < |before| ==> raws[j] == before[j];
  }

  /** The newest message of a superseded sender is at least as new as the superseded one. */
  lemma NewestBeatsSuperseded(parse: Parser, before: seq<Raw>, last: Raw, i: nat)
    requires i < |before| && Parses(parse, last) && Newest(parse, before, i)
    requires Sender(parse, before[i]) == Sender(parse, last)
    ensures Superseded(parse, before, last) <==> Time(parse, before[i]) >= Time(parse, last)
  {
  }

  lemma AppendNewest(parse: Parser, before: seq<Raw>, last: Raw, r: Raw)
    requires Parses(parse, last)
    ensures IsNewest(parse, before + [last], r)
            <==> if Superseded(parse, before, last) then IsNewest(parse, before, r)
                 else r == last || (IsNewest(parse, before, r) && Sender(parse, r) != Sender(parse, last))
  {
    var raws := before + [last];
    LastIsNewest(parse, before, last);
    forall i | 0 <= i < |before|
      ensures Newest(parse, raws, i)
              <==> Newest(parse, before, i)
                   && (Superseded(parse, before, last) || Sender(parse, before[i]) != Sender(parse, last))
    {
      hide Superseded;
      NewestAfter(parse, before, last, i);
      if Newest(parse, before, i) && Sender(parse, before[i]) == Sender(parse, last) {
        NewestBeatsSuperseded(parse, before, last, i);
      }
    }
    IsNewestSplit(parse, before, last, r);
  }

  lemma IsNewestSplit(parse: Parser, before: seq<Raw>, last: Raw, r: Raw)
    ensures IsNewest(parse, before + [last], r)
            <==> (r == last && Newest(parse, before + [last], |before|))
                 || exists i :: 0 <= i < |before| && before[i] == r && Newest(parse, before + [last], i)
  {
    var raws := before + [last];
    if i :| 0 <= i < |before| && before[i] == r && Newest(parse, raws, i) {
      assert raws[i] == r;
    }
    if r == last && Newest(parse, raws, |before|) {
      assert raws[|before|] == r;
    }
  }

  // -------------------------------------------------------- order of arrival

  /** Different messages of one sender carry different times. */
  predicate DistinctTimes(parse: Parser, raws: seq<Raw>) {
    forall i, j :: 0 <= i < |raws| && 0 <= j < |raws| && Parses(parse, raws[i]) && Parses(parse, raws[j])
                   && Sender(parse, raws[i]) == Sender(parse, raws[j]) && Time(parse, raws[i]) == Time(parse, raws[j])
                   ==> raws[i] == raws[j]
  }

  /** No message of the same sender in `raws` is newer. */
  predicate Latest(parse: Parser, raws: seq<Raw>, r: Raw) {
    && r in raws && Parses(parse, r)
    && forall s :: s in raws && Parses(parse, s) && Sender(parse, s) == Sender(parse, r) ==>
         Time(parse, s) <= Time(parse, r)
  }

  lemma NewestIsLatest(parse: Parser, raws: seq<Raw>, r: Raw)
    requires DistinctTimes(parse, raws)
    ensures IsNewest(parse, raws, r) <==> Latest(parse, raws, r)
  {
    if Latest(parse, raws, r) {
      var k :| 0 <= k < |raws| && raws[k] == r;
      var i := SomeNewest(parse, raws, k);
      assert raws[i] in raws;
    }
  }

  /** Two orders of arrival, also with different repetitions, leave the same entries. */
  lemma OrderDoesNotMatter(parse: Parser, a: seq<Raw>, b: seq<Raw>)
    requires forall r :: r in a <==> r in b
    requires DistinctTimes(parse, a)
    ensures multiset(FeedAll(parse, [], a)) == multiset(FeedAll(parse, [], b))
  {
    hide FeedAll, IsNewest, DistinctTimes;
    SameTimes(parse, a, b);
    FeedAllClean(parse, a);
    FeedAllClean(parse, b);
    var la, lb := FeedAll(parse, [], a), FeedAll(parse, [], b);
    forall r
      ensures multiset(la)[r] == multiset(lb)[r]
    {
      ListIsNewest(parse, a, r);
      ListIsNewest(parse, b, r);
      NewestIsLatest(parse, a, r);
      NewestIsLatest(parse, b, r);
      CleanCount(parse, la, r);
      CleanCount(parse, lb, r);
    }
  }

  lemma SameTimes(parse: Parser, a: seq<Raw>, b: seq<Raw>)
    requires (forall r :: r in a <==> r in b) && DistinctTimes(parse, a)
    ensures DistinctTimes(parse, b)
  {
    forall i, j | 0 <= i < |b| && 0 <= j < |b| && Parses(parse, b[i]) && Parses(parse, b[j])
                  && Sender(parse, b[i]) == Sender(parse, b[j]) && Time(parse, b[i]) == Time(parse, b[j])
      ensures b[i] == b[j]
    {
      assert b[i] in a && b[j] in a;
      var k :| 0 <= k < |a| && a[k] == b[i];
      var n :| 0 <= n < |a| && a[n] == b[j];
    }
  }

  lemma {:induction false} CleanCount(parse: Parser, l: seq<Raw>, r: Raw)
    requires Clean(parse, l)
    ensures multiset(l)[r] == if r in l then 1 else 0
  {
    if l != [] {
      var tail := l[1..];
      assert forall j :: 0 <= j < |tail| ==> tail[j] == l[j + 1];
      CleanCount(parse, tail, r);
      assert l == [l[0]] + tail;
    }
  }

  // ---------------------------------------------------------- the list in place

  class ApprovalList {
    var entries: seq<Raw>

    constructor ()
      ensures entries == []
    {
      entries := [];
    }

    /** Walk the list, removing older entries of the sender on the way. */
    method RemoveOlder(parse: Parser, raw: Raw) returns (ok: bool)
      modifies this
      ensures Filtered(entries, ok) == Filter(parse, raw, old(entries))
    {
      if raw == "" || parse(raw).None? {
        return false;
      }
      var me := parse(raw).value;
      var i := 0;
      while i < |entries|
        invariant 0 <= i <= |entries|
        invariant FilterFrom(parse, raw, me, entries[..i], entries[i..]) == Filter(parse, raw, old(entries))
        decreases |entries| - i
      {
        var s := entries[i];
        assert entries[i..][0] == s && entries[i..][1..] == entries[i + 1..];
        assert entries[..i] + entries[i..] == entries;
        if s == "" || s == raw {
          return false;
        }
        var other := parse(s);
        if other.None? {
          return false;
        }
        if other.value.sender == me.sender {
          if me.time <= other.value.time {
            return false;
          }
          ghost var before := entries;
          entries := entries[..i] + entries[i + 1..];
          assert entries[..i] == before[..i] && entries[i..] == before[i + 1..];
        } else {
          assert entries[..i + 1] == entries[..i] + [s];
          i := i + 1;
        }
      }
      assert entries[..i] == entries && entries[i..] == [];
      return true;
    }

    method Take(parse: Parser, raw: Raw) returns (taken: bool)
      modifies this
      ensures entries == Feed(parse, old(entries), raw)
      ensures taken <==> !Find(old(entries), raw) && Filter(parse, raw, old(entries)).ok
    {
      if Find(entries, raw) {
        return false;
      }
      taken := RemoveOlder(parse, raw);
      if taken {
        entries := entries + [raw];
      }
    }
  }
}
