/** Subprotocol multiplexing: two peers derive the allocation of message codes to shared
    protocols from each other's capabilities, without exchanging it. */
module Multiplex {
  import opened Common
  import opened Bytes
  import Rlp
  import Frames

  const UINT64: nat := Rlp.UINT64
  const BASE_PROTOCOL_LENGTH: nat := 16

  /** 64-bit unsigned arithmetic. */
  function Wrap(x: int): (r: nat)
    ensures r < UINT64
    ensures 0 <= x < UINT64 ==> r == x
  {
    x % UINT64
  }

  lemma WrapAdd(x: int, l: int)
    ensures Wrap(Wrap(x) + l) == Wrap(x + l)
  {
    assert x == x / UINT64 * UINT64 + x % UINT64;
    WrapShift(x % UINT64 + l, x / UINT64);
  }

  lemma WrapSub(x: int, l: int)
    ensures Wrap(Wrap(x + l) - l) == Wrap(x)
  {
    WrapAdd(x + l, -l);
  }

  lemma WrapShift(x: int, k: int)
    ensures Wrap(x + k * UINT64) == Wrap(x)
  {
  }

  datatype Cap = Cap(name: string, version: nat)

  datatype Protocol = Protocol(cap: Cap, length: nat)

  /** A matched protocol with the first message code of its range. */
  datatype ProtoRW = ProtoRW(proto: Protocol, offset: nat)

  type Running = map<string, ProtoRW>

  // ---------------------------------------------------------- order on capabilities

  predicate NameLess(a: string, b: string) {
    b != [] && (a == [] || a[0] < b[0] || (a[0] == b[0] && NameLess(a[1..], b[1..])))
  }

  lemma {:induction false} NameTrichotomy(a: string, b: string)
    ensures a == b || NameLess(a, b) || NameLess(b, a)
  {
    if a != [] && b != [] && a[0] == b[0] {
      NameTrichotomy(a[1..], b[1..]);
      assert a == [a[0]] + a[1..] && b == [b[0]] + b[1..];
    }
  }

  lemma {:induction false} NameIrreflexive(a: string)
    ensures !NameLess(a, a)
  {
    if a != [] {
      NameIrreflexive(a[1..]);
    }
  }

  lemma {:induction false} NameTransitive(a: string, b: string, c: string)
    requires NameLess(a, b) && NameLess(b, c)
    ensures NameLess(a, c)
  {
    if a != [] && a[0] == b[0] == c[0] {
      NameTransitive(a[1..], b[1..], c[1..]);
    }
  }

  predicate CapLess(a: Cap, b: Cap) {
    NameLess(a.name, b.name) || (a.name == b.name && a.version < b.version)
  }

  predicate Sorted(caps: seq<Cap>) {
    forall i, j :: 0 <= i < j < |caps| ==> !CapLess(caps[j], caps[i])
  }

  lemma NotLessTransitive(a: Cap, b: Cap, c: Cap)
    requires !CapLess(b, a) && !CapLess(c, b)
    ensures !CapLess(c, a)
  {
    if CapLess(c, a) {
      NameTrichotomy(a.name, b.name);
      NameTrichotomy(b.name, c.name);
      NameIrreflexive(a.name);
      if NameLess(a.name, b.name) && NameLess(b.name, c.name) {
        NameTransitive(a.name, b.name, c.name);
      }
      if NameLess(c.name, a.name) && NameLess(a.name, c.name) {
        NameTransitive(c.name, a.name, c.name);
        NameIrreflexive(c.name);
      }
      NameIrreflexive(c.name);
    }
  }

  /** `Less` is a strict total order on capabilities, so there is one way to sort them. */
  lemma CapOrderIsTotal(a: Cap, b: Cap, c: Cap)
    ensures !CapLess(a, a)
    ensures CapLess(a, b) && CapLess(b, c) ==> CapLess(a, c)
    ensures a == b || CapLess(a, b) || CapLess(b, a)
  {
    NameIrreflexive(a.name);
    NameTrichotomy(a.name, b.name);
    if NameLess(a.name, b.name) && NameLess(b.name, c.name) {
      NameTransitive(a.name, b.name, c.name);
    }
  }

  /** `sort.Sort(capsByNameAndVersion(caps))`, as insertion sort. */
  function InsertCap(c: Cap, caps: seq<Cap>): (r: seq<Cap>)
    requires Sorted(caps)
    ensures Sorted(r) && multiset(r) == multiset(caps) + multiset{c}
  {
    if caps == [] then [c]
    else if !CapLess(caps[0], c) then
      assert [c] + caps == [c] + [caps[0]] + caps[1..];
      InsertFront(c, caps);
      [c] + caps
    else
      var rest := InsertCap(c, caps[1..]);
      assert caps == [caps[0]] + caps[1..];
      assert Sorted([caps[0]] + rest) by { InsertBehind(c, caps, rest); }
      [caps[0]] + rest
  }

  lemma InsertFront(c: Cap, caps: seq<Cap>)
    requires Sorted(caps) && caps != [] && !CapLess(caps[0], c)
    ensures Sorted([c] + caps)
  {
    forall j | 0 < j < |caps|
      ensures !CapLess(caps[j], c)
    {
      NotLessTransitive(c, caps[0], caps[j]);
    }
  }

  lemma InsertBehind(c: Cap, caps: seq<Cap>, rest: seq<Cap>)
    requires Sorted(caps) && caps != [] && CapLess(caps[0], c)
    requires Sorted(rest) && multiset(rest) == multiset(caps[1..]) + multiset{c}
    ensures Sorted([caps[0]] + rest)
  {
    forall j | 0 <= j < |rest|
      ensures !CapLess(rest[j], caps[0])
    {
      assert rest[j] in multiset(rest);
      if rest[j] == c {
        NotLessItself(caps[0], c);
      } else {
        assert rest[j] in caps[1..];
      }
    }
  }

  lemma NotLessItself(a: Cap, c: Cap)
    requires CapLess(a, c)
    ensures !CapLess(c, a)
  {
    NameIrreflexive(a.name);
    if NameLess(a.name, c.name) && NameLess(c.name, a.name) {
      NameTransitive(a.name, c.name, a.name);
    }
  }

  function SortCaps(caps: seq<Cap>): (r: seq<Cap>)
    ensures Sorted(r) && multiset(r) == multiset(caps)
  {
    if caps == [] then [] else
      assert caps == [caps[0]] + caps[1..];
      InsertCap(caps[0], SortCaps(caps[1..]))
  }

  // ---------------------------------------------------------------- the allocation

  /** The capabilities a peer advertises for its protocols. */
  function Caps(protocols: seq<Protocol>): (r: seq<Cap>)
    ensures |r| == |protocols|
  {
    seq(|protocols|, i requires 0 <= i < |protocols| => protocols[i].cap)
  }

  predicate Supports(protocols: seq<Protocol>, cap: Cap) {
    exists i :: 0 <= i < |protocols| && protocols[i].cap == cap
  }

  /** The protocol used for a capability: the first one listed. */
  function First(protocols: seq<Protocol>, cap: Cap): (p: Protocol)
    requires Supports(protocols, cap)
    ensures p.cap == cap && p in protocols
  {
    if protocols[0].cap == cap then protocols[0]
    else First(protocols[1..], cap)
  }

  predicate Shared(protocols: seq<Protocol>, caps: seq<Cap>, cap: Cap) {
    cap in caps && Supports(protocols, cap)
  }

  function Total(running: Running, names: seq<string>): nat
    requires forall n :: n in names ==> n in running
  {
    if names == [] then 0
    else Total(running, names[..|names| - 1]) + running[names[|names| - 1]].proto.length
  }

  predicate StrictlySorted(names: seq<string>) {
    Ascending(NameLess, names)
  }

  /** Each running protocol is the highest shared version of its name. */
  ghost predicate Best(protocols: seq<Protocol>, caps: seq<Cap>, running: Running) {
    && (forall n :: n in running ==>
         && running[n].proto.cap.name == n
         && Shared(protocols, caps, running[n].proto.cap)
         && running[n].proto == First(protocols, running[n].proto.cap))
    && (forall cap :: Shared(protocols, caps, cap) ==>
         cap.name in running && cap.version <= running[cap.name].proto.cap.version)
  }

  /** The ranges follow the base protocol one after another, in the order of the names. */
  ghost predicate Layout(running: Running, names: seq<string>) {
    && StrictlySorted(names)
    && (forall n :: n in names <==> n in running)
    && (forall k :: 0 <= k < |names| ==> StartsAt(running, names, k))
  }

  ghost predicate StartsAt(running: Running, names: seq<string>, k: nat)
    requires k < |names| && (forall n :: n in names ==> n in running)
  {
    running[names[k]].offset == Wrap(BASE_PROTOCOL_LENGTH + Total(running, names[..k]))
  }

  // ------------------------------------------------------------------ matching

  /** The inner loop of `matchProtocols`. */
  method FindProtocol(protocols: seq<Protocol>, cap: Cap) returns (r: Option<Protocol>)
    ensures r.Some? <==> Supports(protocols, cap)
    ensures r.Some? ==> r.value == First(protocols, cap)
  {
    var i := 0;
    while i < |protocols|
      invariant 0 <= i <= |protocols|
      invariant Supports(protocols, cap) <==> Supports(protocols[i..], cap)
      invariant Supports(protocols, cap) ==> First(protocols, cap) == First(protocols[i..], cap)
    {
      assert protocols[i..][0] == protocols[i];
      assert protocols[i..][1..] == protocols[i + 1..];
      if protocols[i].cap == cap {
        return Some(protocols[i]);
      }
      i := i + 1;
    }
    r := None;
  }

  lemma TotalFrame(r: Running, r': Running, names: seq<string>)
    requires forall n :: n in names ==> n in r && n in r' && r[n].proto == r'[n].proto
    ensures Total(r, names) == Total(r', names)
  {
  }

  /** Capabilities come in order, so a name seen before is the last one allocated. */
  lemma SeenNameIsLast(protocols: seq<Protocol>, done: seq<Cap>, cap: Cap, running: Running, names: seq<string>)
    requires Sorted(done + [cap]) && Best(protocols, done, running) && Layout(running, names)
    ensures forall n :: n in names ==> n == cap.name || NameLess(n, cap.name)
    ensures cap.name in names ==> names[|names| - 1] == cap.name
  {
    forall n | n in names
      ensures n == cap.name || NameLess(n, cap.name)
    {
      var c := running[n].proto.cap;
      var i :| 0 <= i < |done| && done[i] == c;
      assert (done + [cap])[i] == c && (done + [cap])[|done|] == cap;
      NameTrichotomy(n, cap.name);
    }
    if cap.name in names {
      var k :| 0 <= k < |names| && names[k] == cap.name;
      var last := names[|names| - 1];
      if k < |names| - 1 {
        assert NameLess(cap.name, last);
        NameIrreflexive(cap.name);
        if last != cap.name {
          NameTransitive(cap.name, last, cap.name);
        }
      }
    }
  }

  lemma AssignKeepsBest(protocols: seq<Protocol>, done: seq<Cap>, cap: Cap, running: Running, names: seq<string>,
                        offset: nat)
    requires Sorted(done + [cap]) && Best(protocols, done, running)
    requires Supports(protocols, cap)
    ensures Best(protocols, done + [cap], running[cap.name := ProtoRW(First(protocols, cap), offset)])
  {
    var running' := running[cap.name := ProtoRW(First(protocols, cap), offset)];
    forall c | Shared(protocols, done + [cap], c)
      ensures c.name in running' && c.version <= running'[c.name].proto.cap.version
    {
      if c in done {
        assert Shared(protocols, done, c);
        var i :| 0 <= i < |done| && done[i] == c;
        assert (done + [cap])[i] == c && (done + [cap])[|done|] == cap;
      } else {
        assert c == cap;
      }
    }
    forall n | n in running'
      ensures Shared(protocols, done + [cap], running'[n].proto.cap)
    {
    }
  }

  lemma SkipKeepsBest(protocols: seq<Protocol>, done: seq<Cap>, cap: Cap, running: Running)
    requires Best(protocols, done, running) && !Supports(protocols, cap)
    ensures Best(protocols, done + [cap], running)
  {
    forall c | Shared(protocols, done + [cap], c)
      ensures Shared(protocols, done, c)
    {
    }
    forall n | n in running
      ensures Shared(protocols, done + [cap], running[n].proto.cap)
    {
    }
  }

  function FreeOffset(running: Running, names: seq<string>): nat
    requires forall n :: n in names ==> n in running
  {
    Wrap(BASE_PROTOCOL_LENGTH + Total(running, names))
  }

  /** A range stays where it is when nothing before it, and not its own offset, changes. */
  lemma StartsAtFrame(running: Running, names: seq<string>, running': Running, names': seq<string>, k: nat)
    requires forall n :: n in names ==> n in running
    requires forall n :: n in names' ==> n in running'
    requires k < |names| && k < |names'| && names[..k] == names'[..k]
    requires forall n :: n in names[..k] ==> running[n].proto == running'[n].proto
    requires running[names[k]].offset == running'[names'[k]].offset
    requires StartsAt(running, names, k)
    ensures StartsAt(running', names', k)
  {
    hide Wrap;
    TotalFrame(running, running', names[..k]);
  }

  /** A new name takes the range after the last one. */
  lemma AppendKeepsLayout(running: Running, names: seq<string>, n: string, proto: Protocol)
    requires Layout(running, names) && n !in names
    requires forall m :: m in names ==> NameLess(m, n)
    ensures var running' := running[n := ProtoRW(proto, FreeOffset(running, names))];
            && Layout(running', names + [n])
            && FreeOffset(running', names + [n]) == Wrap(FreeOffset(running, names) + proto.length)
  {
    hide Wrap, NameLess, StartsAt, Total;
    var running' := running[n := ProtoRW(proto, FreeOffset(running, names))];
    var names' := names + [n];
    forall k | 0 <= k < |names|
      ensures StartsAt(running', names', k)
    {
      assert names'[..k] == names[..k];
      StartsAtFrame(running, names, running', names', k);
    }
    AppendedRange(running, names, n, proto);
  }

  lemma AppendedRange(running: Running, names: seq<string>, n: string, proto: Protocol)
    requires (forall m :: m in names ==> m in running) && n !in names
    ensures var running' := running[n := ProtoRW(proto, FreeOffset(running, names))];
            && StartsAt(running', names + [n], |names|)
            && FreeOffset(running', names + [n]) == Wrap(FreeOffset(running, names) + proto.length)
  {
    hide Wrap;
    var running' := running[n := ProtoRW(proto, FreeOffset(running, names))];
    assert (names + [n])[..|names|] == names;
    TotalFrame(running, running', names);
    WrapAdd(BASE_PROTOCOL_LENGTH + Total(running, names), proto.length);
  }

  /** A higher version of the last name takes over its range. */
  lemma ReplaceKeepsLayout(running: Running, names: seq<string>, n: string, proto: Protocol)
    requires Layout(running, names) && names != [] && names[|names| - 1] == n
    ensures var offset := Wrap(FreeOffset(running, names) - running[n].proto.length);
            var running' := running[n := ProtoRW(proto, offset)];
            && Layout(running', names)
            && FreeOffset(running', names) == Wrap(offset + proto.length)
  {
    hide Wrap, NameLess, StartsAt, Total;
    var last := |names| - 1;
    var before := names[..last];
    var offset := Wrap(FreeOffset(running, names) - running[n].proto.length);
    var running' := running[n := ProtoRW(proto, offset)];
    NameIrreflexive(n);
    assert n !in before;
    ReplacedRange(running, before, n, proto);
    assert names == before + [n];
    forall k | 0 <= k < last
      ensures StartsAt(running', names, k)
    {
      assert forall m :: m in names[..k] ==> m in before;
      StartsAtFrame(running, names, running', names, k);
    }
  }

  lemma ReplacedRange(running: Running, before: seq<string>, n: string, proto: Protocol)
    requires (forall m :: m in before ==> m in running) && n in running && n !in before
    ensures var names := before + [n];
            var offset := Wrap(FreeOffset(running, names) - running[n].proto.length);
            var running' := running[n := ProtoRW(proto, offset)];
            && offset == FreeOffset(running, before)
            && StartsAt(running', names, |before|)
            && FreeOffset(running', names) == Wrap(offset + proto.length)
  {
    hide Wrap;
    var names := before + [n];
    assert names[..|before|] == before;
    WrapSub(BASE_PROTOCOL_LENGTH + Total(running, before), running[n].proto.length);
    AppendedRange(running, before, n, proto);
  }

  /** The state of `matchProtocols` after the capabilities `done`. */
  ghost predicate Matched(protocols: seq<Protocol>, done: seq<Cap>, running: Running, names: seq<string>,
                          offset: nat) {
    Best(protocols, done, running) && Layout(running, names) && offset == FreeOffset(running, names)
  }

  lemma NothingMatched(protocols: seq<Protocol>)
    ensures Matched(protocols, [], map[], [], BASE_PROTOCOL_LENGTH)
  {
  }

  lemma MatchNewName(protocols: seq<Protocol>, done: seq<Cap>, cap: Cap, running: Running, names: seq<string>,
                     offset: nat)
    requires Matched(protocols, done, running, names, offset) && Sorted(done + [cap])
    requires Supports(protocols, cap) && cap.name !in running
    ensures var proto := First(protocols, cap);
            Matched(protocols, done + [cap], running[cap.name := ProtoRW(proto, offset)], names + [cap.name],
                    Wrap(offset + proto.length))
  {
    hide Wrap, NameLess, Total, First, Supports;
    SeenNameIsLast(protocols, done, cap, running, names);
    AppendKeepsLayout(running, names, cap.name, First(protocols, cap));
    AssignKeepsBest(protocols, done, cap, running, names, offset);
  }

  lemma MatchNewVersion(protocols: seq<Protocol>, done: seq<Cap>, cap: Cap, running: Running, names: seq<string>,
                        offset: nat)
    requires Matched(protocols, done, running, names, offset) && Sorted(done + [cap])
    requires Supports(protocols, cap) && cap.name in running
    ensures var proto := First(protocols, cap);
            var reverted := Wrap(offset - running[cap.name].proto.length);
            Matched(protocols, done + [cap], running[cap.name := ProtoRW(proto, reverted)], names,
                    Wrap(reverted + proto.length))
  {
    hide Wrap, NameLess, Total, First, Supports;
    SeenNameIsLast(protocols, done, cap, running, names);
    ReplaceKeepsLayout(running, names, cap.name, First(protocols, cap));
    var reverted := Wrap(offset - running[cap.name].proto.length);
    AssignKeepsBest(protocols, done, cap, running, names, reverted);
  }

  lemma MatchNothing(protocols: seq<Protocol>, done: seq<Cap>, cap: Cap, running: Running, names: seq<string>,
                     offset: nat)
    requires Matched(protocols, done, running, names, offset) && !Supports(protocols, cap)
    ensures Matched(protocols, done + [cap], running, names, offset)
  {
    SkipKeepsBest(protocols, done, cap, running);
  }

  /** `matchProtocols`. */
  method MatchProtocols(protocols: seq<Protocol>, caps: seq<Cap>) returns (running: Running, ghost names: seq<string>)
    ensures Best(protocols, caps, running)
    ensures Layout(running, names)
  {
    hide Matched, Sorted, Supports, First;
    var sorted := SortCaps(caps);
    var offset: nat := BASE_PROTOCOL_LENGTH;
    running, names := map[], [];
    NothingMatched(protocols);
    var i := 0;
    assert sorted[..0] == [];
    while i < |sorted|
      invariant 0 <= i <= |sorted|
      invariant Matched(protocols, sorted[..i], running, names, offset)
    {
      var cap := sorted[i];
      PrefixSorted(sorted, i);
      assert sorted[..i + 1] == sorted[..i] + [cap];
      var proto := FindProtocol(protocols, cap);
      if proto.None? {
        MatchNothing(protocols, sorted[..i], cap, running, names, offset);
      } else {
        if cap.name in running {
          MatchNewVersion(protocols, sorted[..i], cap, running, names, offset);
          offset := Wrap(offset - running[cap.name].proto.length);
        } else {
          MatchNewName(protocols, sorted[..i], cap, running, names, offset);
          names := names + [cap.name];
        }
        running := running[cap.name := ProtoRW(proto.value, offset)];
        offset := Wrap(offset + proto.value.length);
      }
      i := i + 1;
    }
    assert sorted[..i] == sorted;
    AllMatched(protocols, sorted, caps, running, names, offset);
  }

  /** The order in which capabilities are listed does not matter. */
  lemma AllMatched(protocols: seq<Protocol>, sorted: seq<Cap>, caps: seq<Cap>, running: Running, names: seq<string>,
                   offset: nat)
    requires Matched(protocols, sorted, running, names, offset) && multiset(sorted) == multiset(caps)
    ensures Best(protocols, caps, running) && Layout(running, names)
  {
    SameCaps(protocols, sorted, caps, running);
  }

  lemma PrefixSorted(caps: seq<Cap>, i: nat)
    requires Sorted(caps) && i < |caps|
    ensures Sorted(caps[..i] + [caps[i]])
  {
  }

  lemma SameCaps(protocols: seq<Protocol>, a: seq<Cap>, b: seq<Cap>, running: Running)
    requires multiset(a) == multiset(b) && Best(protocols, a, running)
    ensures Best(protocols, b, running)
  {
    forall c
      ensures c in a <==> c in b
    {
      assert c in a <==> c in multiset(a);
      assert c in b <==> c in multiset(b);
    }
    forall c | Shared(protocols, b, c)
      ensures Shared(protocols, a, c)
    {
    }
  }

  // ------------------------------------------------------- the two ends agree

  /** Protocols that both peers know under the same capability have the same length. */
  ghost predicate SameLengths(a: seq<Protocol>, b: seq<Protocol>) {
    forall cap :: Supports(a, cap) && Supports(b, cap) ==> First(a, cap).length == First(b, cap).length
  }

  lemma CapsAreSupported(protocols: seq<Protocol>, cap: Cap)
    ensures cap in Caps(protocols) <==> Supports(protocols, cap)
  {
    if Supports(protocols, cap) {
      var i :| 0 <= i < |protocols| && protocols[i].cap == cap;
      assert Caps(protocols)[i] == cap;
    }
  }

  lemma SharedIsSymmetric(a: seq<Protocol>, b: seq<Protocol>, cap: Cap)
    ensures Shared(a, Caps(b), cap) <==> Shared(b, Caps(a), cap)
  {
    CapsAreSupported(a, cap);
    CapsAreSupported(b, cap);
  }

  /** Both peers run the same protocol names at the same version. */
  lemma SameVersion(a: seq<Protocol>, b: seq<Protocol>, ra: Running, rb: Running, n: string)
    requires Best(a, Caps(b), ra) && Best(b, Caps(a), rb) && n in ra
    ensures n in rb && ra[n].proto.cap == rb[n].proto.cap
  {
    SharedIsSymmetric(a, b, ra[n].proto.cap);
    assert n in rb;
    SharedIsSymmetric(a, b, rb[n].proto.cap);
  }

  lemma NotBothLess(x: string, y: string)
    ensures !(NameLess(x, y) && NameLess(y, x))
  {
    NameIrreflexive(x);
    if NameLess(x, y) && NameLess(y, x) {
      NameTransitive(x, y, x);
    }
  }

  lemma SortedNamesUnique(a: seq<string>, b: seq<string>)
    requires StrictlySorted(a) && StrictlySorted(b) && forall n :: n in a <==> n in b
    ensures a == b
  {
    forall x, y | NameLess(x, y)
      ensures !NameLess(y, x)
    {
      NotBothLess(x, y);
    }
    AscendingUnique(NameLess, a, b);
  }

  /** Both peers run the same protocol under each name. */
  lemma SameProtocol(a: seq<Protocol>, b: seq<Protocol>, ra: Running, rb: Running, n: string)
    requires SameLengths(a, b) && Best(a, Caps(b), ra) && Best(b, Caps(a), rb)
    ensures n in ra <==> n in rb
    ensures n in ra ==> ra[n].proto == rb[n].proto
  {
    if n in ra {
      SameVersion(a, b, ra, rb, n);
      SharedIsSymmetric(a, b, ra[n].proto.cap);
    }
    if n in rb {
      SameVersion(b, a, rb, ra, n);
    }
  }

  /** Layouts of the same protocols put each of them in the same place. */
  lemma SameOffset(ra: Running, rb: Running, names: seq<string>, n: string)
    requires Layout(ra, names) && Layout(rb, names) && n in ra
    requires forall m :: m in names ==> ra[m].proto == rb[m].proto
    ensures ra[n] == rb[n]
  {
    hide Wrap, NameLess, Total;
    var k := IndexOf(ra, names, n);
    assert StartsAt(ra, names, k) && StartsAt(rb, names, k);
    TotalFrame(ra, rb, names[..k]);
  }

  /** The two peers of a connection run the same protocols at the same versions and have given
      each of them the same range of message codes. */
  lemma PeersAgree(a: seq<Protocol>, b: seq<Protocol>, ra: Running, na: seq<string>, rb: Running, nb: seq<string>)
    requires SameLengths(a, b)
    requires Best(a, Caps(b), ra) && Layout(ra, na)
    requires Best(b, Caps(a), rb) && Layout(rb, nb)
    ensures ra == rb && na == nb
  {
    hide Best, Caps, SameLengths, StartsAt;
    forall n
      ensures n in ra <==> n in rb
      ensures n in ra ==> ra[n].proto == rb[n].proto
    {
      SameProtocol(a, b, ra, rb, n);
    }
    SortedNamesUnique(na, nb);
    forall n | n in ra
      ensures ra[n] == rb[n]
    {
      SameOffset(ra, rb, na, n);
    }
  }

  // ----------------------------------------------------------------- delivery

  /** The total of all lengths fits in 64 bits. */
  ghost predicate Fits(running: Running, names: seq<string>)
    requires Layout(running, names)
  {
    BASE_PROTOCOL_LENGTH + Total(running, names) < UINT64
  }

  /** The test of `getProto`, in 64-bit arithmetic. */
  predicate Handles(rw: ProtoRW, code: nat) {
    rw.offset <= code < Wrap(rw.offset + rw.proto.length)
  }

  lemma {:induction false} TotalMonotone(running: Running, names: seq<string>, i: nat, j: nat)
    requires forall n :: n in names ==> n in running
    requires i <= j <= |names|
    ensures Total(running, names[..i]) <= Total(running, names[..j])
    decreases j
  {
    if i < j {
      assert names[..j][..j - 1] == names[..j - 1];
      TotalMonotone(running, names, i, j - 1);
    }
  }

  /** Where the `k`-th range lies, without overflow. */
  lemma RangeAt(running: Running, names: seq<string>, k: nat)
    requires Layout(running, names) && Fits(running, names) && k < |names|
    ensures running[names[k]].offset == BASE_PROTOCOL_LENGTH + Total(running, names[..k])
    ensures running[names[k]].offset + running[names[k]].proto.length
            == BASE_PROTOCOL_LENGTH + Total(running, names[..k + 1]) < UINT64
  {
    hide Wrap, NameLess;
    assert StartsAt(running, names, k);
    assert names[..k + 1][..k] == names[..k];
    TotalMonotone(running, names, k + 1, |names|);
    assert names[..|names|] == names;
  }

  /** No message code belongs to two protocols. */
  lemma RangesDisjoint(running: Running, names: seq<string>, m: string, n: string, code: nat)
    requires Layout(running, names) && Fits(running, names)
    requires m in running && n in running && Handles(running[m], code) && Handles(running[n], code)
    ensures m == n
  {
    hide Wrap, Layout, Total;
    var i := IndexOf(running, names, m);
    var j := IndexOf(running, names, n);
    RangeAt(running, names, i);
    RangeAt(running, names, j);
    LayoutNames(running, names);
    if i < j {
      TotalMonotone(running, names, i + 1, j);
    } else if j < i {
      TotalMonotone(running, names, j + 1, i);
    }
  }

  /** The ranges fill [16, end) without gaps. */
  lemma RangesCover(running: Running, names: seq<string>, code: nat)
    requires Layout(running, names) && Fits(running, names)
    ensures BASE_PROTOCOL_LENGTH <= code < BASE_PROTOCOL_LENGTH + Total(running, names)
            <==> exists n :: n in running && Handles(running[n], code)
  {
    hide Wrap, Layout, Total;
    LayoutNames(running, names);
    assert names[..|names|] == names;
    if BASE_PROTOCOL_LENGTH <= code < BASE_PROTOCOL_LENGTH + Total(running, names) {
      var k := FindRange(running, names, |names|, code);
      RangeAt(running, names, k);
      assert names[k] in running && Handles(running[names[k]], code);
    }
    if n :| n in running && Handles(running[n], code) {
      var k := IndexOf(running, names, n);
      RangeAt(running, names, k);
      TotalMonotone(running, names, k + 1, |names|);
    }
  }

  lemma LayoutNames(running: Running, names: seq<string>)
    requires Layout(running, names)
    ensures forall n :: n in names <==> n in running
  {
  }

  lemma IndexOf(running: Running, names: seq<string>, n: string) returns (k: nat)
    requires Layout(running, names) && n in running
    ensures k < |names| && names[k] == n
  {
    assert n in names;
    k :| 0 <= k < |names| && names[k] == n;
  }

  lemma {:induction false} FindRange(running: Running, names: seq<string>, hi: nat, code: nat) returns (k: nat)
    requires forall n :: n in names ==> n in running
    requires hi <= |names|
    requires BASE_PROTOCOL_LENGTH <= code < BASE_PROTOCOL_LENGTH + Total(running, names[..hi])
    ensures k < hi
    ensures BASE_PROTOCOL_LENGTH + Total(running, names[..k]) <= code
            < BASE_PROTOCOL_LENGTH + Total(running, names[..k + 1])
  {
    assert hi > 0;
    assert names[..hi][..hi - 1] == names[..hi - 1];
    if code < BASE_PROTOCOL_LENGTH + Total(running, names[..hi - 1]) {
      k := FindRange(running, names, hi - 1, code);
    } else {
      k := hi - 1;
    }
  }

  /** `getProto`: ranges over the map in any order. */
  method GetProto(running: Running, code: nat, order: seq<string>) returns (r: Option<string>)
    requires forall n :: n in order <==> n in running
    ensures FoundProto(running, code, r)
  {
    var i := 0;
    while i < |order|
      invariant 0 <= i <= |order|
      invariant forall j :: 0 <= j < i ==> !Handles(running[order[j]], code)
    {
      if Handles(running[order[i]], code) {
        return Some(order[i]);
      }
      i := i + 1;
    }
    r := None;
  }

  /** On a layout that fits, what `getProto` may return does not depend on the order of the map,
      and it finds a protocol exactly for the codes in [16, end). */
  lemma GetProtoIgnoresOrder(running: Running, names: seq<string>, code: nat, r: Option<string>, r': Option<string>)
    requires Layout(running, names) && Fits(running, names)
    requires FoundProto(running, code, r) && FoundProto(running, code, r')
    ensures r == r'
    ensures r.Some? <==> BASE_PROTOCOL_LENGTH <= code < BASE_PROTOCOL_LENGTH + Total(running, names)
  {
    hide Layout, Handles, Total;
    RangesCover(running, names, code);
    if r.Some? && r'.Some? {
      RangesDisjoint(running, names, r.value, r'.value, code);
    }
  }

  /** The contract of `getProto`. */
  ghost predicate FoundProto(running: Running, code: nat, r: Option<string>) {
    && (r.Some? ==> r.value in running && Handles(running[r.value], code))
    && (r.None? ==> forall n :: n in running ==> !Handles(running[n], code))
  }

  /** `protoRW.WriteMsg`: the code on the wire, or a refusal. */
  function WireCode(rw: ProtoRW, code: nat): Option<nat> {
    if code >= rw.proto.length then None else Some(Wrap(code + rw.offset))
  }

  /** `protoRW.ReadMsg`. */
  function LocalCode(rw: ProtoRW, code: nat): nat {
    Wrap(code - rw.offset)
  }

  /** A message that protocol `n` writes with code `code` is handled, at the other end, by the
      same protocol and no other, and read there with the same code. */
  lemma MessageReachesItsProtocol(a: seq<Protocol>, b: seq<Protocol>, ra: Running, na: seq<string>,
                                  rb: Running, nb: seq<string>, n: string, code: nat)
    requires SameLengths(a, b)
    requires Best(a, Caps(b), ra) && Layout(ra, na) && Fits(ra, na)
    requires Best(b, Caps(a), rb) && Layout(rb, nb)
    requires n in ra
    ensures n in rb
    ensures match WireCode(ra[n], code)
            case None => code >= ra[n].proto.length
            case Some(wire) =>
              && wire >= BASE_PROTOCOL_LENGTH
              && (forall m :: m in rb ==> (Handles(rb[m], wire) <==> m == n))
              && LocalCode(rb[n], wire) == code
  {
    hide Wrap, Layout, Total, Best;
    PeersAgree(a, b, ra, na, rb, nb);
    if code < ra[n].proto.length {
      var k := IndexOf(ra, na, n);
      RangeAt(ra, na, k);
      var wire := code + ra[n].offset;
      assert Handles(rb[n], wire);
      forall m | m in rb && Handles(rb[m], wire)
        ensures m == n
      {
        RangesDisjoint(ra, na, m, n, wire);
      }
    }
  }

  /** From one end's protocol to the other's: a payload written by protocol `n` with code `code`
      comes out of the frame reader at the other end, in lock step, and is handed to protocol `n`
      with that code and that payload. */
  lemma PayloadReachesItsProtocol(a: seq<Protocol>, b: seq<Protocol>, ra: Running, na: seq<string>,
                                  rb: Running, nb: seq<string>, n: string, code: nat,
                                  c: Frames.Crypto, snappy: bool, lane: Frames.Lane, payload: bytes)
    requires SameLengths(a, b)
    requires Best(a, Caps(b), ra) && Layout(ra, na) && Fits(ra, na)
    requires Best(b, Caps(a), rb) && Layout(rb, nb)
    requires n in ra && code < ra[n].proto.length
    requires Frames.ValidCrypto(c) && |payload| < Frames.UINT32
    requires var m := Frames.Msg(WireCode(ra[n], code).value, |payload|, payload);
             !Frames.Refused(c, snappy, m) && Frames.Sound(snappy, m)
    ensures n in rb
    ensures var m := Frames.Msg(WireCode(ra[n], code).value, |payload|, payload);
            var sent := Frames.WriteMsg(c, snappy, lane, m);
            var got := Frames.ReadMsg(c, snappy, lane, sent.wire);
            && got.Received? && got.lane == sent.lane && got.rest == []
            && got.value.payload == payload
            && (forall x :: x in rb ==> (Handles(rb[x], got.value.code) <==> x == n))
            && LocalCode(rb[n], got.value.code) == code
  {
    hide Frames.WriteMsg, Frames.ReadMsg, Best, Layout, Handles;
    MessageReachesItsProtocol(a, b, ra, na, rb, nb, n, code);
    var m := Frames.Msg(WireCode(ra[n], code).value, |payload|, payload);
    Frames.MsgRoundTrip(c, snappy, lane, m, []);
    var sent := Frames.WriteMsg(c, snappy, lane, m);
    assert sent.wire + [] == sent.wire;
  }
}
