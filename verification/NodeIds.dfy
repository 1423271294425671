/** Node ids: every node of a group computes the ids 1..n of all nodes from the sorted hashes of
    their enodes, so ids need not be exchanged. `hash` stands for `DoubleHash` with the key type. */
module NodeIds {
  import opened Common

  type Hash = string -> nat

  // ------------------------------------------------------------------- sorting

  predicate Sorted(s: seq<nat>) {
    forall i, j :: 0 <= i < j < |s| ==> s[i] <= s[j]
  }

  predicate Less(x: nat, y: nat) { x < y }

  predicate StrictlySorted(s: seq<nat>) {
    Ascending(Less, s)
  }

  function Insert(x: nat, s: seq<nat>): (r: seq<nat>)
    requires Sorted(s)
    ensures Sorted(r) && multiset(r) == multiset(s) + multiset{x}
  {
    if s == [] || x <= s[0] then [x] + s
    else
      var rest := Insert(x, s[1..]);
      assert s == [s[0]] + s[1..];
      InsertBehind(x, s, rest);
      [s[0]] + rest
  }

  lemma InsertBehind(x: nat, s: seq<nat>, rest: seq<nat>)
    requires Sorted(s) && s != [] && s[0] < x
    requires Sorted(rest) && multiset(rest) == multiset(s[1..]) + multiset{x}
    ensures Sorted([s[0]] + rest)
  {
    forall j | 0 <= j < |rest|
      ensures s[0] <= rest[j]
    {
      assert rest[j] in multiset(rest);
      assert rest[j] == x || rest[j] in s[1..];
    }
  }

  /** `sort.Sort` on ids. */
  function Sort(s: seq<nat>): (r: seq<nat>)
    ensures Sorted(r) && multiset(r) == multiset(s) && |r| == |s|
  {
    if s == [] then [] else
      assert s == [s[0]] + s[1..];
      var r := Insert(s[0], Sort(s[1..]));
      assert |multiset(r)| == |multiset(s)|;
      r
  }

  lemma MultisetElement(a: seq<nat>, b: seq<nat>, x: nat)
    requires multiset(a) == multiset(b)
    ensures x in a <==> x in b
  {
    assert x in a <==> x in multiset(a);
    assert x in b <==> x in multiset(b);
  }

  // ------------------------------------------------------------------ node ids

  function Hashes(hash: Hash, group: seq<string>): (r: seq<nat>)
    ensures |r| == |group|
  {
    seq(|group|, i requires 0 <= i < |group| => hash(group[i]))
  }

  /** `GetIDs`. */
  function Ids(hash: Hash, group: seq<string>): (r: seq<nat>)
    ensures Sorted(r) && |r| == |group|
  {
    Sort(Hashes(hash, group))
  }

  /** `GetNodeUID`: one more than the position of the node's hash among the sorted hashes. */
  function NodeUID(hash: Hash, group: seq<string>, enode: string): Option<nat> {
    if enode == "" then None
    else
      var k := FirstIndex(Ids(hash, group), hash(enode));
      if k < |group| then Some(k + 1) else None
  }

  /** No two nodes of the group have the same hash. */
  predicate Distinct(hash: Hash, group: seq<string>) {
    forall i, j :: 0 <= i < j < |group| ==> hash(group[i]) != hash(group[j])
  }

  predicate Named(group: seq<string>) {
    forall i :: 0 <= i < |group| ==> group[i] != ""
  }

  lemma HashAmongIds(hash: Hash, group: seq<string>, x: nat)
    ensures x in Ids(hash, group) <==> exists i :: 0 <= i < |group| && hash(group[i]) == x
  {
    var hs := Hashes(hash, group);
    MultisetElement(Ids(hash, group), hs, x);
    if i :| 0 <= i < |group| && hash(group[i]) == x {
      assert hs[i] == x;
    }
  }

  lemma {:induction false} CountDistinct(s: seq<nat>, x: nat)
    requires forall i, j :: 0 <= i < j < |s| ==> s[i] != s[j]
    ensures multiset(s)[x] <= 1
  {
    if s != [] {
      CountDistinct(s[1..], x);
      assert s == [s[0]] + s[1..];
      assert s[0] !in s[1..];
    }
  }

  /** With distinct hashes the sorted hashes are strictly sorted. */
  lemma IdsStrict(hash: Hash, group: seq<string>)
    requires Distinct(hash, group)
    ensures StrictlySorted(Ids(hash, group))
  {
    var ids, hs := Ids(hash, group), Hashes(hash, group);
    forall i, j | 0 <= i < j < |ids|
      ensures ids[i] < ids[j]
    {
      CountDistinct(hs, ids[i]);
      if ids[i] == ids[j] {
        TwiceCounts(ids, i, j);
      }
    }
  }

  lemma TwiceCounts(s: seq<nat>, i: nat, j: nat)
    requires i < j < |s| && s[i] == s[j]
    ensures multiset(s)[s[i]] >= 2
  {
    assert s == s[..j] + [s[j]] + s[j + 1..];
    assert s[i] in s[..j];
  }

  lemma MemberHasUID(hash: Hash, group: seq<string>, i: nat)
    requires Named(group) && i < |group|
    ensures var u := NodeUID(hash, group, group[i]);
            u.Some? && 1 <= u.value <= |group| && Ids(hash, group)[u.value - 1] == hash(group[i])
  {
    HashAmongIds(hash, group, hash(group[i]));
  }

  /** Some node has the id. */
  predicate Taken(hash: Hash, group: seq<string>, u: nat) {
    exists i :: 0 <= i < |group| && NodeUID(hash, group, group[i]) == Some(u)
  }

  /** Nodes get ids between 1 and n, different nodes different ids, and every id is taken. */
  lemma UIDsAreBijection(hash: Hash, group: seq<string>)
    requires Named(group) && Distinct(hash, group)
    ensures forall i :: 0 <= i < |group| ==>
              NodeUID(hash, group, group[i]).Some? && 1 <= NodeUID(hash, group, group[i]).value <= |group|
    ensures forall i, j :: 0 <= i < j < |group| ==> NodeUID(hash, group, group[i]) != NodeUID(hash, group, group[j])
    ensures forall u :: 1 <= u <= |group| ==> Taken(hash, group, u)
  {
    hide Ids, FirstIndex;
    forall i | 0 <= i < |group|
      ensures NodeUID(hash, group, group[i]).Some? && 1 <= NodeUID(hash, group, group[i]).value <= |group|
      ensures Ids(hash, group)[NodeUID(hash, group, group[i]).value - 1] == hash(group[i])
    {
      MemberHasUID(hash, group, i);
    }
    forall u | 1 <= u <= |group|
      ensures Taken(hash, group, u)
    {
      var i := NodeWithUID(hash, group, u);
    }
  }

  lemma NodeWithUID(hash: Hash, group: seq<string>, u: nat) returns (i: nat)
    requires Named(group) && Distinct(hash, group) && 1 <= u <= |group|
    ensures i < |group| && NodeUID(hash, group, group[i]) == Some(u)
  {
    hide Ids;
    var ids := Ids(hash, group);
    assert ids[u - 1] in ids;
    HashAmongIds(hash, group, ids[u - 1]);
    i :| 0 <= i < |group| && hash(group[i]) == ids[u - 1];
    IdsStrict(hash, group);
    MemberHasUID(hash, group, i);
  }

  /** Ids do not depend on the order in which a group is listed. */
  lemma UIDsIgnoreOrder(hash: Hash, group: seq<string>, other: seq<string>, enode: string)
    requires Distinct(hash, group) && Distinct(hash, other) && forall v :: v in group <==> v in other
    ensures NodeUID(hash, group, enode) == NodeUID(hash, other, enode)
  {
    hide Ids, Distinct;
    var a, b := Ids(hash, group), Ids(hash, other);
    IdsStrict(hash, group);
    IdsStrict(hash, other);
    forall x
      ensures x in a <==> x in b
    {
      if x in a { SameHash(hash, group, other, x); }
      if x in b { SameHash(hash, other, group, x); }
    }
    AscendingUnique(Less, a, b);
  }

  lemma SameHash(hash: Hash, group: seq<string>, other: seq<string>, x: nat)
    requires (forall v :: v in group ==> v in other) && x in Ids(hash, group)
    ensures x in Ids(hash, other)
  {
    HashAmongIds(hash, group, x);
    HashAmongIds(hash, other, x);
    var i :| 0 <= i < |group| && hash(group[i]) == x;
    assert group[i] in other;
    var j :| 0 <= j < |other| && other[j] == group[i];
  }

  /** The nodes with a smaller hash. */
  function Smaller(hash: Hash, group: seq<string>, x: nat): set<nat> {
    set i: nat | i < |group| && hash(group[i]) < x
  }

  /** Who has no name, or a hash that no node of the group has, has no id. */
  lemma StrangersHaveNoUID(hash: Hash, group: seq<string>, enode: string)
    requires enode == "" || forall i :: 0 <= i < |group| ==> hash(group[i]) != hash(enode)
    ensures NodeUID(hash, group, enode) == None
  {
    if enode != "" {
      HashAmongIds(hash, group, hash(enode));
    }
  }

  /** The id of a node is one more than the number of nodes with a smaller hash. */
  lemma UIDIsRank(hash: Hash, group: seq<string>, i: nat)
    requires Named(group) && Distinct(hash, group) && i < |group|
    ensures NodeUID(hash, group, group[i]) == Some(1 + |Smaller(hash, group, hash(group[i]))|)
  {
    MemberHasUID(hash, group, i);
    IdsStrict(hash, group);
    var k := NodeUID(hash, group, group[i]).value - 1;
    SmallerCount(hash, group, k);
  }

  /** Below the `k`-th sorted hash there are `k` nodes. */
  lemma {:induction false} SmallerCount(hash: Hash, group: seq<string>, k: nat)
    requires Distinct(hash, group) && k < |group|
    ensures |Smaller(hash, group, Ids(hash, group)[k])| == k
  {
    hide Ids, Sort, Smaller;
    var ids := Ids(hash, group);
    if k == 0 {
      NoneSmaller(hash, group);
    } else {
      SmallerCount(hash, group, k - 1);
      var p := OneSmaller(hash, group, k);
    }
  }

  lemma NoneSmaller(hash: Hash, group: seq<string>)
    requires group != []
    ensures Smaller(hash, group, Ids(hash, group)[0]) == {}
  {
    hide Ids;
    forall i: nat | i < |group|
      ensures hash(group[i]) >= Ids(hash, group)[0]
    {
      HashAmongIds(hash, group, hash(group[i]));
    }
  }

  lemma OneSmaller(hash: Hash, group: seq<string>, k: nat) returns (p: nat)
    requires Distinct(hash, group) && 0 < k < |group|
    ensures var ids := Ids(hash, group);
            && p !in Smaller(hash, group, ids[k - 1])
            && Smaller(hash, group, ids[k]) == Smaller(hash, group, ids[k - 1]) + {p}
  {
    hide Ids;
    var ids := Ids(hash, group);
    IdsStrict(hash, group);
    HasElement(ids, k - 1);
    HashAmongIds(hash, group, ids[k - 1]);
    p :| p < |group| && hash(group[p]) == ids[k - 1];
    forall i: nat | i < |group|
      ensures hash(group[i]) < ids[k] <==> hash(group[i]) < ids[k - 1] || i == p
    {
      HashAmongIds(hash, group, hash(group[i]));
      BetweenNeighbours(ids, k, hash(group[i]));
    }
  }

  lemma HasElement(s: seq<nat>, k: nat)
    requires k < |s|
    ensures s[k] in s
  {
  }

  lemma BetweenNeighbours(s: seq<nat>, k: nat, x: nat)
    requires StrictlySorted(s) && 0 < k < |s| && x in s
    ensures x < s[k] <==> x <= s[k - 1]
  {
  }

  // --------------------------------------------------------------- subgroups

  /** The ids of the listed nodes that belong to the group, in the order of the list. */
  function Collect(hash: Hash, group: seq<string>, sub: seq<string>): seq<nat> {
    if sub == [] then []
    else
      var k := FirstIndex(Ids(hash, group), hash(sub[|sub| - 1]));
      Collect(hash, group, sub[..|sub| - 1]) + if k < |group| then [k + 1] else []
  }

  /** `GetGroupNodeUIDs`. */
  function SubgroupUIDs(hash: Hash, group: seq<string>, sub: seq<string>): seq<nat> {
    Sort(Collect(hash, group, sub))
  }

  /** Some listed node has the id. */
  predicate HasUID(hash: Hash, group: seq<string>, sub: seq<string>, u: nat) {
    exists i :: 0 <= i < |sub| && NodeUID(hash, group, sub[i]) == Some(u)
  }

  lemma HasUIDAppend(hash: Hash, group: seq<string>, before: seq<string>, last: string, u: nat)
    ensures HasUID(hash, group, before + [last], u)
            <==> HasUID(hash, group, before, u) || NodeUID(hash, group, last) == Some(u)
  {
    hide NodeUID;
    var sub := before + [last];
    if HasUID(hash, group, before, u) {
      var i :| 0 <= i < |before| && NodeUID(hash, group, before[i]) == Some(u);
      assert sub[i] == before[i];
    }
    assert sub[|before|] == last;
  }

  lemma {:induction false} CollectElements(hash: Hash, group: seq<string>, sub: seq<string>, u: nat)
    requires Named(sub)
    ensures u in Collect(hash, group, sub)
            <==> HasUID(hash, group, sub, u)
  {
    if sub != [] {
      hide Ids, FirstIndex, HasUID;
      var before, last := sub[..|sub| - 1], sub[|sub| - 1];
      assert sub == before + [last];
      CollectElements(hash, group, before, u);
      HasUIDAppend(hash, group, before, last, u);
    }
  }

  lemma {:induction false} CollectDiffers(hash: Hash, group: seq<string>, sub: seq<string>)
    requires Distinct(hash, sub) && Named(sub)
    ensures forall i, j :: 0 <= i < j < |Collect(hash, group, sub)| ==>
              Collect(hash, group, sub)[i] != Collect(hash, group, sub)[j]
  {
    if sub != [] {
      hide Ids;
      var before, last := sub[..|sub| - 1], sub[|sub| - 1];
      CollectDiffers(hash, group, before);
      var u := NodeUID(hash, group, last);
      if u.Some? {
        CollectElements(hash, group, before, u.value);
        forall i | 0 <= i < |before|
          ensures NodeUID(hash, group, before[i]) != u
        {
          DifferentUIDs(hash, group, before[i], last);
        }
      }
    }
  }

  /** Equal ids mean equal hashes. */
  lemma DifferentUIDs(hash: Hash, group: seq<string>, a: string, b: string)
    requires hash(a) != hash(b) && a != "" && b != ""
    ensures NodeUID(hash, group, a) == NodeUID(hash, group, b) ==> NodeUID(hash, group, a) == None
  {
    hide Ids;
  }

  /** The ids of a subgroup are the strictly sorted list of the ids of its members. */
  lemma SubgroupIsSorted(hash: Hash, group: seq<string>, sub: seq<string>)
    requires Distinct(hash, sub) && Named(sub)
    ensures StrictlySorted(SubgroupUIDs(hash, group, sub))
    ensures forall u: nat :: u in SubgroupUIDs(hash, group, sub) <==> HasUID(hash, group, sub, u)
  {
    hide Ids, NodeUID;
    var c, r := Collect(hash, group, sub), SubgroupUIDs(hash, group, sub);
    CollectDiffers(hash, group, sub);
    forall u: nat
      ensures u in r <==> HasUID(hash, group, sub, u)
    {
      MultisetElement(r, c, u);
      CollectElements(hash, group, sub, u);
    }
    forall i, j | 0 <= i < j < |r|
      ensures r[i] < r[j]
    {
      CountDistinct(c, r[i]);
      if r[i] == r[j] {
        TwiceCounts(r, i, j);
      }
    }
  }

  // ----------------------------------------------------------- ids to nodes

  /** The text under which an id travels: hex of its decimal digits, or of "<nil>". Different ids
      have different texts, so the id itself stands for it. */
  type IdText = Option<nat>

  /** `GetMsgToEnode`. */
  function MsgToEnode(hash: Hash, group: seq<string>, sub: seq<string>): map<IdText, string> {
    if sub == [] then map[]
    else
      var node := sub[|sub| - 1];
      MsgToEnode(hash, group, sub[..|sub| - 1])[NodeUID(hash, group, node) := node]
  }

  /** The table maps the id of each listed node back to the node, and nothing else. */
  ghost predicate Inverts(hash: Hash, group: seq<string>, sub: seq<string>, table: map<IdText, string>) {
    && (forall v :: v in sub ==> NodeUID(hash, group, v) in table && table[NodeUID(hash, group, v)] == v)
    && (forall t :: t in table ==> t.Some? && table[t] in sub && NodeUID(hash, group, table[t]) == t)
  }

  lemma {:induction false} TableInvertsUIDs(hash: Hash, group: seq<string>, sub: seq<string>)
    requires Named(group) && Distinct(hash, group) && forall v :: v in sub ==> v in group
    ensures Inverts(hash, group, sub, MsgToEnode(hash, group, sub))
  {
    if sub != [] {
      hide Ids, NodeUID, Distinct, Inverts;
      var before, node := sub[..|sub| - 1], sub[|sub| - 1];
      assert sub == before + [node];
      TableInvertsUIDs(hash, group, before);
      InvertsOneMore(hash, group, before, node, MsgToEnode(hash, group, before));
    }
  }

  lemma InvertsOneMore(hash: Hash, group: seq<string>, before: seq<string>, node: string, table: map<IdText, string>)
    requires Named(group) && Distinct(hash, group) && (forall v :: v in before ==> v in group) && node in group
    requires Inverts(hash, group, before, table)
    ensures Inverts(hash, group, before + [node], table[NodeUID(hash, group, node) := node])
  {
    hide NodeUID, Distinct, Named;
    MemberDefined(hash, group, node);
    forall v | v in before && v != node
      ensures NodeUID(hash, group, v) != NodeUID(hash, group, node)
    {
      MembersDiffer(hash, group, v, node);
    }
  }

  lemma MemberDefined(hash: Hash, group: seq<string>, v: string)
    requires Named(group) && v in group
    ensures NodeUID(hash, group, v).Some?
  {
    var k :| 0 <= k < |group| && group[k] == v;
    MemberHasUID(hash, group, k);
  }

  lemma MembersDiffer(hash: Hash, group: seq<string>, v: string, w: string)
    requires Named(group) && Distinct(hash, group) && v in group && w in group && v != w
    ensures NodeUID(hash, group, v) != NodeUID(hash, group, w)
  {
    hide NodeUID;
    var m :| 0 <= m < |group| && group[m] == v;
    var k :| 0 <= k < |group| && group[k] == w;
    UIDsAreBijection(hash, group);
  }

  // ----------------------------------------------------------- the inbound gate

  /** What `ProcessInboundMessages` demands: a signature by the key whose lower-case hex is the
      sender's enode, the sender's own id as sender id, and an enode of the group. */
  predicate Passes(hash: Hash, group: seq<string>, signer: string, enode: string, fromID: IdText) {
    && signer == enode && Fold(signer) == signer
    && NodeUID(hash, group, enode) == fromID
    && exists i :: 0 <= i < |group| && Fold(group[i]) == Fold(enode)
  }

  /** Enodes of the group are listed as they are printed, in lower case. */
  predicate Printed(group: seq<string>) {
    forall i :: 0 <= i < |group| ==> Fold(group[i]) == group[i]
  }

  /** A message that passes is from a group node, under the id of that node; so two messages that
      pass with the same sender id are from the same node, the one the table gives. */
  lemma GateIdentifiesSender(hash: Hash, group: seq<string>, signer: string, enode: string, fromID: IdText,
                             signer': string, enode': string)
    requires Named(group) && Distinct(hash, group) && Printed(group)
    requires Passes(hash, group, signer, enode, fromID) && Passes(hash, group, signer', enode', fromID)
    ensures enode in group && fromID.Some? && enode == enode'
    ensures fromID in MsgToEnode(hash, group, group) && MsgToEnode(hash, group, group)[fromID] == enode
  {
    hide Ids, NodeUID, Distinct, Fold;
    var i :| 0 <= i < |group| && Fold(group[i]) == Fold(enode);
    var j :| 0 <= j < |group| && Fold(group[j]) == Fold(enode');
    assert group[i] == enode && group[j] == enode';
    MemberHasUID(hash, group, i);
    if enode != enode' {
      MembersDiffer(hash, group, enode, enode');
    }
    TableInvertsUIDs(hash, group, group);
  }

  /** A message passes exactly if it is signed by the key of the enode that it names, that enode is in the group,
      and the sender id is one more than the number of group nodes with a smaller hash. */
  lemma PassesIff(hash: Hash, group: seq<string>, signer: string, enode: string, fromID: IdText)
    requires Named(group) && Distinct(hash, group) && Printed(group)
    ensures Passes(hash, group, signer, enode, fromID)
            <==> && signer == enode && enode in group
                 && fromID == Some(1 + |Smaller(hash, group, hash(enode))|)
  {
    hide NodeUID, Distinct, Fold;
    if Passes(hash, group, signer, enode, fromID) {
      var i :| 0 <= i < |group| && Fold(group[i]) == Fold(enode);
      assert group[i] == enode;
      UIDIsRank(hash, group, i);
    }
    if enode in group {
      var i :| 0 <= i < |group| && group[i] == enode;
      UIDIsRank(hash, group, i);
    }
  }

  ghost predicate Identifies(hash: Hash, group: seq<string>) {
    forall e, e', t :: Passes(hash, group, e, e, t) && Passes(hash, group, e', e', t) ==> e == e'
  }

  ghost predicate Injective(hash: Hash) {
    forall a, b :: hash(a) == hash(b) ==> a == b
  }

  lemma FoldTwice(s: string)
    ensures Fold(Fold(s)) == Fold(s)
  {
  }

  lemma NoUIDIff(hash: Hash, group: seq<string>, e: string)
    requires Injective(hash) && Named(group) && e != ""
    ensures NodeUID(hash, group, e) == None <==> e !in group
  {
    HashAmongIds(hash, group, hash(e));
    if e in group {
      MemberDefined(hash, group, e);
    }
  }

  /** When hashes do not collide, the gate identifies senders if and only if at most one enode of
      the list lacks its lower-case form: two such enodes have no id, and both pass with the text
      of "no id". */
  lemma IdentifiesIff(hash: Hash, group: seq<string>)
    requires Injective(hash) && Named(group)
    ensures Identifies(hash, group)
            <==> forall v, w :: v in group && w in group && Fold(v) !in group && Fold(w) !in group ==>
                                  Fold(v) == Fold(w)
  {
    hide NodeUID, Ids, Fold;
    forall v, w | v in group && w in group && Fold(v) !in group && Fold(w) !in group && Fold(v) != Fold(w)
      ensures !Identifies(hash, group)
    {
      PassesWithoutUID(hash, group, v);
      PassesWithoutUID(hash, group, w);
    }
    forall e, e', t | Passes(hash, group, e, e, t) && Passes(hash, group, e', e', t) && e != e'
      ensures exists v, w :: v in group && w in group && Fold(v) !in group && Fold(w) !in group && Fold(v) != Fold(w)
    {
      AmbiguousHasNoUID(hash, group, e, e', t);
      var i :| 0 <= i < |group| && Fold(group[i]) == Fold(e);
      var j :| 0 <= j < |group| && Fold(group[j]) == Fold(e');
      assert group[i] in group && group[j] in group;
    }
  }

  lemma PassesWithoutUID(hash: Hash, group: seq<string>, v: string)
    requires Injective(hash) && Named(group) && v in group && Fold(v) !in group
    ensures Passes(hash, group, Fold(v), Fold(v), None)
  {
    hide NodeUID, Fold;
    FoldTwice(v);
    var i :| 0 <= i < |group| && group[i] == v;
    assert |Fold(v)| == |v| > 0;
    NoUIDIff(hash, group, Fold(v));
  }

  lemma AmbiguousHasNoUID(hash: Hash, group: seq<string>, e: string, e': string, t: IdText)
    requires Injective(hash) && Named(group) && e != e'
    requires Passes(hash, group, e, e, t) && Passes(hash, group, e', e', t)
    ensures e !in group && e' !in group
  {
    hide Ids, Fold;
    assert |Fold(e)| == |e| && |Fold(e')| == |e'|;
    if t.None? {
      NoUIDIff(hash, group, e);
      NoUIDIff(hash, group, e');
    } else {
      DifferentUIDs(hash, group, e, e');
    }
  }

  /** Two listed enodes in upper case: the nodes that print them in lower case both pass without an
      id. */
  lemma UpperCaseIsAmbiguous(hash: Hash)
    requires Injective(hash)
    ensures Passes(hash, ["A", "B"], "a", "a", None) && Passes(hash, ["A", "B"], "b", "b", None)
    ensures !Identifies(hash, ["A", "B"])
  {
    hide NodeUID;
    var group := ["A", "B"];
    assert Fold("A") == "a" && Fold("B") == "b";
    assert "A"[0] == 'A' && "B"[0] == 'B' && "a"[0] == 'a' && "b"[0] == 'b';
    assert group[0] in group && group[1] in group;
    PassesWithoutUID(hash, group, "A");
    PassesWithoutUID(hash, group, "B");
  }

  // --------------------------------------------------- the table of key generation

  /** An inbound message: whether it is of round 0, its sender id and enode, the enode of the key
      that signed it, and whether the round takes it. Messages without a readable signature count
      as signed by somebody else; repeated messages are skipped before anything else happens. */
  datatype Inbound = Inbound(round0: bool, fromID: IdText, enode: string, signer: string, taken: bool)

  /** The table of the worker, and the message that ended the loop. */
  datatype Keygen = Keygen(table: map<IdText, string>, failed: Option<Inbound>)

  /** One turn of `ProcessInboundMessages`: a message of round 0 is entered into the table before
      any check, and a message that fails a check ends the loop. */
  function Receive(hash: Hash, group: seq<string>, k: Keygen, m: Inbound): Keygen {
    if k.failed.Some? then k
    else
      var table := if m.round0 then k.table[m.fromID := m.enode] else k.table;
      var passes := Passes(hash, group, m.signer, m.enode, m.fromID) && m.taken;
      Keygen(table, if passes then None else Some(m))
  }

  /** The node enters itself first. */
  function ReceiveAll(hash: Hash, group: seq<string>, self: string, msgs: seq<Inbound>): Keygen {
    if msgs == [] then Keygen(map[NodeUID(hash, group, self) := self], None)
    else Receive(hash, group, ReceiveAll(hash, group, self, msgs[..|msgs| - 1]), msgs[|msgs| - 1])
  }

  /** The sender id is the id of the enode. */
  predicate Matches(hash: Hash, group: seq<string>, fromID: IdText, enode: string) {
    enode in group && NodeUID(hash, group, enode) == fromID
  }

  /** Every entry agrees with the table computed from the group. */
  ghost predicate Agrees(hash: Hash, group: seq<string>, table: map<IdText, string>) {
    forall t :: t in table ==> Matches(hash, group, t, table[t])
  }

  lemma PassesMatches(hash: Hash, group: seq<string>, signer: string, enode: string, fromID: IdText)
    requires Printed(group) && Passes(hash, group, signer, enode, fromID)
    ensures Matches(hash, group, fromID, enode)
  {
    hide NodeUID, Fold;
    var i :| 0 <= i < |group| && Fold(group[i]) == Fold(enode);
    assert group[i] == enode;
  }

  /** The message passes the gate and the round takes it. */
  predicate Accepted(hash: Hash, group: seq<string>, m: Inbound) {
    Passes(hash, group, m.signer, m.enode, m.fromID) && m.taken
  }

  predicate AllAccepted(hash: Hash, group: seq<string>, msgs: seq<Inbound>) {
    forall j :: 0 <= j < |msgs| ==> Accepted(hash, group, msgs[j])
  }

  /** The loop is still running exactly if all messages were accepted. */
  lemma {:induction false} RunningIff(hash: Hash, group: seq<string>, self: string, msgs: seq<Inbound>)
    ensures ReceiveAll(hash, group, self, msgs).failed.None? <==> AllAccepted(hash, group, msgs)
  {
    hide NodeUID, Accepted;
    if msgs != [] {
      var before, m := msgs[..|msgs| - 1], msgs[|msgs| - 1];
      RunningIff(hash, group, self, before);
      assert msgs == before + [m];
      AcceptedIff(hash, group, ReceiveAll(hash, group, self, before), m);
    }
  }

  lemma AcceptedIff(hash: Hash, group: seq<string>, k: Keygen, m: Inbound)
    ensures Receive(hash, group, k, m).failed.None? <==> k.failed.None? && Accepted(hash, group, m)
  {
  }

  /** The message that ends the loop is the first one that is not accepted. */
  lemma FailedIsFirst(hash: Hash, group: seq<string>, self: string, msgs: seq<Inbound>, i: nat)
    requires i < |msgs| && AllAccepted(hash, group, msgs[..i]) && !Accepted(hash, group, msgs[i])
    ensures ReceiveAll(hash, group, self, msgs).failed == Some(msgs[i])
  {
    hide NodeUID, Passes;
    RunningIff(hash, group, self, msgs[..i]);
    assert msgs[..i + 1][..i] == msgs[..i];
    FailedStays(hash, group, self, msgs, i + 1);
  }

  /** After any messages, the table of key generation is right if and only if the message that ended
      the loop, if there is one, is not of round 0 or names its own id. */
  lemma {:induction false} TableRightIffFailed(hash: Hash, group: seq<string>, self: string, msgs: seq<Inbound>)
    requires Printed(group) && self in group
    ensures var k := ReceiveAll(hash, group, self, msgs);
            Agrees(hash, group, k.table)
            <==> k.failed.None? || !k.failed.value.round0
                 || Matches(hash, group, k.failed.value.fromID, k.failed.value.enode)
  {
    hide NodeUID, Passes, Matches;
    if msgs == [] {
      SelfMatches(hash, group, self);
    } else {
      var before, m := msgs[..|msgs| - 1], msgs[|msgs| - 1];
      TableRightIffFailed(hash, group, self, before);
      var k0 := ReceiveAll(hash, group, self, before);
      var k := Receive(hash, group, k0, m);
      assert k0.failed.None? && m.round0 ==> m.fromID in k.table && k.table[m.fromID] == m.enode;
      if Passes(hash, group, m.signer, m.enode, m.fromID) {
        PassesMatches(hash, group, m.signer, m.enode, m.fromID);
      }
    }
  }

  /** The messages up to the first one that is not accepted name their own ids in round 0. */
  predicate NamesOwnIds(hash: Hash, group: seq<string>, msgs: seq<Inbound>) {
    forall i :: 0 <= i < |msgs| && AllAccepted(hash, group, msgs[..i]) && msgs[i].round0 ==>
      Matches(hash, group, msgs[i].fromID, msgs[i].enode)
  }

  /** After any messages, the table of key generation is right if and only if every message of round
      0, up to the first message that is not accepted, names the id of its enode. */
  lemma KeygenTableRightIff(hash: Hash, group: seq<string>, self: string, msgs: seq<Inbound>)
    requires Printed(group) && self in group
    ensures Agrees(hash, group, ReceiveAll(hash, group, self, msgs).table) <==> NamesOwnIds(hash, group, msgs)
  {
    hide NodeUID, Passes, Matches, Agrees, ReceiveAll, AllAccepted;
    TableRightIffFailed(hash, group, self, msgs);
    RunningIff(hash, group, self, msgs);
    forall i | 0 <= i < |msgs| && Accepted(hash, group, msgs[i])
      ensures Matches(hash, group, msgs[i].fromID, msgs[i].enode)
    {
      PassesMatches(hash, group, msgs[i].signer, msgs[i].enode, msgs[i].fromID);
    }
    if AllAccepted(hash, group, msgs) {
      AllAcceptedAt(hash, group, msgs);
    } else {
      var i := FirstRefused(hash, group, msgs);
      FailedIsFirst(hash, group, self, msgs, i);
      forall j | 0 <= j < |msgs| && AllAccepted(hash, group, msgs[..j]) && !Accepted(hash, group, msgs[j])
        ensures msgs[j] == msgs[i]
      {
        FailedIsFirst(hash, group, self, msgs, j);
      }
    }
  }

  lemma AllAcceptedAt(hash: Hash, group: seq<string>, msgs: seq<Inbound>)
    requires AllAccepted(hash, group, msgs)
    ensures forall i :: 0 <= i < |msgs| ==> Accepted(hash, group, msgs[i])
  {
  }

  lemma FirstRefused(hash: Hash, group: seq<string>, msgs: seq<Inbound>) returns (i: nat)
    requires !AllAccepted(hash, group, msgs)
    ensures i < |msgs| && AllAccepted(hash, group, msgs[..i]) && !Accepted(hash, group, msgs[i])
  {
    hide Accepted;
    i := 0;
    while i < |msgs| && Accepted(hash, group, msgs[i])
      invariant i <= |msgs| && AllAccepted(hash, group, msgs[..i])
    {
      i := i + 1;
    }
  }

  lemma SelfMatches(hash: Hash, group: seq<string>, self: string)
    requires self in group
    ensures Matches(hash, group, NodeUID(hash, group, self), self)
  {
  }

  lemma {:induction false} RoundZeroEnters(hash: Hash, group: seq<string>, self: string, msgs: seq<Inbound>, m: Inbound)
    requires m in msgs && m.round0 && ReceiveAll(hash, group, self, msgs).failed.None?
    ensures m.fromID in ReceiveAll(hash, group, self, msgs).table
    ensures Passes(hash, group, m.signer, m.enode, m.fromID)
  {
    hide NodeUID, Passes;
    var before, last := msgs[..|msgs| - 1], msgs[|msgs| - 1];
    assert msgs == before + [last];
    if m != last {
      RoundZeroEnters(hash, group, self, before, m);
    }
  }

  lemma {:induction false} SelfStays(hash: Hash, group: seq<string>, self: string, msgs: seq<Inbound>)
    ensures NodeUID(hash, group, self) in ReceiveAll(hash, group, self, msgs).table
  {
    hide NodeUID, Passes;
    if msgs != [] {
      SelfStays(hash, group, self, msgs[..|msgs| - 1]);
    }
  }

  /** A message of round 0 from the node. */
  predicate SentBy(m: Inbound, v: string) { m.round0 && m.enode == v }

  /** When all messages were accepted and every other node was heard in round 0, the table is the one
      computed from the group: it maps the id of every node back to the node. */
  lemma KeygenTableComplete(hash: Hash, group: seq<string>, self: string, msgs: seq<Inbound>)
    requires Named(group) && Distinct(hash, group) && Printed(group) && self in group
    requires AllAccepted(hash, group, msgs)
    requires forall v :: v in group && v != self ==> exists m :: m in msgs && SentBy(m, v)
    ensures ReceiveAll(hash, group, self, msgs).table == MsgToEnode(hash, group, group)
  {
    hide NodeUID, Passes, Distinct, Named, ReceiveAll;
    var table, all := ReceiveAll(hash, group, self, msgs).table, MsgToEnode(hash, group, group);
    RunningIff(hash, group, self, msgs);
    TableRightIffFailed(hash, group, self, msgs);
    TableInvertsUIDs(hash, group, group);
    SelfStays(hash, group, self, msgs);
    forall v | v in group && v != self
      ensures NodeUID(hash, group, v) in table
    {
      var m :| m in msgs && SentBy(m, v);
      RoundZeroEnters(hash, group, self, msgs, m);
      PassesMatches(hash, group, m.signer, m.enode, m.fromID);
    }
    assert forall t :: t in table ==> t in all && all[t] == table[t];
    assert forall t :: t in all ==> t in table;
  }

  /** A round-0 message with the id of one group node and the enode of another ends the loop and
      leaves the wrong node in the table. */
  lemma ForeignIdStays(hash: Hash, group: seq<string>, self: string, other: string, owner: string, signer: string)
    requires Named(group) && Distinct(hash, group) && Printed(group)
    requires self in group && other in group && owner in group && other != owner
    ensures var t := NodeUID(hash, group, owner);
            var k := ReceiveAll(hash, group, self, [Inbound(true, t, other, signer, true)]);
            k.failed.Some? && t in k.table && k.table[t] == other && !Agrees(hash, group, k.table)
  {
    hide NodeUID, Distinct, Named;
    MembersDiffer(hash, group, other, owner);
    var t := NodeUID(hash, group, owner);
    var msgs := [Inbound(true, t, other, signer, true)];
    assert msgs[..0] == [];
    assert ReceiveAll(hash, group, self, msgs)
        == Receive(hash, group, ReceiveAll(hash, group, self, []), msgs[0]);
    TableRightIffFailed(hash, group, self, msgs);
  }

  // ------------------------------------------------------------- the loops in place

  method GetIDs(hash: Hash, group: seq<string>) returns (ids: seq<nat>)
    ensures ids == Ids(hash, group)
  {
    ids := [];
    var i := 0;
    while i < |group|
      invariant 0 <= i <= |group|
      invariant ids == Hashes(hash, group[..i])
    {
      ids := ids + [hash(group[i])];
      i := i + 1;
    }
    assert group[..i] == group;
    ids := Sort(ids);
  }

  method GetNodeUID(hash: Hash, group: seq<string>, enode: string) returns (uid: Option<nat>)
    ensures uid == NodeUID(hash, group, enode)
  {
    if enode == "" {
      return None;
    }
    var ids := GetIDs(hash, group);
    var k := 0;
    while k < |ids|
      invariant 0 <= k <= |ids|
      invariant forall j :: 0 <= j < k ==> ids[j] != hash(enode)
    {
      if ids[k] == hash(enode) && k + 1 <= |group| {
        return Some(k + 1);
      }
      k := k + 1;
    }
    return None;
  }

  method GetGroupNodeUIDs(hash: Hash, group: seq<string>, sub: seq<string>) returns (ids: seq<nat>)
    ensures ids == SubgroupUIDs(hash, group, sub)
  {
    hide Ids, Sort;
    var all := GetIDs(hash, group);
    ids := [];
    assert sub[..0] == [];
    var i := 0;
    while i < |sub|
      invariant 0 <= i <= |sub|
      invariant ids == Collect(hash, group, sub[..i])
    {
      assert sub[..i + 1][..i] == sub[..i];
      var k := 0;
      while k < |all| && all[k] != hash(sub[i])
        invariant 0 <= k <= |all|
        invariant forall j :: 0 <= j < k ==> all[j] != hash(sub[i])
      {
        k := k + 1;
      }
      if k < |all| {
        ids := ids + [k + 1];
      }
      i := i + 1;
    }
    assert sub[..i] == sub;
    ids := Sort(ids);
  }

  method GetMsgToEnode(hash: Hash, group: seq<string>, sub: seq<string>) returns (table: map<IdText, string>)
    ensures table == MsgToEnode(hash, group, sub)
  {
    table := map[];
    assert sub[..0] == [];
    var i := 0;
    while i < |sub|
      invariant 0 <= i <= |sub|
      invariant table == MsgToEnode(hash, group, sub[..i])
    {
      assert sub[..i + 1][..i] == sub[..i];
      var uid := GetNodeUID(hash, group, sub[i]);
      table := table[uid := sub[i]];
      i := i + 1;
    }
    assert sub[..i] == sub;
  }

  /** `ProcessInboundMessages` over the messages that arrive: the table is written first, then come
      the signature, the sender id and the group. */
  method ProcessInbound(hash: Hash, group: seq<string>, self: string, msgs: seq<Inbound>)
    returns (table: map<IdText, string>, failed: Option<Inbound>)
    ensures Keygen(table, failed) == ReceiveAll(hash, group, self, msgs)
  {
    hide NodeUID, Fold;
    var own := GetNodeUID(hash, group, self);
    table, failed := map[own := self], None;
    assert msgs[..0] == [];
    for i := 0 to |msgs|
      invariant failed.None? && Keygen(table, failed) == ReceiveAll(hash, group, self, msgs[..i])
    {
      var m := msgs[i];
      assert msgs[..i + 1][..i] == msgs[..i];
      FailedStays(hash, group, self, msgs, i + 1);
      if m.round0 {
        table := table[m.fromID := m.enode];
      }
      if m.signer != m.enode || Fold(m.signer) != m.signer {
        failed := Some(m);
        return;
      }
      var uid := GetNodeUID(hash, group, m.enode);
      if uid != m.fromID {
        failed := Some(m);
        return;
      }
      var j := 0;
      while j < |group| && Fold(group[j]) != Fold(m.enode)
        invariant 0 <= j <= |group|
        invariant forall l :: 0 <= l < j ==> Fold(group[l]) != Fold(m.enode)
      {
        j := j + 1;
      }
      if j == |group| || !m.taken {
        failed := Some(m);
        return;
      }
    }
    assert msgs[..|msgs|] == msgs;
  }

  /** After a failed message nothing changes. */
  lemma {:induction false} FailedStays(hash: Hash, group: seq<string>, self: string, msgs: seq<Inbound>, i: nat)
    requires i <= |msgs|
    ensures var k := ReceiveAll(hash, group, self, msgs[..i]);
            k.failed.Some? ==> ReceiveAll(hash, group, self, msgs) == k
  {
    hide NodeUID, Passes;
    if i < |msgs| {
      assert msgs[..|msgs| - 1][..i] == msgs[..i];
      FailedStays(hash, group, self, msgs[..|msgs| - 1], i);
    } else {
      assert msgs[..i] == msgs;
    }
  }
}
