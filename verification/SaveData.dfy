/** The save string of key generation: fields joined by a separator, read back by position. */
module SaveData {
  import opened Bytes

  /** The bytes of "dcrmsepsave". */
  const SEP: bytes := [0x64, 0x63, 0x72, 0x6d, 0x73, 0x65, 0x70, 0x73, 0x61, 0x76, 0x65]

  // -------------------------------------------------------- splitting and joining

  predicate OccursAt(s: bytes, i: int) {
    0 <= i <= |s| - |SEP| && s[i..i + |SEP|] == SEP
  }

  ghost predicate Contains(s: bytes) {
    exists i :: OccursAt(s, i)
  }

  /** The first occurrence of the separator from `i` on, or -1. */
  function Index(s: bytes, i: nat): (r: int)
    requires i <= |s|
    ensures r == -1 || (i <= r && OccursAt(s, r))
    ensures forall j :: i <= j && (r == -1 || j < r) ==> !OccursAt(s, j)
    decreases |s| - i
  {
    if i > |s| - |SEP| then -1
    else if OccursAt(s, i) then i
    else Index(s, i + 1)
  }

  /** `strings.Split` with this separator. */
  function Split(s: bytes): (r: seq<bytes>)
    ensures |r| >= 1
    decreases |s|
  {
    var k := Index(s, 0);
    if k == -1 then [s] else [s[..k]] + Split(s[k + |SEP|..])
  }

  function Join(fields: seq<bytes>): bytes
    requires fields != []
  {
    if |fields| == 1 then fields[0] else fields[0] + SEP + Join(fields[1..])
  }

  ghost predicate Free(fields: seq<bytes>) {
    forall k :: 0 <= k < |fields| ==> !Contains(fields[k])
  }

  /** The separator starts with a byte that does not occur in it again. */
  lemma SepUnbordered(k: nat)
    requires 0 < k < |SEP|
    ensures SEP[k] != SEP[0]
  {
  }

  lemma OccursInPrefix(f: bytes, rest: bytes, i: int)
    requires i + |SEP| <= |f|
    ensures OccursAt(f + rest, i) <==> OccursAt(f, i)
  {
    if 0 <= i {
      assert (f + rest)[i..i + |SEP|] == f[i..i + |SEP|];
    }
  }

  /** An occurrence cannot straddle the start of another one. */
  lemma NoOverlap(f: bytes, rest: bytes, i: int)
    requires 0 <= i < |f| < i + |SEP|
    ensures !OccursAt(f + SEP + rest, i)
  {
    var s, k := f + SEP + rest, |f| - i;
    SepUnbordered(k);
    assert s[i + k] == SEP[0];
    if i <= |s| - |SEP| {
      assert s[i..i + |SEP|][k] == s[i + k];
    }
  }

  /** The first separator behind a field that contains none is the one that was put there. */
  lemma FirstSeparator(f: bytes, rest: bytes)
    requires !Contains(f)
    ensures Index(f + SEP + rest, 0) == |f|
  {
    var s := f + SEP + rest;
    assert s[|f|..|f| + |SEP|] == SEP;
    assert OccursAt(s, |f|);
    forall i | 0 <= i < |f|
      ensures !OccursAt(s, i)
    {
      if i + |SEP| <= |f| {
        OccursInPrefix(f, SEP + rest, i);
        assert s == f + (SEP + rest);
      } else {
        NoOverlap(f, rest, i);
      }
    }
  }

  lemma {:induction false} SplitJoin(fields: seq<bytes>)
    requires fields != [] && Free(fields)
    ensures Split(Join(fields)) == fields
  {
    var f := fields[0];
    assert !Contains(f);
    if |fields| > 1 {
      var rest := Join(fields[1..]);
      var s := f + SEP + rest;
      FirstSeparator(f, rest);
      assert s[..|f|] == f && s[|f| + |SEP|..] == rest;
      SplitJoin(fields[1..]);
    }
  }

  /** No piece of a split contains the separator. */
  lemma {:induction false} PiecesAreFree(s: bytes)
    ensures Free(Split(s))
    decreases |s|
  {
    var k := Index(s, 0);
    if k != -1 {
      PiecesAreFree(s[k + |SEP|..]);
      var head := s[..k];
      assert s == head + s[k..];
      forall i | i + |SEP| <= |head|
        ensures !OccursAt(head, i)
      {
        OccursInPrefix(head, s[k..], i);
      }
    }
  }

  /** Splitting recovers the fields exactly when none of them contains the separator. */
  lemma SplitJoinIff(fields: seq<bytes>)
    requires fields != []
    ensures Split(Join(fields)) == fields <==> Free(fields)
  {
    PiecesAreFree(Join(fields));
    if Free(fields) {
      SplitJoin(fields);
    }
  }

  // ------------------------------------------------------------------ the record

  datatype PaillierSk = PaillierSk(length: bytes, l: nat, u: nat)

  datatype PaillierPk = PaillierPk(length: bytes, n: nat, g: nat, n2: nat)

  datatype Ntilde = Ntilde(ntilde: nat, h1: nat, h2: nat)

  datatype NtildePriv = NtildePriv(alpha: nat, beta: nat, q1: nat, q2: nat)

  datatype Record = Record(sk: PaillierSk, pks: seq<PaillierPk>, ntildes: seq<Ntilde>, priv: NtildePriv)

  /** The bytes of "XXX" and "NULL". */
  const XXX: bytes := [0x58, 0x58, 0x58]
  const NULL: bytes := [0x4e, 0x55, 0x4c, 0x4c]

  function PkFields(p: PaillierPk): seq<bytes> { [p.length, ToBytes(p.n), ToBytes(p.g), ToBytes(p.n2)] }

  function NtildeFields(t: Ntilde): seq<bytes> { [ToBytes(t.ntilde), ToBytes(t.h1), ToBytes(t.h2)] }

  function AllPkFields(pks: seq<PaillierPk>): (r: seq<bytes>)
    ensures |r| == 4 * |pks|
  {
    if pks == [] then [] else AllPkFields(pks[..|pks| - 1]) + PkFields(pks[|pks| - 1])
  }

  function AllNtildeFields(ts: seq<Ntilde>): (r: seq<bytes>)
    ensures |r| == 3 * |ts|
  {
    if ts == [] then [] else AllNtildeFields(ts[..|ts| - 1]) + NtildeFields(ts[|ts| - 1])
  }

  function SkFields(sk: PaillierSk): seq<bytes> { [XXX, sk.length, ToBytes(sk.l), ToBytes(sk.u)] }

  function PrivFields(p: NtildePriv): seq<bytes> { [ToBytes(p.alpha), ToBytes(p.beta), ToBytes(p.q1), ToBytes(p.q2)] }

  /** All fields but the last, which is "NULL". */
  function Fields(r: Record): seq<bytes> {
    SkFields(r.sk) + AllPkFields(r.pks) + AllNtildeFields(r.ntildes) + PrivFields(r.priv)
  }

  // ------------------------------------------------------------------ printing

  /** Fields, each followed by the separator. */
  function Terminated(fields: seq<bytes>): bytes {
    if fields == [] then [] else fields[0] + SEP + Terminated(fields[1..])
  }

  function Print(r: Record): bytes {
    Terminated(Fields(r)) + NULL
  }

  lemma {:induction false} TerminatedAppend(a: seq<bytes>, b: seq<bytes>)
    ensures Terminated(a + b) == Terminated(a) + Terminated(b)
  {
    if a == [] {
      assert a + b == b;
    } else {
      TerminatedAppend(a[1..], b);
      assert (a + b)[1..] == a[1..] + b;
      var head, ta, tb := a[0] + SEP, Terminated(a[1..]), Terminated(b);
      assert head + (ta + tb) == head + ta + tb;
    }
  }

  lemma {:induction false} TerminatedIsJoin(fields: seq<bytes>, last: bytes)
    ensures Terminated(fields) + last == Join(fields + [last])
  {
    if fields != [] {
      TerminatedIsJoin(fields[1..], last);
      assert (fields + [last])[1..] == fields[1..] + [last];
    }
  }

  lemma Terminated1(f: bytes)
    ensures Terminated([f]) == f + SEP
  {
  }

  /** Append one field and the separator. */
  method AppendField(ss: bytes, ghost done: seq<bytes>, f: bytes) returns (r: bytes)
    requires ss == Terminated(done)
    ensures r == Terminated(done + [f])
  {
    TerminatedAppend(done, [f]);
    Terminated1(f);
    r := ss + f + SEP;
  }

  method AppendPk(ss: bytes, ghost done: seq<bytes>, p: PaillierPk) returns (r: bytes)
    requires ss == Terminated(done)
    ensures r == Terminated(done + PkFields(p))
  {
    r := AppendField(ss, done, p.length);
    r := AppendField(r, done + [p.length], ToBytes(p.n));
    r := AppendField(r, done + [p.length] + [ToBytes(p.n)], ToBytes(p.g));
    r := AppendField(r, done + [p.length] + [ToBytes(p.n)] + [ToBytes(p.g)], ToBytes(p.n2));
    assert done + PkFields(p) == done + [p.length] + [ToBytes(p.n)] + [ToBytes(p.g)] + [ToBytes(p.n2)];
  }

  method AppendNtilde(ss: bytes, ghost done: seq<bytes>, t: Ntilde) returns (r: bytes)
    requires ss == Terminated(done)
    ensures r == Terminated(done + NtildeFields(t))
  {
    r := AppendField(ss, done, ToBytes(t.ntilde));
    r := AppendField(r, done + [ToBytes(t.ntilde)], ToBytes(t.h1));
    r := AppendField(r, done + [ToBytes(t.ntilde)] + [ToBytes(t.h1)], ToBytes(t.h2));
    assert done + NtildeFields(t) == done + [ToBytes(t.ntilde)] + [ToBytes(t.h1)] + [ToBytes(t.h2)];
  }

  /** The save string as `processKeyGen` accumulates it. */
  method PrintSave(r: Record) returns (ss: bytes)
    ensures ss == Print(r)
  {
    hide Terminated, ToBytes;
    ghost var done := SkFields(r.sk);
    ss := XXX + SEP + r.sk.length + SEP + ToBytes(r.sk.l) + SEP + ToBytes(r.sk.u) + SEP;
    FourFields(XXX, r.sk.length, ToBytes(r.sk.l), ToBytes(r.sk.u));
    var i := 0;
    assert r.pks[..0] == [];
    while i < |r.pks|
      invariant 0 <= i <= |r.pks|
      invariant done == SkFields(r.sk) + AllPkFields(r.pks[..i])
      invariant ss == Terminated(done)
    {
      assert r.pks[..i + 1][..i] == r.pks[..i];
      ss := AppendPk(ss, done, r.pks[i]);
      done := done + PkFields(r.pks[i]);
      i := i + 1;
    }
    assert r.pks[..i] == r.pks;
    ghost var withPks := done;
    i := 0;
    assert r.ntildes[..0] == [];
    while i < |r.ntildes|
      invariant 0 <= i <= |r.ntildes|
      invariant done == withPks + AllNtildeFields(r.ntildes[..i])
      invariant ss == Terminated(done)
    {
      assert r.ntildes[..i + 1][..i] == r.ntildes[..i];
      ss := AppendNtilde(ss, done, r.ntildes[i]);
      done := done + NtildeFields(r.ntildes[i]);
      i := i + 1;
    }
    assert r.ntildes[..i] == r.ntildes;
    var priv := ToBytes(r.priv.alpha) + SEP + ToBytes(r.priv.beta) + SEP + ToBytes(r.priv.q1) + SEP
                + ToBytes(r.priv.q2) + SEP;
    FourFields(ToBytes(r.priv.alpha), ToBytes(r.priv.beta), ToBytes(r.priv.q1), ToBytes(r.priv.q2));
    TerminatedAppend(done, PrivFields(r.priv));
    ss := ss + priv + NULL;
  }

  lemma FourFields(a: bytes, b: bytes, c: bytes, d: bytes)
    ensures Terminated([a, b, c, d]) == a + SEP + b + SEP + c + SEP + d + SEP
  {
    var fs := [a, b, c, d];
    assert fs[1..] == [b, c, d] && [b, c, d][1..] == [c, d] && [c, d][1..] == [d] && [d][1..] == [];
    Terminated1(d);
    assert Terminated([c, d]) == c + SEP + (d + SEP);
    assert Terminated([b, c, d]) == b + SEP + (c + SEP + (d + SEP));
  }

  // ------------------------------------------------------------------- reading

  /** The result of reading back: a value, nothing, or an index out of range. */
  datatype Read<T> = Value(value: T) | Nil | Panic

  function PkAt(mm: seq<bytes>, s: nat): PaillierPk
    requires s + 4 <= |mm|
  {
    PaillierPk(mm[s], FromBytes(mm[s + 1]), FromBytes(mm[s + 2]), FromBytes(mm[s + 3]))
  }

  /** `GetPaillierPkByIndexFromSaveData`. */
  function GetPaillierPk(save: bytes, index: int): Read<PaillierPk> {
    if save == [] || index < 0 then Nil
    else
      var mm := Split(save);
      if |mm| < 4 + 4 * index + 4 then Nil else Value(PkAt(mm, 4 + 4 * index))
  }

  /** `GetCurNodePaillierSkFromSaveData`, given the index of the current node. */
  function GetPaillierSk(save: bytes, curIndex: int): Read<PaillierSk> {
    if GetPaillierPk(save, curIndex).Nil? then Nil
    else
      var mm := Split(save);
      if |mm| < 4 then Nil else Value(PaillierSk(mm[1], FromBytes(mm[2]), FromBytes(mm[3])))
  }

  /** `GetNtildeByIndexFromSaveData`. */
  function GetNtilde(save: bytes, index: int, nodeCnt: int): Read<Ntilde> {
    if save == [] || index < 0 || nodeCnt < 0 then Nil
    else
      var mm := Split(save);
      var s := 4 + 4 * nodeCnt + 3 * index;
      if |mm| < s + 3 then Nil else Value(Ntilde(FromBytes(mm[s]), FromBytes(mm[s + 1]), FromBytes(mm[s + 2])))
  }

  /** `GetNtildePrivDataByIndexFromSaveData`: four fields are read where three are checked for. */
  function GetNtildePriv(save: bytes, nodeCnt: int): Read<NtildePriv> {
    if save == [] || nodeCnt < 0 then Nil
    else
      var mm := Split(save);
      var s := 4 + 4 * nodeCnt + 3 * nodeCnt;
      if |mm| < s + 3 then Nil
      else if |mm| == s + 3 then Panic
      else Value(NtildePriv(FromBytes(mm[s]), FromBytes(mm[s + 1]), FromBytes(mm[s + 2]), FromBytes(mm[s + 3])))
  }

  /** On any string the readers give something exactly if it has the pieces they look for: four per public key
      behind the first four, three per triple behind all public keys, and for the private values three of
      the four that are read. */
  lemma ReadersNeedPieces(save: bytes, index: int, nodeCnt: int)
    ensures var k := |Split(save)|;
            && (GetPaillierPk(save, index).Value? <==> |save| > 0 && index >= 0 && k >= 8 + 4 * index)
            && (GetPaillierSk(save, index).Value? <==> |save| > 0 && index >= 0 && k >= 8 + 4 * index)
            && (GetNtilde(save, index, nodeCnt).Value? <==>
                 |save| > 0 && index >= 0 && nodeCnt >= 0 && k >= 7 + 4 * nodeCnt + 3 * index)
            && (GetNtildePriv(save, nodeCnt).Value? <==> |save| > 0 && nodeCnt >= 0 && k >= 8 + 7 * nodeCnt)
            && (GetNtildePriv(save, nodeCnt).Panic? <==> |save| > 0 && nodeCnt >= 0 && k == 7 + 7 * nodeCnt)
            && !GetPaillierPk(save, index).Panic? && !GetPaillierSk(save, index).Panic?
            && !GetNtilde(save, index, nodeCnt).Panic?
  {
    hide Split, FromBytes;
  }

  // ----------------------------------------------------------------- round trip

  lemma SliceOfAppend(a: seq<bytes>, b: seq<bytes>, i: nat, j: nat)
    requires i <= j <= |a|
    ensures (a + b)[i..j] == a[i..j]
    ensures (a + b)[|a|..] == b
  {
  }

  lemma {:induction false} PkFieldsAt(pks: seq<PaillierPk>, i: nat)
    requires i < |pks|
    ensures AllPkFields(pks)[4 * i..4 * i + 4] == PkFields(pks[i])
  {
    hide PkFields;
    var before, p := pks[..|pks| - 1], pks[|pks| - 1];
    if i < |before| {
      PkFieldsAt(before, i);
      SliceOfAppend(AllPkFields(before), PkFields(p), 4 * i, 4 * i + 4);
    } else {
      SliceOfAppend(AllPkFields(before), PkFields(p), 0, 0);
    }
  }

  lemma {:induction false} NtildeFieldsAt(ts: seq<Ntilde>, i: nat)
    requires i < |ts|
    ensures AllNtildeFields(ts)[3 * i..3 * i + 3] == NtildeFields(ts[i])
  {
    hide NtildeFields;
    var before, t := ts[..|ts| - 1], ts[|ts| - 1];
    if i < |before| {
      NtildeFieldsAt(before, i);
      SliceOfAppend(AllNtildeFields(before), NtildeFields(t), 3 * i, 3 * i + 3);
    } else {
      SliceOfAppend(AllNtildeFields(before), NtildeFields(t), 0, 0);
    }
  }

  /** Where the values stand among the fields. */
  lemma FieldPositions(r: Record, i: nat)
    requires |r.ntildes| == |r.pks|
    ensures var fs, n := Fields(r), |r.pks|;
            && |fs| == 4 + 7 * n + 4
            && fs[..4] == SkFields(r.sk)
            && (i < n ==> fs[4 + 4 * i..4 + 4 * i + 4] == PkFields(r.pks[i]))
            && (i < n ==> fs[4 + 4 * n + 3 * i..4 + 4 * n + 3 * i + 3] == NtildeFields(r.ntildes[i]))
            && fs[4 + 7 * n..] == PrivFields(r.priv)
  {
    hide PkFields, NtildeFields, AllPkFields, AllNtildeFields;
    var a, b, c, d := SkFields(r.sk), AllPkFields(r.pks), AllNtildeFields(r.ntildes), PrivFields(r.priv);
    var fs, n := Fields(r), |r.pks|;
    assert fs == a + b + c + d;
    assert fs[4..4 + 4 * n] == b;
    assert fs[4 + 4 * n..4 + 7 * n] == c;
    if i < n {
      PkFieldsAt(r.pks, i);
      assert fs[4 + 4 * i..4 + 4 * i + 4] == b[4 * i..4 * i + 4];
      NtildeFieldsAt(r.ntildes, i);
      assert fs[4 + 4 * n + 3 * i..4 + 4 * n + 3 * i + 3] == c[3 * i..3 * i + 3];
    }
  }

  /** The fields of the save string one by one: XXX, the secret key with its length, the public keys, the Ntilde
      triples, the private values. */
  lemma FieldTexts(r: Record, i: nat)
    requires |r.ntildes| == |r.pks|
    ensures var fs, n := Fields(r), |r.pks|;
            && |fs| == 8 + 7 * n
            && fs[0] == [0x58, 0x58, 0x58] && fs[1] == r.sk.length
            && fs[2] == ToBytes(r.sk.l) && fs[3] == ToBytes(r.sk.u)
            && (i < n ==>
                 && fs[4 + 4 * i] == r.pks[i].length && fs[5 + 4 * i] == ToBytes(r.pks[i].n)
                 && fs[6 + 4 * i] == ToBytes(r.pks[i].g) && fs[7 + 4 * i] == ToBytes(r.pks[i].n2)
                 && fs[4 + 4 * n + 3 * i] == ToBytes(r.ntildes[i].ntilde)
                 && fs[5 + 4 * n + 3 * i] == ToBytes(r.ntildes[i].h1)
                 && fs[6 + 4 * n + 3 * i] == ToBytes(r.ntildes[i].h2))
            && fs[4 + 7 * n] == ToBytes(r.priv.alpha) && fs[5 + 7 * n] == ToBytes(r.priv.beta)
            && fs[6 + 7 * n] == ToBytes(r.priv.q1) && fs[7 + 7 * n] == ToBytes(r.priv.q2)
  {
    hide ToBytes, Fields, AllPkFields, AllNtildeFields;
    FieldPositions(r, i);
    var fs, n := Fields(r), |r.pks|;
    var sk, priv := fs[..4], fs[4 + 7 * n..];
    assert fs[0] == sk[0] && fs[1] == sk[1] && fs[2] == sk[2] && fs[3] == sk[3];
    assert fs[4 + 7 * n] == priv[0] && fs[5 + 7 * n] == priv[1] && fs[6 + 7 * n] == priv[2] && fs[7 + 7 * n] == priv[3];
    if i < n {
      var p, t := fs[4 + 4 * i..4 + 4 * i + 4], fs[4 + 4 * n + 3 * i..4 + 4 * n + 3 * i + 3];
      assert fs[4 + 4 * i] == p[0] && fs[5 + 4 * i] == p[1] && fs[6 + 4 * i] == p[2] && fs[7 + 4 * i] == p[3];
      assert fs[4 + 4 * n + 3 * i] == t[0] && fs[5 + 4 * n + 3 * i] == t[1] && fs[6 + 4 * n + 3 * i] == t[2];
    }
  }

  /** The printed string is the fields, each followed by "dcrmsepsave", and "NULL". */
  lemma PrintedIsJoin(r: Record)
    ensures Print(r) == Join(Fields(r) + [[0x4e, 0x55, 0x4c, 0x4c]])
  {
    TerminatedIsJoin(Fields(r), NULL);
  }

  /** None of the printed values contains the separator. */
  ghost predicate Printable(r: Record) {
    Free(Fields(r))
  }

  lemma NullIsFree()
    ensures !Contains(NULL)
  {
  }

  lemma PrintedFields(r: Record)
    ensures Split(Print(r)) == Fields(r) + [NULL] <==> Printable(r)
    ensures Print(r) != []
  {
    TerminatedIsJoin(Fields(r), NULL);
    SplitJoinIff(Fields(r) + [NULL]);
    NullIsFree();
    var all := Fields(r) + [NULL];
    if Printable(r) {
      assert Free(all);
    }
    if Free(all) {
      forall k | 0 <= k < |Fields(r)|
        ensures !Contains(Fields(r)[k])
      {
        assert all[k] == Fields(r)[k];
      }
    }
  }

  /** Everything that was saved for `n` nodes is read back. */
  ghost predicate Recovered(r: Record, save: bytes)
    requires |r.ntildes| == |r.pks|
  {
    && (forall i :: 0 <= i < |r.pks| ==> GetPaillierPk(save, i) == Value(r.pks[i]))
    && (forall i :: 0 <= i < |r.pks| ==> GetPaillierSk(save, i) == Value(r.sk))
    && (forall i :: 0 <= i < |r.pks| ==> GetNtilde(save, i, |r.pks|) == Value(r.ntildes[i]))
    && GetNtildePriv(save, |r.pks|) == Value(r.priv)
  }

  lemma ReadNode(r: Record, save: bytes, i: nat)
    requires |r.ntildes| == |r.pks| && save != [] && Split(save) == Fields(r) + [NULL] && i < |r.pks|
    ensures GetPaillierPk(save, i) == Value(r.pks[i])
    ensures GetPaillierSk(save, i) == Value(r.sk)
    ensures GetNtilde(save, i, |r.pks|) == Value(r.ntildes[i])
  {
    hide Split, ToBytes, FromBytes, Fields, AllPkFields, AllNtildeFields;
    FieldPositions(r, i);
    var fs, n, mm := Fields(r), |r.pks|, Split(save);
    FromToBytes(r.sk.l);
    FromToBytes(r.sk.u);
    assert fs[..4][1] == mm[1] && fs[..4][2] == mm[2] && fs[..4][3] == mm[3];
    var p := fs[4 + 4 * i..4 + 4 * i + 4];
    assert p[0] == mm[4 + 4 * i] && p[1] == mm[4 + 4 * i + 1] && p[2] == mm[4 + 4 * i + 2] && p[3] == mm[4 + 4 * i + 3];
    FromToBytes(r.pks[i].n);
    FromToBytes(r.pks[i].g);
    FromToBytes(r.pks[i].n2);
    var s := 4 + 4 * n + 3 * i;
    var t := fs[s..s + 3];
    assert t[0] == fs[s] && t[1] == fs[s + 1] && t[2] == fs[s + 2];
    assert mm[s] == fs[s] && mm[s + 1] == fs[s + 1] && mm[s + 2] == fs[s + 2];
    FromToBytes(r.ntildes[i].ntilde);
    FromToBytes(r.ntildes[i].h1);
    FromToBytes(r.ntildes[i].h2);
  }

  lemma ReadPriv(r: Record, save: bytes)
    requires |r.ntildes| == |r.pks| && save != [] && Split(save) == Fields(r) + [NULL]
    ensures GetNtildePriv(save, |r.pks|) == Value(r.priv)
  {
    hide Split, ToBytes, FromBytes, Fields, AllPkFields, AllNtildeFields;
    FieldPositions(r, 0);
    var fs, mm, s := Fields(r), Split(save), 4 + 7 * |r.pks|;
    var p := fs[s..];
    assert p[0] == mm[s] && p[1] == mm[s + 1] && p[2] == mm[s + 2] && p[3] == mm[s + 3];
    FromToBytes(r.priv.alpha);
    FromToBytes(r.priv.beta);
    FromToBytes(r.priv.q1);
    FromToBytes(r.priv.q2);
  }

  /** For every number of nodes and every record without separators in its fields, printing and
      reading back by index recovers every value. */
  lemma SaveRoundTrip(r: Record)
    requires |r.ntildes| == |r.pks| && Printable(r)
    ensures Recovered(r, Print(r))
  {
    hide Print, Fields, Split, GetPaillierPk, GetPaillierSk, GetNtilde, GetNtildePriv;
    PrintedFields(r);
    ReadPriv(r, Print(r));
    forall i | 0 <= i < |r.pks|
      ensures GetPaillierPk(Print(r), i) == Value(r.pks[i])
      ensures GetPaillierSk(Print(r), i) == Value(r.sk)
      ensures GetNtilde(Print(r), i, |r.pks|) == Value(r.ntildes[i])
    {
      ReadNode(r, Print(r), i);
    }
  }

  // ------------------------------------------------- what a separator in a field does

  /** A string that starts with a field containing a separator is cut inside that field. */
  lemma CutInside(f: bytes, rest: bytes)
    requires Contains(f)
    ensures var mm := Split(f + rest); |mm[0]| < |f| && mm[0] == f[..|mm[0]|]
  {
    var i :| OccursAt(f, i);
    OccursInPrefix(f, rest, i);
    var k := Index(f + rest, 0);
    assert 0 <= k <= i;
    assert (f + rest)[..k] == f[..k];
  }

  lemma SplitFirst(f: bytes, rest: bytes)
    requires !Contains(f)
    ensures Split(f + SEP + rest) == [f] + Split(rest)
  {
    var s := f + SEP + rest;
    FirstSeparator(f, rest);
    assert s[..|f|] == f && s[|f| + |SEP|..] == rest;
  }

  // --------------------------------------------------------- reading out of range

  /** A separator behind a field cuts there, whatever the field contains. */
  lemma {:induction false} SplitAppend(f: bytes, rest: bytes)
    ensures Split(f + SEP + rest) == Split(f) + Split(rest)
    decreases |f|
  {
    var s, k := f + SEP + rest, Index(f, 0);
    if k == -1 {
      SplitFirst(f, rest);
    } else {
      var f' := f[k + |SEP|..];
      FirstInField(f, rest);
      assert s[..k] == f[..k] && s[k + |SEP|..] == f' + SEP + rest;
      SplitAppend(f', rest);
    }
  }

  lemma FirstInField(f: bytes, rest: bytes)
    requires Index(f, 0) != -1
    ensures Index(f + SEP + rest, 0) == Index(f, 0)
  {
    var k := Index(f, 0);
    assert f + SEP + rest == f + (SEP + rest);
    forall i | 0 <= i <= k
      ensures OccursAt(f + SEP + rest, i) <==> OccursAt(f, i)
    {
      OccursInPrefix(f, SEP + rest, i);
    }
  }

  /** How many separators the fields contain, as a split counts them. */
  function Inside(fields: seq<bytes>): nat {
    if fields == [] then 0 else |Split(fields[0])| - 1 + Inside(fields[1..])
  }

  lemma {:induction false} SplitTerminated(fields: seq<bytes>, last: bytes)
    ensures |Split(Terminated(fields) + last)| == |fields| + Inside(fields) + |Split(last)|
  {
    hide Split;
    if fields == [] {
      assert Terminated(fields) + last == last;
    } else {
      var rest := Terminated(fields[1..]) + last;
      SplitTerminated(fields[1..], last);
      SplitAppend(fields[0], rest);
      assert Terminated(fields) + last == fields[0] + SEP + rest;
    }
  }

  lemma {:induction false} InsideNone(fields: seq<bytes>)
    requires Free(fields)
    ensures Inside(fields) == 0
  {
    if fields != [] {
      assert !Contains(fields[0]);
      InsideNone(fields[1..]);
    }
  }

  /** The reader of the private values checks for one field less than it reads. Called with the
      node count `nodeCnt` on a printed record of n nodes it runs out of range exactly if the
      fields contain 7 * (nodeCnt - n) - 2 separators. */
  lemma PanicsIff(r: Record, nodeCnt: int)
    requires |r.ntildes| == |r.pks|
    ensures GetNtildePriv(Print(r), nodeCnt).Panic? <==> Inside(Fields(r)) + 2 == 7 * (nodeCnt - |r.pks|)
  {
    hide Fields, Split, Inside;
    PrintedFields(r);
    FieldPositions(r, 0);
    SplitTerminated(Fields(r), NULL);
    assert |Split(NULL)| == 1 by {
      NullIsFree();
      SplitJoin([NULL]);
    }
  }

  /** Called with the node count of the record it never runs out of range, and without separators
      in the fields it does not for any node count. */
  lemma PrintedNeverPanics(r: Record, nodeCnt: int)
    requires |r.ntildes| == |r.pks|
    ensures nodeCnt <= |r.pks| || Printable(r) ==> !GetNtildePriv(Print(r), nodeCnt).Panic?
  {
    hide Fields, GetNtildePriv, Print;
    PanicsIff(r, nodeCnt);
    if Printable(r) {
      InsideNone(Fields(r));
    }
  }

  /** The first field with a separator comes back as a proper prefix of itself. */
  lemma {:induction false} FirstBadField(fields: seq<bytes>, k: nat)
    requires k < |fields| && Contains(fields[k]) && Free(fields[..k])
    ensures var mm := Split(Join(fields));
            |mm| > k && |mm[k]| < |fields[k]| && mm[k] == fields[k][..|mm[k]|]
  {
    hide Split, Contains;
    var f, tail := fields[0], fields[1..];
    if k == 0 {
      CutInside(f, if tail == [] then [] else SEP + Join(tail));
      assert Join(fields) == f + if tail == [] then [] else SEP + Join(tail);
    } else {
      assert fields[..k][0] == f;
      assert tail[..k - 1] == fields[..k][1..];
      FirstBadField(tail, k - 1);
      SplitFirst(f, Join(tail));
    }
  }

  /** The text of a field, or the number it stands for, is read back. */
  predicate SameValue(got: bytes, field: bytes) {
    got == field || (FromBytes(got) == FromBytes(field) && (field != [] ==> field[0] != 0))
  }

  lemma PrefixIsNotSame(field: bytes, n: nat)
    requires n < |field|
    ensures !SameValue(field[..n], field)
  {
    if field[0] != 0 {
      ShorterIsSmaller(field[..n], field);
    }
  }

  lemma MinimalSame(got: bytes, v: nat)
    requires FromBytes(got) == v
    ensures SameValue(got, ToBytes(v))
  {
    FromToBytes(v);
  }

  lemma RecoveredSk(r: Record, save: bytes, k: nat)
    requires |r.ntildes| == |r.pks| > 0 && Recovered(r, save) && 0 < k < 4
    ensures |Fields(r)| == 8 + 7 * |r.pks|
    ensures k < |Split(save)| && SameValue(Split(save)[k], Fields(r)[k])
  {
    hide Split, ToBytes, FromBytes, SameValue, Fields, AllPkFields, AllNtildeFields;
    FieldPositions(r, 0);
    assert GetPaillierSk(save, 0) == Value(r.sk);
    assert Fields(r)[..4][k] == Fields(r)[k];
    SameSk(r.sk, Split(save), k);
  }

  lemma RecoveredPk(r: Record, save: bytes, i: nat, j: nat)
    requires |r.ntildes| == |r.pks| && Recovered(r, save) && i < |r.pks| && j < 4
    ensures |Fields(r)| == 8 + 7 * |r.pks|
    ensures var k := 4 + 4 * i + j; k < |Split(save)| && SameValue(Split(save)[k], Fields(r)[k])
  {
    hide Split, ToBytes, FromBytes, SameValue, Fields, AllPkFields, AllNtildeFields, PkFields;
    FieldPositions(r, i);
    var s := 4 + 4 * i;
    assert Fields(r)[s..s + 4][j] == Fields(r)[s + j];
    assert GetPaillierPk(save, i) == Value(r.pks[i]);
    SamePk(r.pks[i], Split(save), s, j);
  }

  lemma RecoveredNtilde(r: Record, save: bytes, i: nat, j: nat)
    requires |r.ntildes| == |r.pks| && Recovered(r, save) && i < |r.pks| && j < 3
    ensures |Fields(r)| == 8 + 7 * |r.pks|
    ensures var k := 4 + 4 * |r.pks| + 3 * i + j; k < |Split(save)| && SameValue(Split(save)[k], Fields(r)[k])
  {
    hide Split, ToBytes, FromBytes, SameValue, Fields, AllPkFields, AllNtildeFields, NtildeFields;
    FieldPositions(r, i);
    var s := 4 + 4 * |r.pks| + 3 * i;
    assert Fields(r)[s..s + 3][j] == Fields(r)[s + j];
    assert GetNtilde(save, i, |r.pks|) == Value(r.ntildes[i]);
    SameNtilde(r.ntildes[i], Split(save), s, j);
  }

  lemma RecoveredPriv(r: Record, save: bytes, j: nat)
    requires |r.ntildes| == |r.pks| && Recovered(r, save) && j < 4
    ensures |Fields(r)| == 8 + 7 * |r.pks|
    ensures var k := 4 + 7 * |r.pks| + j; k < |Split(save)| && SameValue(Split(save)[k], Fields(r)[k])
  {
    hide Split, ToBytes, FromBytes, SameValue, Fields, AllPkFields, AllNtildeFields, PrivFields;
    FieldPositions(r, 0);
    var s := 4 + 7 * |r.pks|;
    assert Fields(r)[s..][j] == Fields(r)[s + j];
    SamePriv(r.priv, Split(save), s, j);
  }

  lemma ByFours(x: nat, n: nat) returns (i: nat, j: nat)
    requires x < 4 * n
    ensures x == 4 * i + j && i < n && j < 4
  {
    i, j := x / 4, x % 4;
  }

  lemma ByThrees(x: nat, n: nat) returns (i: nat, j: nat)
    requires x < 3 * n
    ensures x == 3 * i + j && i < n && j < 3
  {
    i, j := x / 3, x % 3;
  }

  /** When everything is recovered, every field between "XXX" and "NULL" was read as itself. */
  lemma RecoveredFields(r: Record, save: bytes, k: nat)
    requires |r.ntildes| == |r.pks| > 0 && Recovered(r, save) && 0 < k < |Fields(r)|
    ensures k < |Split(save)| && SameValue(Split(save)[k], Fields(r)[k])
  {
    hide Split, SameValue, Fields, Recovered;
    var n := |r.pks|;
    RecoveredPriv(r, save, 0);
    if k < 4 {
      RecoveredSk(r, save, k);
    } else if k < 4 + 4 * n {
      var i, j := ByFours(k - 4, n);
      RecoveredPk(r, save, i, j);
    } else if k < 4 + 7 * n {
      var i, j := ByThrees(k - 4 - 4 * n, n);
      RecoveredNtilde(r, save, i, j);
    } else {
      RecoveredPriv(r, save, k - (4 + 7 * n));
    }
  }

  lemma SameField(got: bytes, text: bytes)
    requires got == text
    ensures SameValue(got, text)
  {
  }

  lemma SameSk(sk: PaillierSk, mm: seq<bytes>, j: nat)
    requires |mm| >= 4 && 0 < j < 4 && sk == PaillierSk(mm[1], FromBytes(mm[2]), FromBytes(mm[3]))
    ensures SameValue(mm[j], SkFields(sk)[j])
  {
    hide ToBytes, FromBytes, SameValue;
    if j == 1 { SameField(mm[1], sk.length); } else { MinimalSame(mm[j], if j == 2 then sk.l else sk.u); }
  }

  lemma SamePk(p: PaillierPk, mm: seq<bytes>, s: nat, j: nat)
    requires |mm| >= s + 4 && j < 4 && p == PkAt(mm, s)
    ensures SameValue(mm[s + j], PkFields(p)[j])
  {
    hide ToBytes, FromBytes, SameValue;
    if j == 0 {
      SameField(mm[s], p.length);
    } else {
      MinimalSame(mm[s + j], if j == 1 then p.n else if j == 2 then p.g else p.n2);
    }
  }

  lemma SameNtilde(t: Ntilde, mm: seq<bytes>, s: nat, j: nat)
    requires |mm| >= s + 3 && j < 3 && t == Ntilde(FromBytes(mm[s]), FromBytes(mm[s + 1]), FromBytes(mm[s + 2]))
    ensures SameValue(mm[s + j], NtildeFields(t)[j])
  {
    hide ToBytes, FromBytes, SameValue;
    MinimalSame(mm[s + j], if j == 0 then t.ntilde else if j == 1 then t.h1 else t.h2);
  }

  lemma SamePriv(p: NtildePriv, mm: seq<bytes>, s: nat, j: nat)
    requires |mm| >= s + 4 && j < 4
    requires p == NtildePriv(FromBytes(mm[s]), FromBytes(mm[s + 1]), FromBytes(mm[s + 2]), FromBytes(mm[s + 3]))
    ensures SameValue(mm[s + j], PrivFields(p)[j])
  {
    hide ToBytes, FromBytes, SameValue;
    MinimalSame(mm[s + j], if j == 0 then p.alpha else if j == 1 then p.beta else if j == 2 then p.q1 else p.q2);
  }

  /** The values of a group with at least one node are all read back if and only if no printed
      field contains the separator. */
  lemma RecoveredIff(r: Record)
    requires |r.ntildes| == |r.pks| > 0
    ensures Recovered(r, Print(r)) <==> Printable(r)
  {
    hide Recovered, Print, Fields, Contains;
    if Printable(r) {
      SaveRoundTrip(r);
    } else {
      var fs := Fields(r);
      var k := LeastBad(fs);
      XxxIsFree(r);
      SeparatorIsNotRecovered(r, k);
    }
  }

  lemma XxxIsFree(r: Record)
    ensures |Fields(r)| > 0 && !Contains(Fields(r)[0])
  {
    assert Fields(r)[0] == XXX;
  }

  lemma SeparatorIsNotRecovered(r: Record, k: nat)
    requires |r.ntildes| == |r.pks| > 0 && 0 < k < |Fields(r)| && Contains(Fields(r)[k]) && Free(Fields(r)[..k])
    ensures !Recovered(r, Print(r))
  {
    hide Recovered, Fields, Contains, Split, SameValue;
    var fs := Fields(r);
    var all := fs + [NULL];
    assert all[..k] == fs[..k];
    TerminatedIsJoin(fs, NULL);
    FirstBadField(all, k);
    var got := Split(Print(r))[k];
    PrefixIsNotSame(fs[k], |got|);
    if Recovered(r, Print(r)) {
      RecoveredFields(r, Print(r), k);
    }
  }

  lemma LeastBad(fields: seq<bytes>) returns (k: nat)
    requires !Free(fields)
    ensures k < |fields| && Contains(fields[k]) && Free(fields[..k])
  {
    hide Contains;
    var bad :| 0 <= bad < |fields| && Contains(fields[bad]);
    k := 0;
    while !Contains(fields[k])
      invariant k <= bad && Free(fields[..k])
      decreases bad - k
    {
      assert fields[..k + 1] == fields[..k] + [fields[k]];
      k := k + 1;
    }
  }

  // -------------------------------------------------- records that are not read back

  /** A record of one node whose only value with a chosen text is the secret value `l`. */
  function Sample(l: bytes): Record {
    Record(PaillierSk([], FromBytes(l), 0), [PaillierPk([], 0, 0, 0)], [Ntilde(0, 0, 0)], NtildePriv(0, 0, 0, 0))
  }

  function Empties(n: nat): seq<bytes> { seq(n, _ => []) }

  lemma SampleFields(l: bytes)
    requires l != [] && l[0] != 0
    ensures Fields(Sample(l)) == [XXX, [], l] + Empties(12)
  {
    hide FromBytes;
    var r := Sample(l);
    ToFromBytes(l);
    assert ToBytes(0) == [];
    assert r.pks[..0] == [] && r.ntildes[..0] == [];
    assert AllPkFields(r.pks) == [[], [], [], []];
    assert AllNtildeFields(r.ntildes) == [[], [], []];
  }

  lemma SplitEmpty()
    ensures Split([]) == [[]]
  {
  }

  lemma {:induction false} InsideEmpty(n: nat)
    ensures Inside(Empties(n)) == 0
  {
    if n > 0 {
      SplitEmpty();
      InsideEmpty(n - 1);
      assert Empties(n)[1..] == Empties(n - 1);
    }
  }

  /** The value whose bytes are the separator itself is not read back. */
  lemma SeparatorValueIsLost()
    ensures !Recovered(Sample(SEP), Print(Sample(SEP)))
  {
    hide Recovered, Print, Fields;
    SampleFields(SEP);
    RecoveredIff(Sample(SEP));
    assert OccursAt(SEP, 0);
    assert Fields(Sample(SEP))[2] == SEP;
  }

  function Repeat(n: nat): bytes { if n == 0 then [] else SEP + Repeat(n - 1) }

  lemma {:induction false} SplitRepeat(n: nat)
    ensures |Split(Repeat(n))| == n + 1
  {
    SplitEmpty();
    if n > 0 {
      SplitRepeat(n - 1);
      SplitAppend([], Repeat(n - 1));
      assert [] + SEP + Repeat(n - 1) == Repeat(n);
    }
  }

  /** Five separators in a value of one node: asked for the values of two nodes, the reader runs out
      of range. */
  lemma FiveSeparatorsPanic()
    ensures GetNtildePriv(Print(Sample(Repeat(5))), 2).Panic?
  {
    hide GetNtildePriv, Print, Fields, Split;
    var l := Repeat(5);
    assert l == SEP + Repeat(4);
    SampleFields(l);
    SplitRepeat(5);
    PanicsIff(Sample(l), 2);
    ThreeInside(XXX, [], l, Empties(12));
    InsideEmpty(12);
    SplitEmpty();
    XxxIsFree(Sample(l));
    SplitJoin([XXX]);
  }

  lemma InsideCons(a: bytes, rest: seq<bytes>)
    ensures Inside([a] + rest) == |Split(a)| - 1 + Inside(rest)
  {
    assert ([a] + rest)[1..] == rest;
  }

  lemma ThreeInside(a: bytes, b: bytes, c: bytes, rest: seq<bytes>)
    ensures Inside([a, b, c] + rest) == |Split(a)| + |Split(b)| + |Split(c)| - 3 + Inside(rest)
  {
    hide Split, Inside;
    InsideCons(c, rest);
    InsideCons(b, [c] + rest);
    InsideCons(a, [b] + ([c] + rest));
    assert [a, b, c] + rest == [a] + ([b] + ([c] + rest));
  }
}
