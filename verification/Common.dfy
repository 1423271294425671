/** Small vocabulary shared by every component. */
module Common {

  datatype Option<+T> = None | Some(value: T)

  /** A node identity.  The source uses a 64-byte public key; only equality is used. */
  type NodeID = nat

  /** A network address.  Only membership in a whitelist is used. */
  type IP = nat

  /** A clock reading or a duration, in nanoseconds. */
  type Time = int

  const SECOND: Time := 1_000_000_000

  datatype Node = Node(id: NodeID, ip: IP)

  /** The bit set `connFlag`. */
  datatype ConnFlags = ConnFlags(dynDialed: bool, staticDialed: bool, inbound: bool, trusted: bool)

  const DYN_DIALED := ConnFlags(true, false, false, false)
  const STATIC_DIALED := ConnFlags(false, true, false, false)
  const INBOUND := ConnFlags(false, false, true, false)

  /** Integer division as Go does it: truncation toward zero. */
  function GoDiv(a: int, b: int): (q: int)
    requires b != 0
  {
    if (a >= 0) == (b > 0) then Abs(a) / Abs(b) else -(Abs(a) / Abs(b))
  }

  function Abs(a: int): nat { if a < 0 then -a else a }

  /** The first position of an element, or the length if there is none. */
  function FirstIndex<T(==)>(s: seq<T>, x: T): (k: nat)
    ensures k <= |s|
    ensures k < |s| ==> s[k] == x
    ensures forall j :: 0 <= j < k ==> s[j] != x
  {
    if s == [] || s[0] == x then 0 else 1 + FirstIndex(s[1..], x)
  }

  /** Every element is below the later ones. */
  predicate Ascending<T>(less: (T, T) -> bool, s: seq<T>) {
    forall i, j :: 0 <= i < j < |s| ==> less(s[i], s[j])
  }

  lemma HasFirst<T>(s: seq<T>)
    requires s != []
    ensures s[0] in s
  {
  }

  lemma TailElements<T>(less: (T, T) -> bool, s: seq<T>, x: T)
    requires Ascending(less, s) && s != [] && !less(s[0], s[0])
    ensures x in s[1..] <==> x in s && x != s[0]
  {
    assert s == [s[0]] + s[1..];
  }

  /** For an asymmetric order, a set has one ascending list. */
  lemma {:induction false} AscendingUnique<T(!new)>(less: (T, T) -> bool, a: seq<T>, b: seq<T>)
    requires forall x, y :: less(x, y) ==> !less(y, x)
    requires Ascending(less, a) && Ascending(less, b) && forall x :: x in a <==> x in b
    ensures a == b
    decreases |a|
  {
    if a == [] {
      if b != [] { HasFirst(b); }
    } else {
      HasFirst(a);
      if b != [] { HasFirst(b); }
      assert a[0] == b[0];
      forall x
        ensures x in a[1..] <==> x in b[1..]
      {
        TailElements(less, a, x);
        TailElements(less, b, x);
      }
      AscendingUnique(less, a[1..], b[1..]);
      assert a == [a[0]] + a[1..] && b == [b[0]] + b[1..];
    }
  }

  /** Products by name, so that proofs can leave them alone. */
  function Times(a: int, b: int): int { a * b }

  function Lower(ch: char): char {
    if 'A' <= ch <= 'Z' then ((ch as int) + 32) as char else ch
  }

  /** Case folding of ASCII text, as far as `strings.EqualFold` is used on it. */
  function Fold(s: string): (r: string)
    ensures |r| == |s|
  {
    seq(|s|, i requires 0 <= i < |s| => Lower(s[i]))
  }
}
