/**
  The operations on one column of a table (a pandas Series) that the
  dashboard's queries are built from: counting the cells equal to a value,
  the distinct values in order of first appearance, the smallest and largest
  value, and the size of each group of equal values.
 */
module Series {
  import opened Wrappers

  /** Number of cells of `s` equal to `x` (the length of the rows a mask `s == x` selects). */
  function Count<T(==)>(s: seq<T>, x: T): (n: nat)
    ensures n <= |s|
    ensures n == multiset(s)[x]
  {
    if s == [] then 0
    else
      var p := s[..|s| - 1];
      assert s == p + [s[|s| - 1]];
      Count(p, x) + (if s[|s| - 1] == x then 1 else 0)
  }

  /** For two different values, their counts add up to at most the length,
      and to exactly the length when and only when every cell holds one of them. */
  lemma {:induction false} CountPair<T>(s: seq<T>, a: T, b: T)
    requires a != b
    ensures Count(s, a) + Count(s, b) <= |s|
    ensures Count(s, a) + Count(s, b) == |s| <==> forall i :: 0 <= i < |s| ==> s[i] == a || s[i] == b
  {
    if s != [] {
      var p := s[..|s| - 1];
      CountPair(p, a, b);
      assert forall i :: 0 <= i < |p| ==> p[i] == s[i];
    }
  }

  /** A value that does not occur is counted 0 times. */
  lemma CountAbsent<T>(s: seq<T>, x: T)
    requires x !in s
    ensures Count(s, x) == 0
  {
    assert x !in multiset(s);
  }

  /** No value occurs twice. */
  ghost predicate NoDuplicates<T>(s: seq<T>)
  {
    forall i, j :: 0 <= i < j < |s| ==> s[i] != s[j]
  }

  /** Position of the first cell of `s` that holds `x`. */
  function FirstIndex<T(==)>(s: seq<T>, x: T): (k: nat)
    requires x in s
    ensures k < |s| && s[k] == x
    ensures forall j :: 0 <= j < k ==> s[j] != x
  {
    if s[0] == x then 0 else 1 + FirstIndex(s[1..], x)
  }

  /** The distinct values of `s` in order of first appearance (pandas `unique`). */
  function Distinct<T(==,!new)>(s: seq<T>): (u: seq<T>)
    ensures forall x :: x in u <==> x in s
    ensures NoDuplicates(u)
  {
    if s == [] then []
    else
      var u := Distinct(s[..|s| - 1]);
      var x := s[|s| - 1];
      if x in u then u else u + [x]
  }

  /** The first appearance of a value in a prefix is its first appearance in the whole. */
  lemma {:induction false} FirstIndexPrefix<T>(s: seq<T>, n: nat, x: T)
    requires n <= |s| && x in s[..n]
    ensures FirstIndex(s, x) == FirstIndex(s[..n], x)
  {
    var k, k' := FirstIndex(s, x), FirstIndex(s[..n], x);
    assert s[k'] == s[..n][k'] == x;
    assert k <= k';
    assert s[..n][k] == x;
  }

  /** `Distinct` lists the values in increasing order of their first appearance in `s`. */
  lemma {:induction false} DistinctFirstSeenOrder<T(!new)>(s: seq<T>)
    ensures forall i, j :: 0 <= i < j < |Distinct(s)| ==>
      FirstIndex(s, Distinct(s)[i]) < FirstIndex(s, Distinct(s)[j])
  {
    if s != [] {
      var n := |s| - 1;
      var p, x := s[..n], s[n];
      var u := Distinct(p);
      DistinctFirstSeenOrder(p);
      forall y | y in u
        ensures FirstIndex(s, y) == FirstIndex(p, y) < n
      {
        FirstIndexPrefix(s, n, y);
      }
      if x !in u {
        assert x !in p;
        assert FirstIndex(s, x) == n;
      }
      var d := Distinct(s);
      forall i, j | 0 <= i < j < |d|
        ensures FirstIndex(s, d[i]) < FirstIndex(s, d[j])
      {
        assert d[i] in u;
        if j < |u| {
          assert d[j] in u;
          assert FirstIndex(p, u[i]) < FirstIndex(p, u[j]);
        }
      }
    }
  }

  /** The closed range of a numeric column: its smallest and its largest value. */
  datatype Range = Range(lo: int, hi: int)

  /** `[s.min(), s.max()]`; absent (pandas gives NaN) when the column is empty. */
  function Bounds(s: seq<int>): (r: Option<Range>)
    ensures r.None? <==> s == []
    ensures r.Some? ==> r.value.lo <= r.value.hi
    ensures r.Some? ==> r.value.lo in s && r.value.hi in s
    ensures r.Some? ==> forall x :: x in s ==> r.value.lo <= x <= r.value.hi
  {
    if s == [] then None
    else
      var p, x := s[..|s| - 1], s[|s| - 1];
      assert s == p + [x];
      match Bounds(p)
      case None => Some(Range(x, x))
      case Some(b) =>
        Some(Range(if x < b.lo then x else b.lo, if b.hi < x then x else b.hi))
  }

  /** `s.groupby(s).size()`: for each value that occurs, the number of cells holding it. */
  function GroupSizes<K(==,!new)>(s: seq<K>): (m: map<K, nat>)
    ensures forall k :: k in m <==> k in s
    ensures forall k :: k in m ==> m[k] == Count(s, k)
  {
    if s == [] then map[]
    else
      var p, x := s[..|s| - 1], s[|s| - 1];
      var m := GroupSizes(p);
      assert s == p + [x];
      if x in m then m[x := m[x] + 1] else m[x := 1]
  }

  /** `m.get(k, d)`: the value at `k`, or `d` when `k` is not a key. */
  function GetOr<K, V>(m: map<K, V>, k: K, d: V): (v: V)
    ensures k in m ==> v == m[k]
    ensures k !in m ==> v == d
  {
    if k in m then m[k] else d
  }

  /** Looking up a group with default 0 gives the count of that value, also when no cell holds it. */
  lemma GroupSizeOrZero<K(!new)>(s: seq<K>, k: K)
    ensures GetOr(GroupSizes(s), k, 0) == Count(s, k)
  {
    if k !in s {
      CountAbsent(s, k);
    }
  }
}
