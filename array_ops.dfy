/** The JavaScript array operations the import is written with, on sequences:
    `indexOf`, `filter(x => !banned.includes(x))` and the first-occurrence
    filter `filter((v, i, self) => self.indexOf(v) === i)`. */
module ArrayOps {

  /** No value occurs twice. */
  predicate Distinct<T(==,!new)>(s: seq<T>) {
    forall i, j :: 0 <= i < j < |s| ==> s[i] != s[j]
  }

  /** `s.indexOf(x)`: the first position holding x, or -1 when there is none. */
  function IndexOf<T(==,!new)>(s: seq<T>, x: T): (k: int)
    ensures -1 <= k < |s|
    ensures k >= 0 ==> s[k] == x && forall j :: 0 <= j < k ==> s[j] != x
    ensures k < 0 <==> x !in s
  {
    if s == [] then -1
    else if s[0] == x then 0
    else
      var k := IndexOf(s[1..], x);
      if k < 0 then -1 else k + 1
  }

  /** `s.filter(x => !banned.includes(x))`. */
  function Exclude<T(==,!new)>(s: seq<T>, banned: seq<T>): (r: seq<T>)
    ensures forall x :: x in r <==> x in s && x !in banned
    ensures |r| <= |s|
  {
    if s == [] then []
    else (if s[0] in banned then [] else [s[0]]) + Exclude(s[1..], banned)
  }

  /** The first-occurrence filter applied to the first n positions of s: the
      element at position i is kept exactly when `s.indexOf(s[i]) === i`. */
  function FirstOccurrences<T(==,!new)>(s: seq<T>, n: nat): (r: seq<T>)
    requires n <= |s|
    ensures forall x :: x in r <==> x in s[..n]
    ensures Distinct(r)
    ensures forall k :: 0 <= k < |r| ==> 0 <= IndexOf(s, r[k]) < n
    ensures forall j, k :: 0 <= j < k < |r| ==> IndexOf(s, r[j]) < IndexOf(s, r[k])
    decreases n
  {
    if n == 0 then []
    else
      assert s[..n] == s[..n - 1] + [s[n - 1]];
      FirstOccurrences(s, n - 1) + (if IndexOf(s, s[n - 1]) == n - 1 then [s[n - 1]] else [])
  }

  /** `s.filter((v, i, self) => self.indexOf(v) === i)`: s without repeats,
      each value kept at its first occurrence. */
  function KeepFirstOccurrences<T(==,!new)>(s: seq<T>): (r: seq<T>)
    ensures forall x :: x in r <==> x in s
    ensures Distinct(r)
    ensures forall j, k :: 0 <= j < k < |r| ==> IndexOf(s, r[j]) < IndexOf(s, r[k])
  {
    assert s[..|s|] == s;
    FirstOccurrences(s, |s|)
  }

  /** Exclude keeps the relative order of the first occurrences of the values
      it keeps. */
  lemma {:induction false} ExcludePreservesOrder<T(!new)>(s: seq<T>, banned: seq<T>, x: T, y: T)
    requires x in Exclude(s, banned) && y in Exclude(s, banned)
    requires IndexOf(s, x) < IndexOf(s, y)
    ensures IndexOf(Exclude(s, banned), x) < IndexOf(Exclude(s, banned), y)
  {
    var r := Exclude(s, banned);
    var t := Exclude(s[1..], banned);
    if s[0] == x {
      assert r[0] == x;
    } else {
      assert s[0] != y;
      ExcludePreservesOrder(s[1..], banned, x, y);
      if s[0] !in banned {
        assert r[0] == s[0] && r[1..] == t;
      } else {
        assert r == t;
      }
    }
  }

  /** A sequence without repeats has as many elements as the set of its values. */
  lemma {:induction false} DistinctCardinality<T(!new)>(s: seq<T>)
    requires Distinct(s)
    ensures |(set x | x in s)| == |s|
  {
    if s != [] {
      assert Distinct(s[1..]) by {
        forall i, j | 0 <= i < j < |s[1..]| ensures s[1..][i] != s[1..][j] {
          assert s[1..][i] == s[i + 1] && s[1..][j] == s[j + 1];
        }
      }
      DistinctCardinality(s[1..]);
      assert (set x | x in s) == {s[0]} + (set x | x in s[1..]);
      assert s[0] !in s[1..];
    }
  }
}
