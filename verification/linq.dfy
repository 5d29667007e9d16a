/**
 * The two query operators the listings compose: `Where` (filter) and
 * `OrderBy`/`OrderByDescending` on a nullable string key.  The database
 * decides how equal keys are ordered, so the sort is specified only by
 * sortedness and by being a permutation of its input.
 */
module Linq {
  import opened Nullable
  import opened Text

  datatype Direction = Ascending | Descending

  /** `a` may precede `b` in a sequence ordered by `key` in direction `dir`. */
  predicate Precedes<T>(a: T, b: T, key: T -> Option<string>, dir: Direction) {
    match dir
    case Ascending => KeyLe(key(a), key(b))
    case Descending => KeyLe(key(b), key(a))
  }

  /** `s` is ordered by `key`: ascending keys never decrease, descending keys never increase. */
  predicate SortedBy<T>(s: seq<T>, key: T -> Option<string>, dir: Direction) {
    forall i, j :: 0 <= i < j < |s| ==> Precedes(s[i], s[j], key, dir)
  }

  /** `Where(p)`: the elements of `s` that satisfy `p`, each as often as in `s`, none other. */
  function Where<T(!new)>(s: seq<T>, p: T -> bool): (r: seq<T>)
    ensures forall x :: multiset(r)[x] == if p(x) then multiset(s)[x] else 0
  {
    if s == [] then []
    else
      var rest := Where(s[1..], p);
      assert s == [s[0]] + s[1..];
      if p(s[0]) then [s[0]] + rest else rest
  }

  lemma PrecedesTotal<T>(a: T, b: T, key: T -> Option<string>, dir: Direction)
    ensures Precedes(a, b, key, dir) || Precedes(b, a, key, dir)
  {
    KeyLeTotal(key(a), key(b));
  }

  lemma PrecedesTransitive<T>(a: T, b: T, c: T, key: T -> Option<string>, dir: Direction)
    requires Precedes(a, b, key, dir) && Precedes(b, c, key, dir)
    ensures Precedes(a, c, key, dir)
  {
    match dir
    case Ascending => KeyLeTransitive(key(a), key(b), key(c));
    case Descending => KeyLeTransitive(key(c), key(b), key(a));
  }

  /** The head of a sorted `s` precedes every element of a rearrangement of its tail plus an `x` it precedes. */
  lemma HeadPrecedesRest<T>(x: T, s: seq<T>, rest: seq<T>, key: T -> Option<string>, dir: Direction)
    requires s != [] && SortedBy(s, key, dir) && Precedes(s[0], x, key, dir)
    requires multiset(rest) == multiset(s[1..]) + multiset{x}
    ensures forall j :: 0 <= j < |rest| ==> Precedes(s[0], rest[j], key, dir)
  {
    forall j | 0 <= j < |rest| ensures Precedes(s[0], rest[j], key, dir) {
      var y := rest[j];
      assert y in multiset(rest);
      if y != x {
        assert y in multiset(s[1..]);
        var k :| 0 <= k < |s[1..]| && s[1..][k] == y;
        assert s[k + 1] == y;
      }
    }
  }

  /** Insert `x` into the sorted `s`, after the elements that precede it. */
  function Insert<T>(x: T, s: seq<T>, key: T -> Option<string>, dir: Direction): (r: seq<T>)
    requires SortedBy(s, key, dir)
    ensures multiset(r) == multiset(s) + multiset{x}
    ensures SortedBy(r, key, dir)
  {
    if s == [] then [x]
    else if Precedes(x, s[0], key, dir) then
      PrecedesSorted(x, s, key, dir);
      [x] + s
    else
      var rest := Insert(x, s[1..], key, dir);
      assert s == [s[0]] + s[1..];
      PrecedesTotal(x, s[0], key, dir);
      HeadPrecedesRest(x, s, rest, key, dir);
      PrependSorted(s[0], rest, key, dir);
      [s[0]] + rest
  }

  /** Prepending an element that precedes every element keeps a sequence sorted. */
  lemma PrependSorted<T>(x: T, s: seq<T>, key: T -> Option<string>, dir: Direction)
    requires SortedBy(s, key, dir)
    requires forall j :: 0 <= j < |s| ==> Precedes(x, s[j], key, dir)
    ensures SortedBy([x] + s, key, dir)
  {
    var r := [x] + s;
    forall i, j | 0 <= i < j < |r| ensures Precedes(r[i], r[j], key, dir) {
      assert r[j] == s[j - 1];
      if i > 0 { assert r[i] == s[i - 1]; }
    }
  }

  /** An element that precedes the head of a sorted sequence precedes all of it, and may be prepended. */
  lemma PrecedesSorted<T>(x: T, s: seq<T>, key: T -> Option<string>, dir: Direction)
    requires s != [] && SortedBy(s, key, dir) && Precedes(x, s[0], key, dir)
    ensures SortedBy([x] + s, key, dir)
  {
    forall j | 0 <= j < |s| ensures Precedes(x, s[j], key, dir) {
      if j > 0 { PrecedesTransitive(x, s[0], s[j], key, dir); }
    }
    PrependSorted(x, s, key, dir);
  }

  /** `OrderBy(key)` / `OrderByDescending(key)`: a sorted permutation of `s`. */
  function OrderBy<T>(s: seq<T>, key: T -> Option<string>, dir: Direction): (r: seq<T>)
    ensures multiset(r) == multiset(s)
    ensures SortedBy(r, key, dir)
  {
    if s == [] then []
    else
      assert s == [s[0]] + s[1..];
      Insert(s[0], OrderBy(s[1..], key, dir), key, dir)
  }
}
