/** The relational building blocks the SQL queries use: `WHERE` (filter), `ORDER BY` on one
    integer key in one direction, and `LIMIT`. Rows that tie on the key may come back in any
    order from the database; the model fixes one (stable) order, and the contracts promise
    only what `ORDER BY` promises: a permutation of the rows, ordered by the key. */
module Sorting {
  import opened Common

  datatype Direction = Ascending | Descending

  predicate InOrder(a: int, b: int, dir: Direction) {
    match dir
    case Ascending => a <= b
    case Descending => a >= b
  }

  /** `s` is ordered by `key` in direction `dir`. */
  predicate Sorted<T>(s: seq<T>, key: T -> int, dir: Direction) {
    forall i, j :: 0 <= i < j < |s| ==> InOrder(key(s[i]), key(s[j]), dir)
  }

  /** `WHERE keep(row)`, keeping the table's order. */
  function Filter<T(==,!new)>(s: seq<T>, keep: T -> bool): (r: seq<T>)
    ensures forall x :: x in r <==> x in s && keep(x)
    ensures |r| <= |s|
  {
    if |s| == 0 then []
    else
      assert s == [s[0]] + s[1..];
      (if keep(s[0]) then [s[0]] else []) + Filter(s[1..], keep)
  }

  /** Filtering keeps every copy of a kept row and no copy of any other. */
  lemma {:induction false} FilterMultiset<T(!new)>(s: seq<T>, keep: T -> bool)
    ensures forall x :: multiset(Filter(s, keep))[x] == if keep(x) then multiset(s)[x] else 0
  {
    if |s| > 0 {
      FilterMultiset(s[1..], keep);
      assert s == [s[0]] + s[1..];
    }
  }

  /** Places `x` into the ordered `s`. */
  function Insert<T(==,!new)>(x: T, s: seq<T>, key: T -> int, dir: Direction): (r: seq<T>)
    requires Sorted(s, key, dir)
    ensures Sorted(r, key, dir)
    ensures multiset(r) == multiset(s) + multiset{x}
    ensures forall y :: y in r ==> y == x || y in s
  {
    if |s| == 0 then [x]
    else if InOrder(key(x), key(s[0]), dir) then [x] + s
    else
      assert s == [s[0]] + s[1..];
      var rest := Insert(x, s[1..], key, dir);
      HeadFirst(s[0], x, s[1..], rest, key, dir);
      [s[0]] + rest
  }

  /** The head of an ordered sequence stays in front when a later element is inserted behind it. */
  lemma HeadFirst<T(!new)>(h: T, x: T, tail: seq<T>, rest: seq<T>, key: T -> int, dir: Direction)
    requires Sorted([h] + tail, key, dir)
    requires !InOrder(key(x), key(h), dir)
    requires Sorted(rest, key, dir)
    requires forall y :: y in rest ==> y == x || y in tail
    ensures Sorted([h] + rest, key, dir)
  {
    forall y | y in rest ensures InOrder(key(h), key(y), dir) {
      if y != x {
        var j :| 0 <= j < |tail| && tail[j] == y;
        assert ([h] + tail)[0] == h && ([h] + tail)[j + 1] == y;
      }
    }
    forall i, j | 0 <= i < j < |[h] + rest|
      ensures InOrder(key(([h] + rest)[i]), key(([h] + rest)[j]), dir)
    {
      if i == 0 {
        assert ([h] + rest)[j] in rest;
      }
    }
  }

  /** `ORDER BY key` (ascending or descending): the rows of `s`, reordered. */
  function SortBy<T(==,!new)>(s: seq<T>, key: T -> int, dir: Direction): (r: seq<T>)
    ensures Sorted(r, key, dir)
    ensures multiset(r) == multiset(s)
    ensures |r| == |s|
  {
    if |s| == 0 then []
    else
      assert s == [s[0]] + s[1..];
      var r := Insert(s[0], SortBy(s[1..], key, dir), key, dir);
      assert |r| == |multiset(r)|;
      r
  }

  /** `ORDER BY key LIMIT limit`: the first `limit` rows of the ordered result. Every row it
      drops comes after every row it keeps. */
  function SortedTop<T(==,!new)>(s: seq<T>, key: T -> int, dir: Direction, limit: nat): (r: seq<T>)
    ensures Sorted(r, key, dir)
    ensures |r| == Min(|s|, limit)
    ensures multiset(r) <= multiset(s)
    ensures forall x :: x in r ==> x in s
    ensures |s| <= limit ==> multiset(r) == multiset(s)
    ensures |s| <= limit ==> forall x :: x in s ==> x in r
    ensures forall x, y :: x in multiset(s) - multiset(r) && y in r ==> InOrder(key(y), key(x), dir)
  {
    var t := SortBy(s, key, dir);
    assert forall x :: x in t <==> x in s by {
      assert forall x :: x in t <==> x in multiset(t);
      assert forall x :: x in s <==> x in multiset(s);
    }
    if |t| <= limit then
      t
    else
      TopKeepsFirst(t, t[..limit], key, dir);
      t[..limit]
  }

  /** A prefix of an ordered sequence holds its first rows: whatever is left out comes after
      everything kept. */
  lemma TopKeepsFirst<T(!new)>(t: seq<T>, r: seq<T>, key: T -> int, dir: Direction)
    requires Sorted(t, key, dir)
    requires r <= t
    ensures Sorted(r, key, dir)
    ensures multiset(r) <= multiset(t)
    ensures forall x :: x in r ==> x in t
    ensures forall x, y :: x in multiset(t) - multiset(r) && y in r ==> InOrder(key(y), key(x), dir)
  {
    var k := |r|;
    assert t == r + t[k..];
    assert multiset(t) == multiset(r) + multiset(t[k..]);
    forall x, y | x in multiset(t) - multiset(r) && y in r
      ensures InOrder(key(y), key(x), dir)
    {
      assert x in multiset(t[k..]);
      var j :| k <= j < |t| && t[j] == x by {
        assert x in t[k..];
        var j' :| 0 <= j' < |t[k..]| && t[k..][j'] == x;
        assert t[k + j'] == x;
      }
      var i :| 0 <= i < k && r[i] == y;
      assert t[i] == y;
    }
  }

  /** Filtering distributes over concatenation. */
  lemma {:induction false} FilterAppend<T(!new)>(a: seq<T>, b: seq<T>, keep: T -> bool)
    ensures Filter(a + b, keep) == Filter(a, keep) + Filter(b, keep)
  {
    if |a| > 0 {
      assert (a + b)[1..] == a[1..] + b;
      FilterAppend(a[1..], b, keep);
    } else {
      assert a + b == b;
    }
  }

  /** A sequence's first part is a contiguous block of it. */
  lemma BlockAtFront<T>(whole: seq<T>, block: seq<T>, rest: seq<T>)
    requires whole == block + rest
    ensures exists a, b :: whole == a + block + b
  {
    assert whole == [] + block + rest;
  }

  /** A contiguous block of a sequence's tail is a contiguous block of the whole sequence. */
  lemma BlockInTail<T>(whole: seq<T>, head: seq<T>, rest: seq<T>, block: seq<T>)
    requires whole == head + rest
    requires exists a, b :: rest == a + block + b
    ensures exists a, b :: whole == a + block + b
  {
    var a, b :| rest == a + block + b;
    assert whole == (head + a) + block + b;
  }

  /** A row occurs in a concatenation as often as in its two parts together. */
  lemma CountAppend<T>(a: seq<T>, b: seq<T>, x: T)
    ensures multiset(a + b)[x] == multiset(a)[x] + multiset(b)[x]
  {
  }

  /** Filtering a prefix one row longer adds at most that row. */
  lemma FilterStep<T(!new)>(s: seq<T>, i: nat, keep: T -> bool)
    requires i < |s|
    ensures Filter(s[..i + 1], keep) == Filter(s[..i], keep) + (if keep(s[i]) then [s[i]] else [])
  {
    assert s[..i + 1] == s[..i] + [s[i]];
    FilterAppend(s[..i], [s[i]], keep);
    assert [s[i]][1..] == [];
  }

  /** Filtering a non-empty table is filtering all but its last row, then perhaps that row. */
  lemma FilterSnoc<T(!new)>(s: seq<T>, keep: T -> bool)
    requires |s| > 0
    ensures Filter(s, keep)
      == Filter(s[..|s| - 1], keep) + (if keep(s[|s| - 1]) then [s[|s| - 1]] else [])
  {
    FilterStep(s, |s| - 1, keep);
    assert s[..|s|] == s;
  }

  /** A filter that keeps every row returns the table unchanged. */
  lemma {:induction false} FilterKeepsAll<T(!new)>(s: seq<T>, keep: T -> bool)
    requires forall x :: x in s ==> keep(x)
    ensures Filter(s, keep) == s
  {
    if |s| > 0 {
      var t := s[1..];
      forall x | x in t ensures keep(x) {
        var i :| 0 <= i < |t| && t[i] == x;
        assert s[i + 1] == x;
      }
      FilterKeepsAll(t, keep);
      assert keep(s[0]);
      assert s == [s[0]] + t;
    }
  }

  /** Appending a row the filter drops to a table it keeps whole, then filtering, gives back
      the table. */
  lemma FilterDropsAppended<T(!new)>(s: seq<T>, x: T, keep: T -> bool)
    requires forall y :: y in s ==> keep(y)
    requires !keep(x)
    ensures Filter(s + [x], keep) == s
  {
    FilterAppend(s, [x], keep);
    assert [x][1..] == [];
    FilterKeepsAll(s, keep);
  }
}
