/**
 * The relational operations the controllers issue through the ORM, on a table kept
 * as a sequence of rows in table order:
 *   - Where        a `findAll({ where })` (and, with the negated predicate, a `destroy({ where })`),
 *   - UpdateWhere  an `update(values, { where })`,
 *   - FindFirst    a `findOne({ where })` / `findByPk`, which yields the first matching row.
 * Predicates are passed as total functions, built by small named functions so that
 * a contract and a body that mention the same predicate mention the same term.
 */
module Tables {
  import opened Wrappers

  /** The rows of `s` that satisfy `p`, in table order. */
  function Where<T(!new)>(s: seq<T>, p: T -> bool): (r: seq<T>)
    ensures |r| <= |s|
    ensures forall x :: x in r <==> x in s && p(x)
    decreases |s|
  {
    if s == [] then []
    else
      var rest := Where(s[..|s| - 1], p);
      assert forall x :: x in s <==> x in s[..|s| - 1] || x == s[|s| - 1] by {
        assert s == s[..|s| - 1] + [s[|s| - 1]];
      }
      if p(s[|s| - 1]) then rest + [s[|s| - 1]] else rest
  }

  /** A selection takes each row at most as often as the table holds it. */
  lemma {:induction false} WhereSubMultiset<T(!new)>(s: seq<T>, p: T -> bool)
    ensures multiset(Where(s, p)) <= multiset(s)
    decreases |s|
  {
    if s != [] {
      WhereSubMultiset(s[..|s| - 1], p);
      assert s == s[..|s| - 1] + [s[|s| - 1]];
    }
  }

  /** `s` with every row satisfying `p` replaced by `f` of it; the other rows and the order stay. */
  function UpdateWhere<T>(s: seq<T>, p: T -> bool, f: T -> T): (r: seq<T>)
    ensures |r| == |s|
    ensures forall i :: 0 <= i < |s| && p(s[i]) ==> r[i] == f(s[i])
    ensures forall i :: 0 <= i < |s| && !p(s[i]) ==> r[i] == s[i]
  {
    seq(|s|, i requires 0 <= i < |s| => if p(s[i]) then f(s[i]) else s[i])
  }

  /** The first row of `s` that satisfies `p`, if any. */
  function FindFirst<T(!new)>(s: seq<T>, p: T -> bool): (r: Option<T>)
    ensures r.None? <==> forall x :: x in s ==> !p(x)
    ensures r.Some? ==> r.value in s && p(r.value)
    ensures r.Some? ==> exists i :: 0 <= i < |s| && s[i] == r.value && forall j :: 0 <= j < i ==> !p(s[j])
    decreases |s|
  {
    if s == [] then None
    else if p(s[0]) then Some(s[0])
    else
      var r := FindFirst(s[1..], p);
      assert forall x :: x in s <==> x == s[0] || x in s[1..];
      FirstAfterHead(s, p, r);
      r
  }

  /** A first match in `s[1..]` is a first match in `s` when `s[0]` does not match. */
  lemma FirstAfterHead<T>(s: seq<T>, p: T -> bool, r: Option<T>)
    requires s != [] && !p(s[0])
    requires r.Some? ==> exists i :: 0 <= i < |s[1..]| && s[1..][i] == r.value && forall j :: 0 <= j < i ==> !p(s[1..][j])
    ensures r.Some? ==> exists i :: 0 <= i < |s| && s[i] == r.value && forall j :: 0 <= j < i ==> !p(s[j])
  {
    if r.Some? {
      var i :| 0 <= i < |s[1..]| && s[1..][i] == r.value && forall j :: 0 <= j < i ==> !p(s[1..][j]);
      assert s[i + 1] == r.value;
      forall j | 0 <= j < i + 1 ensures !p(s[j]) {
        if j > 0 { assert s[j] == s[1..][j - 1]; }
      }
    }
  }

  /** No two rows of `s` share a `key`. */
  ghost predicate DistinctBy<T, K>(s: seq<T>, key: T -> K) {
    forall i, j :: 0 <= i < j < |s| ==> key(s[i]) != key(s[j])
  }

  /** Every row's `key` lies below `bound` (an autoincrement counter). */
  ghost predicate KeysBelow<T>(s: seq<T>, key: T -> int, bound: int) {
    forall x :: x in s ==> key(x) < bound
  }

  /** When keys are distinct, a row is determined by its key. */
  lemma DistinctByMembers<T, K>(s: seq<T>, key: T -> K, x: T, y: T)
    requires DistinctBy(s, key) && x in s && y in s && key(x) == key(y)
    ensures x == y
  {
    var i :| 0 <= i < |s| && s[i] == x;
    var j :| 0 <= j < |s| && s[j] == y;
    assert key(s[i]) == key(s[j]);
  }

  /** With distinct keys, two different rows have different keys. */
  lemma DistinctByKeys<T, K>(s: seq<T>, key: T -> K, x: T, y: T)
    requires DistinctBy(s, key) && x in s && y in s && x != y
    ensures key(x) != key(y)
  {
    var i :| 0 <= i < |s| && s[i] == x;
    var j :| 0 <= j < |s| && s[j] == y;
    if i < j { assert key(s[i]) != key(s[j]); }
    if j < i { assert key(s[j]) != key(s[i]); }
  }

  /** Selecting or deleting rows keeps keys distinct. */
  lemma {:induction false} WhereDistinct<T(!new), K>(s: seq<T>, p: T -> bool, key: T -> K)
    requires DistinctBy(s, key)
    ensures DistinctBy(Where(s, p), key)
    decreases |s|
  {
    if s != [] {
      var init, last := s[..|s| - 1], s[|s| - 1];
      assert DistinctBy(init, key);
      WhereDistinct(init, p, key);
      var rest := Where(init, p);
      if p(last) {
        forall y | y in rest ensures key(y) != key(last) {
          var k :| 0 <= k < |init| && init[k] == y;
          assert s[k] == y;
        }
        AppendDistinct(rest, [last], key);
      }
    }
  }

  /** Two row sequences with distinct keys and no key in common append to one with distinct keys. */
  lemma AppendDistinct<T, K>(a: seq<T>, b: seq<T>, key: T -> K)
    requires DistinctBy(a, key) && DistinctBy(b, key)
    requires forall i, j :: 0 <= i < |a| && 0 <= j < |b| ==> key(a[i]) != key(b[j])
    ensures DistinctBy(a + b, key)
  {
    forall i, j | 0 <= i < j < |a + b| ensures key((a + b)[i]) != key((a + b)[j]) {
      if j < |a| {
      } else if i < |a| {
        assert key(a[i]) != key(b[j - |a|]);
      } else {
        assert key(b[i - |a|]) != key(b[j - |a|]);
      }
    }
  }

  /** An update whose replacement keeps the key keeps keys distinct. */
  lemma UpdateWhereDistinct<T, K>(s: seq<T>, p: T -> bool, f: T -> T, key: T -> K)
    requires DistinctBy(s, key)
    requires forall x :: key(f(x)) == key(x)
    ensures DistinctBy(UpdateWhere(s, p, f), key)
  {
    var r := UpdateWhere(s, p, f);
    forall i | 0 <= i < |s| ensures key(r[i]) == key(s[i]) {
      if p(s[i]) { assert key(f(s[i])) == key(s[i]); }
    }
  }

  /** An update of at most one row keeps keys distinct when the updated row's new key is
      no other row's key. */
  lemma UpdateOneDistinct<T, K>(s: seq<T>, p: T -> bool, f: T -> T, key: T -> K)
    requires DistinctBy(s, key)
    requires forall i, j :: 0 <= i < j < |s| ==> !(p(s[i]) && p(s[j]))
    requires forall x, y :: x in s && y in s && p(x) && !p(y) ==> key(f(x)) != key(y)
    ensures DistinctBy(UpdateWhere(s, p, f), key)
  {
    var r := UpdateWhere(s, p, f);
    forall i, j | 0 <= i < j < |s| ensures key(r[i]) != key(r[j]) {
      if p(s[i]) {
        assert key(f(s[i])) != key(s[j]);
      } else if p(s[j]) {
        assert key(f(s[j])) != key(s[i]);
      }
    }
  }

  /** Selecting by `q` after selecting by `p` is selecting by their conjunction. */
  lemma {:induction false} WhereWhere<T(!new)>(s: seq<T>, p: T -> bool, q: T -> bool, both: T -> bool)
    requires forall x :: both(x) == (p(x) && q(x))
    ensures Where(Where(s, p), q) == Where(s, both)
    decreases |s|
  {
    if s != [] {
      var init, last := s[..|s| - 1], s[|s| - 1];
      WhereWhere(init, p, q, both);
      if p(last) {
        var w := Where(init, p) + [last];
        assert w[..|w| - 1] == Where(init, p);
      }
    }
  }

  /** Selecting with a predicate no row satisfies gives nothing. */
  lemma {:induction false} WhereNone<T(!new)>(s: seq<T>, p: T -> bool)
    requires forall x :: x in s ==> !p(x)
    ensures Where(s, p) == []
    decreases |s|
  {
    if s != [] {
      var init := s[..|s| - 1];
      assert forall x :: x in init ==> x in s;
      assert s[|s| - 1] in s;
      WhereNone(init, p);
    }
  }

  /** Selecting from a table with one row appended. */
  lemma WhereAppend<T(!new)>(s: seq<T>, x: T, p: T -> bool)
    ensures Where(s + [x], p) == if p(x) then Where(s, p) + [x] else Where(s, p)
  {
    assert (s + [x])[..|s + [x]| - 1] == s;
  }

  /** Rows before the first match do not affect `FindFirst`. */
  lemma {:induction false} FindFirstSkip<T(!new)>(s: seq<T>, t: seq<T>, p: T -> bool)
    requires forall x :: x in s ==> !p(x)
    ensures FindFirst(s + t, p) == FindFirst(t, p)
    decreases |s|
  {
    if s != [] {
      assert s[0] in s && (s + t)[0] == s[0];
      assert (s + t)[1..] == s[1..] + t;
      assert forall x :: x in s[1..] ==> x in s;
      FindFirstSkip(s[1..], t, p);
    } else {
      assert s + t == t;
    }
  }

  /** Rows appended after a match do not affect `FindFirst`. */
  lemma {:induction false} FindFirstAppend<T(!new)>(s: seq<T>, t: seq<T>, p: T -> bool)
    requires FindFirst(s, p).Some?
    ensures FindFirst(s + t, p) == FindFirst(s, p)
    decreases |s|
  {
    assert (s + t)[0] == s[0];
    if !p(s[0]) {
      assert (s + t)[1..] == s[1..] + t;
      FindFirstAppend(s[1..], t, p);
    }
  }

  /** `s` has ascending `key`s. */
  ghost predicate SortedBy<T>(s: seq<T>, key: T -> int) {
    forall i, j :: 0 <= i < j < |s| ==> key(s[i]) <= key(s[j])
  }

  /** The rows of `s` in ascending order of `key`, as an `ORDER BY key` returns them
      (rows with equal keys keep their table order). */
  function SortBy<T>(s: seq<T>, key: T -> int): (r: seq<T>)
    ensures multiset(r) == multiset(s)
    ensures SortedBy(r, key)
  {
    if s == [] then []
    else
      assert s == [s[0]] + s[1..];
      InsertBy(s[0], SortBy(s[1..], key), key)
  }

  /** `x` placed into the sorted `s` before the first row with a key not below its own. */
  function InsertBy<T>(x: T, s: seq<T>, key: T -> int): (r: seq<T>)
    requires SortedBy(s, key)
    ensures |r| == |s| + 1 && (r[0] == x || (s != [] && r[0] == s[0]))
    ensures multiset(r) == multiset(s) + multiset{x}
    ensures SortedBy(r, key)
  {
    if s == [] || key(x) <= key(s[0]) then [x] + s
    else
      assert s == [s[0]] + s[1..];
      var rest := InsertBy(x, s[1..], key);
      assert key(s[0]) <= key(rest[0]);
      SortedCons(s[0], rest, key);
      [s[0]] + rest
  }

  /** A row whose key is not above the head of a sorted sequence can go in front of it. */
  lemma SortedCons<T>(x: T, s: seq<T>, key: T -> int)
    requires SortedBy(s, key) && (s != [] ==> key(x) <= key(s[0]))
    ensures SortedBy([x] + s, key)
  {
    var r := [x] + s;
    forall i, j | 0 <= i < j < |r| ensures key(r[i]) <= key(r[j]) {
      if i == 0 && j > 1 { assert key(s[0]) <= key(s[j - 1]); }
    }
  }

  /** The first `n` rows of `s`: a `LIMIT n`. */
  function Limit<T>(s: seq<T>, n: nat): (r: seq<T>)
    ensures |r| == if |s| < n then |s| else n
    ensures r <= s
  {
    if |s| <= n then s else s[..n]
  }

  /** The first `n` rows of a sorted permutation of `s`: rows of `s`, still sorted, and a
      row of `s` left out only when all `n` places went to rows with keys not above its own. */
  lemma LimitOfSorted<T>(s: seq<T>, sorted: seq<T>, key: T -> int, n: nat)
    requires multiset(sorted) == multiset(s) && SortedBy(sorted, key)
    ensures forall x :: x in Limit(sorted, n) ==> x in s
    ensures multiset(Limit(sorted, n)) <= multiset(s)
    ensures SortedBy(Limit(sorted, n), key)
    ensures forall x :: x in s && x !in Limit(sorted, n) ==>
      |Limit(sorted, n)| == n && forall y :: y in Limit(sorted, n) ==> key(y) <= key(x)
  {
    var r := Limit(sorted, n);
    assert sorted == r + sorted[|r|..];
    forall x | x in r ensures x in s {
      assert x in multiset(sorted);
    }
    forall x | x in s && x !in r ensures |r| == n && forall y :: y in r ==> key(y) <= key(x) {
      assert x in multiset(sorted);
      var k :| 0 <= k < |sorted| && sorted[k] == x;
      assert forall i :: 0 <= i < |r| ==> r[i] == sorted[i];
      assert k >= |r|;
      forall y | y in r ensures key(y) <= key(x) {
        var i :| 0 <= i < |r| && r[i] == y;
        assert sorted[i] == y;
      }
    }
  }

  /** A row is in an updated table iff it is an untouched row or the update of a matching row. */
  lemma UpdateWhereMembers<T>(s: seq<T>, p: T -> bool, f: T -> T)
    ensures forall y :: y in s && !p(y) ==> y in UpdateWhere(s, p, f)
    ensures forall y :: y in s && p(y) ==> f(y) in UpdateWhere(s, p, f)
    ensures forall x :: x in UpdateWhere(s, p, f) ==> (x in s && !p(x)) || exists y :: y in s && p(y) && x == f(y)
  {
    var r := UpdateWhere(s, p, f);
    forall y | y in s ensures (!p(y) ==> y in r) && (p(y) ==> f(y) in r) {
      var i :| 0 <= i < |s| && s[i] == y;
      assert r[i] == if p(y) then f(y) else y;
    }
    forall x | x in r ensures (x in s && !p(x)) || exists y :: y in s && p(y) && x == f(y) {
      var i :| 0 <= i < |r| && r[i] == x;
      assert s[i] in s;
    }
  }

  /** An update whose replacement keeps the key keeps every key below the same bound. */
  lemma UpdateWhereKeysBelow<T>(s: seq<T>, p: T -> bool, f: T -> T, key: T -> int, bound: int)
    requires KeysBelow(s, key, bound)
    requires forall x :: key(f(x)) == key(x)
    ensures KeysBelow(UpdateWhere(s, p, f), key, bound)
  {
    UpdateWhereMembers(s, p, f);
  }

  /** Appending a row whose key no row has keeps keys distinct. */
  lemma AppendFresh<T, K>(s: seq<T>, x: T, key: T -> K)
    requires DistinctBy(s, key)
    requires forall y :: y in s ==> key(y) != key(x)
    ensures DistinctBy(s + [x], key)
  {
    forall i | 0 <= i < |s| ensures key(s[i]) != key(x) {
      assert s[i] in s;
    }
    AppendDistinct(s, [x], key);
  }

  /** A predicate that every row satisfies selects the whole table. */
  lemma {:induction false} WhereAll<T(!new)>(s: seq<T>, p: T -> bool)
    requires forall x :: x in s ==> p(x)
    ensures Where(s, p) == s
    decreases |s|
  {
    if s != [] {
      assert s == s[..|s| - 1] + [s[|s| - 1]];
      WhereAll(s[..|s| - 1], p);
    }
  }
}
