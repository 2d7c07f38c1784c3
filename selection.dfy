/**
 * The ordering, limiting and de-duplication the SQL queries of Backend/services.py ask the
 * database for: `ORDER BY <key>` (a stable sort, so rows with equal keys keep table order),
 * `LIMIT n`, and the duplicate removal of `UNION`.
 */
module Selection {
  import opened Wrappers

  /** Keys never decrease along the sequence. */
  predicate SortedBy<T>(s: seq<T>, key: T -> int)
  {
    forall i, j :: 0 <= i < j < |s| ==> key(s[i]) <= key(s[j])
  }

  /** `x` placed in front of the first element whose key is not smaller than its own. */
  function Insert<T>(x: T, s: seq<T>, key: T -> int): (r: seq<T>)
    ensures |r| == |s| + 1
  {
    if s == [] || key(x) <= key(s[0]) then [x] + s else [s[0]] + Insert(x, s[1..], key)
  }

  function Min(a: int, b: int): int
  {
    if a <= b then a else b
  }

  /** Insertion sort by `key`; an element goes before the later elements with the same key. */
  function SortBy<T>(s: seq<T>, key: T -> int): (r: seq<T>)
    ensures |r| == |s|
  {
    if s == [] then [] else Insert(s[0], SortBy(s[1..], key), key)
  }

  lemma {:induction false} InsertPermutation<T>(x: T, s: seq<T>, key: T -> int)
    ensures multiset(Insert(x, s, key)) == multiset(s) + multiset{x}
  {
    if s != [] && key(x) > key(s[0]) {
      InsertPermutation(x, s[1..], key);
      assert s == [s[0]] + s[1..];
    }
  }

  /** Every key in the sequence is at least `b`. */
  predicate KeysAtLeast<T>(s: seq<T>, key: T -> int, b: int)
  {
    forall i :: 0 <= i < |s| ==> b <= key(s[i])
  }

  lemma {:induction false} InsertKeysAtLeast<T>(x: T, s: seq<T>, key: T -> int, b: int)
    requires KeysAtLeast(s, key, b) && b <= key(x)
    ensures KeysAtLeast(Insert(x, s, key), key, b)
  {
    if s != [] && key(x) > key(s[0]) {
      InsertKeysAtLeast(x, s[1..], key, b);
    }
  }

  lemma {:induction false} InsertSorted<T>(x: T, s: seq<T>, key: T -> int)
    requires SortedBy(s, key)
    ensures SortedBy(Insert(x, s, key), key)
  {
    if s != [] && key(x) > key(s[0]) {
      InsertSorted(x, s[1..], key);
      InsertKeysAtLeast(x, s[1..], key, key(s[0]));
    }
  }

  /** The sort is a permutation of its input whose keys never decrease. */
  lemma {:induction false} SortByCorrect<T>(s: seq<T>, key: T -> int)
    ensures multiset(SortBy(s, key)) == multiset(s)
    ensures SortedBy(SortBy(s, key), key)
  {
    if s != [] {
      SortByCorrect(s[1..], key);
      InsertPermutation(s[0], SortBy(s[1..], key), key);
      InsertSorted(s[0], SortBy(s[1..], key), key);
      assert s == [s[0]] + s[1..];
    }
  }

  /** An input already in key order comes back unchanged. */
  lemma {:induction false} SortBySortedInput<T>(s: seq<T>, key: T -> int)
    requires SortedBy(s, key)
    ensures SortBy(s, key) == s
  {
    if s != [] {
      SortBySortedInput(s[1..], key);
    }
  }

  /** `LIMIT n` for a non-negative `n`: the first `n` rows, or all when there are fewer. */
  function Take<T>(s: seq<T>, n: nat): (r: seq<T>)
    ensures |r| == Min(n, |s|)
    ensures forall i :: 0 <= i < |r| ==> r[i] == s[i]
  {
    if n < |s| then s[..n] else s
  }

  /** The key of `ORDER BY value DESC`. */
  function Descending<T>(value: T -> int): T -> int
  {
    x => -value(x)
  }

  lemma SortedDescending<T>(s: seq<T>, value: T -> int)
    requires SortedBy(s, Descending(value))
    ensures forall i, j :: 0 <= i < j < |s| ==> value(s[i]) >= value(s[j])
  {
    forall i, j | 0 <= i < j < |s|
      ensures value(s[i]) >= value(s[j])
    {
      assert Descending(value)(s[i]) <= Descending(value)(s[j]);
    }
  }

  /** A prefix of a sequence in key order is in key order. */
  lemma TakeSorted<T>(s: seq<T>, n: nat, key: T -> int)
    requires SortedBy(s, key)
    ensures SortedBy(Take(s, n), key)
  {
  }

  /**
   * Whatever is left out of the first `n` of a sequence in key order has a key no smaller
   * than the last one kept: the prefix holds the `n` smallest keys.
   */
  lemma TakeSortedSmallest<T>(s: seq<T>, n: nat, key: T -> int)
    requires SortedBy(s, key) && 0 < n <= |s|
    ensures forall x :: x in s && key(x) < key(s[n - 1]) ==> x in Take(s, n)
  {
    forall x | x in s && key(x) < key(s[n - 1])
      ensures x in Take(s, n)
    {
      var p :| 0 <= p < |s| && s[p] == x;
      assert p < n;
      assert Take(s, n)[p] == x;
    }
  }

  /** `WHERE keep(row)`: the rows that pass, in table order. */
  function Filter<T>(s: seq<T>, keep: T -> bool): (r: seq<T>)
    ensures |r| <= |s|
  {
    if s == [] then []
    else
      var front := Filter(s[..|s| - 1], keep);
      if keep(s[|s| - 1]) then front + [s[|s| - 1]] else front
  }

  /** The filter keeps every passing row as often as it occurs, and no other row. */
  lemma {:induction false} FilterCorrect<T>(s: seq<T>, keep: T -> bool)
    ensures forall x :: x in Filter(s, keep) <==> x in s && keep(x)
    ensures forall x :: keep(x) ==> multiset(Filter(s, keep))[x] == multiset(s)[x]
    ensures forall x :: !keep(x) ==> multiset(Filter(s, keep))[x] == 0
  {
    if s != [] {
      var front := s[..|s| - 1];
      FilterCorrect(front, keep);
      assert s == front + [s[|s| - 1]];
    }
  }

  /** A filter that every row passes returns the table. */
  lemma {:induction false} FilterKeepsAll<T>(s: seq<T>, keep: T -> bool)
    requires forall x :: x in s ==> keep(x)
    ensures Filter(s, keep) == s
  {
    if s != [] {
      FilterKeepsAll(s[..|s| - 1], keep);
      assert s == s[..|s| - 1] + [s[|s| - 1]];
    }
  }

  /** Membership in a filter, for one value. */
  lemma FilterMember<T>(s: seq<T>, keep: T -> bool, x: T)
    ensures x in Filter(s, keep) <==> x in s && keep(x)
  {
    FilterCorrect(s, keep);
  }

  /** The duplicate removal of `UNION`: every value once, where it first occurs. */
  function Distinct<T(==)>(s: seq<T>): (r: seq<T>)
    ensures |r| <= |s|
  {
    if s == [] then []
    else
      var front := Distinct(s[..|s| - 1]);
      if s[|s| - 1] in front then front else front + [s[|s| - 1]]
  }

  predicate NoDuplicates<T(==)>(s: seq<T>)
  {
    forall i, j :: 0 <= i < j < |s| ==> s[i] != s[j]
  }

  /** A sequence has no duplicates exactly when it holds every value at most once. */
  lemma {:induction false} NoDuplicatesCount<T>(s: seq<T>)
    ensures NoDuplicates(s) <==> forall x :: multiset(s)[x] <= 1
  {
    if s != [] {
      var front, last := s[..|s| - 1], s[|s| - 1];
      NoDuplicatesCount(front);
      assert s == front + [last];
      if NoDuplicates(s) {
        assert NoDuplicates(front);
        assert last !in front;
      } else {
        var i, j :| 0 <= i < j < |s| && s[i] == s[j];
        var x := s[i];
        assert s == s[..j] + s[j..];
        assert s[i] in s[..j] && s[j] in s[j..];
        assert multiset(s)[x] == multiset(s[..j])[x] + multiset(s[j..])[x];
      }
    }
  }

  /** A selection from a sequence without duplicates has none either. */
  lemma SelectNoDuplicates<T>(table: seq<T>, keep: T -> bool, key: T -> int, n: nat)
    requires NoDuplicates(table)
    ensures NoDuplicates(Select(table, keep, key, n))
  {
    SelectRows(table, keep, key, n);
    NoDuplicatesCount(table);
    NoDuplicatesCount(Select(table, keep, key, n));
  }

  /**
   * A selection without `WHERE` from a sequence without duplicates: distinct rows of the
   * sequence, as many as the limit allows, in key order, the smallest keys first.
   */
  lemma SelectFromAll<T>(u: seq<T>, keep: T -> bool, key: T -> int, n: nat)
    requires forall x :: x in u ==> keep(x)
    requires NoDuplicates(u)
    ensures var r := Select(u, keep, key, n);
            && |r| == Min(n, |u|)
            && (forall x :: x in r ==> x in u)
            && NoDuplicates(r)
            && SortedBy(r, key)
            && (0 < |r| ==> forall x :: x in u && key(x) < key(r[|r| - 1]) ==> x in r)
  {
    FilterKeepsAll(u, keep);
    SelectRows(u, keep, key, n);
    SelectOrder(u, keep, key, n);
    SelectSmallest(u, keep, key, n);
    SelectNoDuplicates(u, keep, key, n);
  }

  /** `UNION` keeps exactly the values of its input, each of them once. */
  lemma {:induction false} DistinctCorrect<T>(s: seq<T>)
    ensures forall x :: x in Distinct(s) <==> x in s
    ensures NoDuplicates(Distinct(s))
  {
    if s != [] {
      var front := s[..|s| - 1];
      DistinctCorrect(front);
      assert s == front + [s[|s| - 1]];
    }
  }

  /** A prefix never holds more copies of a value than the whole sequence. */
  lemma TakeMultiset<T>(s: seq<T>, n: nat)
    ensures multiset(Take(s, n)) <= multiset(s)
  {
    if n < |s| {
      assert s == s[..n] + s[n..];
    }
  }

  /** `SELECT .. WHERE keep ORDER BY key LIMIT n`. */
  function Select<T>(table: seq<T>, keep: T -> bool, key: T -> int, n: nat): seq<T>
  {
    Take(SortBy(Filter(table, keep), key), n)
  }

  /** A selection returns passing rows of the table, and never more copies than the table holds. */
  lemma SelectRows<T>(table: seq<T>, keep: T -> bool, key: T -> int, n: nat)
    ensures multiset(Select(table, keep, key, n)) <= multiset(Filter(table, keep)) <= multiset(table)
    ensures forall x :: x in Select(table, keep, key, n) ==> x in table && keep(x)
  {
    var passing := Filter(table, keep);
    var sorted := SortBy(passing, key);
    var r := Take(sorted, n);
    FilterCorrect(table, keep);
    SortByCorrect(passing, key);
    TakeMultiset(sorted, n);
    forall x | x in r
      ensures x in table && keep(x)
    {
      assert multiset(r)[x] > 0;
      assert multiset(passing)[x] > 0;
    }
  }

  /** A selection holds as many rows as the limit allows, in key order. */
  lemma SelectOrder<T>(table: seq<T>, keep: T -> bool, key: T -> int, n: nat)
    ensures |Select(table, keep, key, n)| == Min(n, |Filter(table, keep)|)
    ensures SortedBy(Select(table, keep, key, n), key)
  {
    SortByCorrect(Filter(table, keep), key);
    TakeSorted(SortBy(Filter(table, keep), key), n, key);
  }

  /**
   * Every passing row whose key is below the last one returned is returned: the selection
   * holds the rows with the smallest keys.
   */
  lemma SelectSmallest<T>(table: seq<T>, keep: T -> bool, key: T -> int, n: nat)
    ensures var r := Select(table, keep, key, n);
            0 < |r| ==> forall x :: x in table && keep(x) && key(x) < key(r[|r| - 1]) ==> x in r
  {
    var passing := Filter(table, keep);
    var sorted := SortBy(passing, key);
    var r := Take(sorted, n);
    if 0 < |r| {
      SortByCorrect(passing, key);
      TakeSortedSmallest(sorted, |r|, key);
      FilterCorrect(table, keep);
      forall x | x in table && keep(x) && key(x) < key(r[|r| - 1])
        ensures x in r
      {
        assert x in multiset(passing);
        assert x in sorted;
        assert Take(sorted, |r|) == r;
      }
    }
  }

  /**
   * Selecting in descending order of `value`: at most `n` passing rows of the table, each
   * no more often than in the table, largest value first, and no passing row whose value
   * exceeds the last one returned is left out.
   */
  lemma SelectNewest<T>(table: seq<T>, keep: T -> bool, value: T -> int, n: nat)
    ensures var r := Select(table, keep, Descending(value), n);
            && |r| == Min(n, |Filter(table, keep)|)
            && (forall x :: x in r ==> x in table && keep(x))
            && multiset(r) <= multiset(table)
            && (forall i, j :: 0 <= i < j < |r| ==> value(r[i]) >= value(r[j]))
            && (0 < |r| ==> forall x :: x in table && keep(x) && value(x) > value(r[|r| - 1]) ==> x in r)
  {
    var r := Select(table, keep, Descending(value), n);
    SelectRows(table, keep, Descending(value), n);
    SelectOrder(table, keep, Descending(value), n);
    SelectSmallest(table, keep, Descending(value), n);
    SortedDescending(r, value);
    if 0 < |r| {
      forall x | x in table && keep(x) && value(x) > value(r[|r| - 1])
        ensures x in r
      {
        assert Descending(value)(x) < Descending(value)(r[|r| - 1]);
      }
    }
  }

  /** When the limit is not reached every passing row is returned. */
  lemma SelectAll<T>(table: seq<T>, keep: T -> bool, key: T -> int, n: nat)
    requires |Filter(table, keep)| <= n
    ensures forall x :: x in table && keep(x) ==> x in Select(table, keep, key, n)
  {
    var passing := Filter(table, keep);
    FilterCorrect(table, keep);
    SortByCorrect(passing, key);
    forall x | x in table && keep(x)
      ensures x in Select(table, keep, key, n)
    {
      assert x in multiset(passing);
      assert x in multiset(SortBy(passing, key));
    }
  }

  // ---------------------------------------------------------------------------------------
  // Outer joins: `L LEFT JOIN R ON same(l, r)` and `L RIGHT JOIN R ON same(l, r)`, each
  // joined pair (or a row with its missing side) turned into a result row by `combine`
  // ---------------------------------------------------------------------------------------

  function PartnersOf<L, R>(l: L, same: (L, R) -> bool): R -> bool
  {
    r => same(l, r)
  }

  function PartnersIn<L, R>(r: R, same: (L, R) -> bool): L -> bool
  {
    l => same(l, r)
  }

  /** The rows the left join makes of one left row: one per partner, or one with NULLs. */
  function LeftRows<L, R, T>(l: L, right: seq<R>, same: (L, R) -> bool,
                             combine: (Option<L>, Option<R>) -> T): seq<T>
  {
    var partners := Filter(right, PartnersOf(l, same));
    if partners == [] then [combine(Some(l), None)]
    else seq(|partners|, i requires 0 <= i < |partners| => combine(Some(l), Some(partners[i])))
  }

  /** The rows the right join makes of one right row. */
  function RightRows<L, R, T>(left: seq<L>, r: R, same: (L, R) -> bool,
                              combine: (Option<L>, Option<R>) -> T): seq<T>
  {
    var partners := Filter(left, PartnersIn(r, same));
    if partners == [] then [combine(None, Some(r))]
    else seq(|partners|, i requires 0 <= i < |partners| => combine(Some(partners[i]), Some(r)))
  }

  function LeftJoin<L, R, T>(left: seq<L>, right: seq<R>, same: (L, R) -> bool,
                             combine: (Option<L>, Option<R>) -> T): seq<T>
  {
    if left == [] then []
    else LeftJoin(left[..|left| - 1], right, same, combine) + LeftRows(left[|left| - 1], right, same, combine)
  }

  function RightJoin<L, R, T>(left: seq<L>, right: seq<R>, same: (L, R) -> bool,
                              combine: (Option<L>, Option<R>) -> T): seq<T>
  {
    if right == [] then []
    else RightJoin(left, right[..|right| - 1], same, combine) + RightRows(left, right[|right| - 1], same, combine)
  }

  /** The full outer join, as a reference definition. */
  predicate InFullOuterJoin<L(==), R(==), T(==)>(t: T, left: seq<L>, right: seq<R>, same: (L, R) -> bool,
                                         combine: (Option<L>, Option<R>) -> T)
  {
    || (exists l, r :: l in left && r in right && same(l, r) && t == combine(Some(l), Some(r)))
    || (exists l :: l in left && (forall r :: r in right ==> !same(l, r)) && t == combine(Some(l), None))
    || (exists r :: r in right && (forall l :: l in left ==> !same(l, r)) && t == combine(None, Some(r)))
  }

  lemma LeftRowsMembers<L, R, T>(l: L, right: seq<R>, same: (L, R) -> bool,
                                 combine: (Option<L>, Option<R>) -> T, t: T)
    ensures t in LeftRows(l, right, same, combine) <==>
              || (exists r :: r in right && same(l, r) && t == combine(Some(l), Some(r)))
              || ((forall r :: r in right ==> !same(l, r)) && t == combine(Some(l), None))
  {
    var partners := Filter(right, PartnersOf(l, same));
    if partners == [] {
      forall r | r in right
        ensures !same(l, r)
      {
        FilterMember(right, PartnersOf(l, same), r);
      }
    } else {
      FilterMember(right, PartnersOf(l, same), partners[0]);
      var rows := LeftRows(l, right, same, combine);
      if t in rows {
        var i :| 0 <= i < |rows| && rows[i] == t;
        FilterMember(right, PartnersOf(l, same), partners[i]);
      }
      if exists r :: r in right && same(l, r) && t == combine(Some(l), Some(r)) {
        var r :| r in right && same(l, r) && t == combine(Some(l), Some(r));
        FilterMember(right, PartnersOf(l, same), r);
        var i :| 0 <= i < |partners| && partners[i] == r;
        assert LeftRows(l, right, same, combine)[i] == t;
      }
    }
  }

  lemma RightRowsMembers<L, R, T>(left: seq<L>, r: R, same: (L, R) -> bool,
                                  combine: (Option<L>, Option<R>) -> T, t: T)
    ensures t in RightRows(left, r, same, combine) <==>
              || (exists l :: l in left && same(l, r) && t == combine(Some(l), Some(r)))
              || ((forall l :: l in left ==> !same(l, r)) && t == combine(None, Some(r)))
  {
    var partners := Filter(left, PartnersIn(r, same));
    if partners == [] {
      forall l | l in left
        ensures !same(l, r)
      {
        FilterMember(left, PartnersIn(r, same), l);
      }
    } else {
      FilterMember(left, PartnersIn(r, same), partners[0]);
      var rows := RightRows(left, r, same, combine);
      if t in rows {
        var i :| 0 <= i < |rows| && rows[i] == t;
        FilterMember(left, PartnersIn(r, same), partners[i]);
      }
      if exists l :: l in left && same(l, r) && t == combine(Some(l), Some(r)) {
        var l :| l in left && same(l, r) && t == combine(Some(l), Some(r));
        FilterMember(left, PartnersIn(r, same), l);
        var i :| 0 <= i < |partners| && partners[i] == l;
        assert RightRows(left, r, same, combine)[i] == t;
      }
    }
  }

  lemma {:induction false} LeftJoinMembers<L, R, T>(left: seq<L>, right: seq<R>, same: (L, R) -> bool,
                                                    combine: (Option<L>, Option<R>) -> T, t: T)
    ensures t in LeftJoin(left, right, same, combine) <==>
              exists l :: l in left && t in LeftRows(l, right, same, combine)
  {
    if left != [] {
      var front := left[..|left| - 1];
      LeftJoinMembers(front, right, same, combine, t);
      assert left == front + [left[|left| - 1]];
    }
  }

  lemma {:induction false} RightJoinMembers<L, R, T>(left: seq<L>, right: seq<R>, same: (L, R) -> bool,
                                                     combine: (Option<L>, Option<R>) -> T, t: T)
    ensures t in RightJoin(left, right, same, combine) <==>
              exists r :: r in right && t in RightRows(left, r, same, combine)
  {
    if right != [] {
      var front := right[..|right| - 1];
      RightJoinMembers(left, front, same, combine, t);
      assert right == front + [right[|right| - 1]];
    }
  }

  /**
   * `UNION` of the left and the right join is the full outer join, each row once.
   */
  lemma UnionIsFullOuterJoin<L, R, T>(left: seq<L>, right: seq<R>, same: (L, R) -> bool,
                                      combine: (Option<L>, Option<R>) -> T)
    ensures var u := Distinct(LeftJoin(left, right, same, combine) + RightJoin(left, right, same, combine));
            && (forall t :: t in u <==> InFullOuterJoin(t, left, right, same, combine))
            && NoDuplicates(u)
  {
    var joined := LeftJoin(left, right, same, combine) + RightJoin(left, right, same, combine);
    DistinctCorrect(joined);
    forall t
      ensures t in joined <==> InFullOuterJoin(t, left, right, same, combine)
    {
      LeftJoinMembers(left, right, same, combine, t);
      RightJoinMembers(left, right, same, combine, t);
      if t in LeftJoin(left, right, same, combine) {
        var l :| l in left && t in LeftRows(l, right, same, combine);
        LeftRowsMembers(l, right, same, combine, t);
      }
      if t in RightJoin(left, right, same, combine) {
        var r :| r in right && t in RightRows(left, r, same, combine);
        RightRowsMembers(left, r, same, combine, t);
      }
      if InFullOuterJoin(t, left, right, same, combine) {
        if exists l, r :: l in left && r in right && same(l, r) && t == combine(Some(l), Some(r)) {
          var l, r :| l in left && r in right && same(l, r) && t == combine(Some(l), Some(r));
          LeftRowsMembers(l, right, same, combine, t);
        } else if exists l :: l in left && (forall r :: r in right ==> !same(l, r)) && t == combine(Some(l), None) {
          var l :| l in left && (forall r :: r in right ==> !same(l, r)) && t == combine(Some(l), None);
          LeftRowsMembers(l, right, same, combine, t);
        } else {
          var r :| r in right && (forall l :: l in left ==> !same(l, r)) && t == combine(None, Some(r));
          RightRowsMembers(left, r, same, combine, t);
        }
      }
    }
  }

  // ---------------------------------------------------------------------------------------
  // `WHERE` and `ORDER BY` without a limit, and the inner join `R JOIN L ON same(l, r)`
  // ---------------------------------------------------------------------------------------

  /**
   * `WHERE keep ORDER BY key`: every passing row exactly as often as in the table, no
   * other row, keys never decreasing.
   */
  lemma OrderedFilter<T>(table: seq<T>, keep: T -> bool, key: T -> int)
    ensures var r := SortBy(Filter(table, keep), key);
            && (forall x :: keep(x) ==> multiset(r)[x] == multiset(table)[x])
            && (forall x :: !keep(x) ==> multiset(r)[x] == 0)
            && SortedBy(r, key)
  {
    FilterCorrect(table, keep);
    SortByCorrect(Filter(table, keep), key);
  }

  /** A filter that passes no row of the sequence is empty. */
  lemma FilterNone<T>(s: seq<T>, keep: T -> bool)
    requires forall x :: x in s ==> !keep(x)
    ensures Filter(s, keep) == []
  {
    FilterCorrect(s, keep);
  }

  /** Filters that agree on every row of the sequence give the same rows. */
  lemma {:induction false} FilterAgree<T>(s: seq<T>, keep: T -> bool, keep': T -> bool)
    requires forall x :: x in s ==> keep(x) == keep'(x)
    ensures Filter(s, keep) == Filter(s, keep')
  {
    if s != [] {
      FilterAgree(s[..|s| - 1], keep, keep');
    }
  }

  /** The right rows of `L JOIN R`, left row by left row, each followed by its partners. */
  function Gather<L, R>(left: seq<L>, right: seq<R>, same: (L, R) -> bool): seq<R>
  {
    if left == [] then []
    else Gather(left[..|left| - 1], right, same) + Filter(right, PartnersOf(left[|left| - 1], same))
  }

  /** A right row is joined exactly when some left row is its partner. */
  lemma {:induction false} GatherMembers<L, R>(left: seq<L>, right: seq<R>, same: (L, R) -> bool, x: R)
    ensures x in Gather(left, right, same) <==> x in right && exists l :: l in left && same(l, x)
  {
    if left != [] {
      var front := left[..|left| - 1];
      var last := left[|left| - 1];
      GatherMembers(front, right, same, x);
      FilterMember(right, PartnersOf(last, same), x);
      assert left == front + [last];
      if x in right && (exists l :: l in left && same(l, x)) {
        var l :| l in left && same(l, x);
        if l != last {
          assert l in front;
        }
      }
    }
  }

  /** With no partners at all the join is empty. */
  lemma {:induction false} GatherNone<L, R>(left: seq<L>, right: seq<R>, same: (L, R) -> bool)
    requires forall l, r :: l in left && r in right ==> !same(l, r)
    ensures Gather(left, right, same) == []
  {
    if left != [] {
      var front := left[..|left| - 1];
      assert forall l :: l in front ==> l in left;
      GatherNone(front, right, same);
      FilterNone(right, PartnersOf(left[|left| - 1], same));
    }
  }

  /** When only `left[k]` has partners, the join is the filter by `left[k]`. */
  lemma {:induction false} GatherOne<L, R>(left: seq<L>, right: seq<R>, same: (L, R) -> bool, k: nat)
    requires k < |left|
    requires forall j, r :: 0 <= j < |left| && j != k && r in right ==> !same(left[j], r)
    ensures Gather(left, right, same) == Filter(right, PartnersOf(left[k], same))
  {
    var front := left[..|left| - 1];
    var last := left[|left| - 1];
    if k == |left| - 1 {
      forall l, r | l in front && r in right
        ensures !same(l, r)
      {
        var j :| 0 <= j < |front| && front[j] == l;
        assert left[j] == l;
      }
      GatherNone(front, right, same);
    } else {
      GatherOne(front, right, same, k);
      assert forall r :: r in right ==> !same(left[|left| - 1], r);
      FilterNone(right, PartnersOf(last, same));
    }
  }

  /** `R JOIN L ON same(l, r) ORDER BY key`: the joined right rows, keys never decreasing. */
  lemma OrderedGather<L, R>(left: seq<L>, right: seq<R>, same: (L, R) -> bool, key: R -> int, x: R)
    ensures x in SortBy(Gather(left, right, same), key) <==> x in right && exists l :: l in left && same(l, x)
    ensures SortedBy(SortBy(Gather(left, right, same), key), key)
  {
    var joined := Gather(left, right, same);
    GatherMembers(left, right, same, x);
    SortByCorrect(joined, key);
    assert x in joined <==> x in multiset(joined);
  }
}
