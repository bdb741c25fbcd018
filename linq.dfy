/**
 * The part of System.Linq the core relies on: Enumerable.Range and the nested
 * comprehension `Enumerable.Range(x0, n).SelectMany(x => Enumerable.Range(start(x), count(x)),
 * (x, y) => (x, y))`, yielding the pairs (outer, inner) in enumeration order.
 */
module Linq {
  import opened Results

  /** Enumerable.Range(start, count): `count` consecutive integers from `start`. */
  function Range(start: int, count: int): (r: Result<seq<int>>)
    ensures r.Err? <==> count < 0
    ensures r.Err? ==> r.error == ArgumentOutOfRange
    ensures r.Ok? ==> |r.value| == count && forall j :: 0 <= j < count ==> r.value[j] == start + j
  {
    if count < 0 then Err(ArgumentOutOfRange) else Ok(seq(count, j => start + j))
  }

  /** Pairs every element of `ys` with `x`, as SelectMany's result selector does. */
  function PairWith(x: int, ys: seq<int>): seq<(int, int)>
  {
    seq(|ys|, j requires 0 <= j < |ys| => (x, ys[j]))
  }

  /**
   * Rows x0, ..., x0+n-1 of the comprehension, each row x holding (x, start(x)), ...,
   * (x, start(x)+count(x)-1). An inner Range with a negative count rejects the whole
   * enumeration, but only for rows that exist: with n == 0 no inner Range is evaluated.
   */
  function SelectRange(x0: int, n: int, start: int -> int, count: int -> int): Result<seq<(int, int)>>
    decreases if n < 0 then 0 else n
  {
    if n < 0 then Err(ArgumentOutOfRange)
    else if n == 0 then Ok([])
    else
      match SelectRange(x0, n - 1, start, count)
      case Err(e) => Err(e)
      case Ok(prefix) =>
        match Range(start(x0 + n - 1), count(x0 + n - 1))
        case Err(e) => Err(e)
        case Ok(ys) => Ok(prefix + PairWith(x0 + n - 1, ys))
  }

  /** Total number of inner elements over rows x0, ..., x0+n-1. */
  function RowSum(x0: int, n: nat, count: int -> int): int
  {
    if n == 0 then 0 else RowSum(x0, n - 1, count) + count(x0 + n - 1)
  }

  /** `p` is one of the pairs the comprehension enumerates. */
  predicate InRows(x0: int, n: int, start: int -> int, count: int -> int, p: (int, int))
  {
    x0 <= p.0 < x0 + n && start(p.0) <= p.1 < start(p.0) + count(p.0)
  }

  /** Strictly increasing in lexicographic (outer, inner) order; in particular no pair twice. */
  predicate LexIncreasing(ps: seq<(int, int)>)
  {
    forall i, j :: 0 <= i < j < |ps| ==> ps[i].0 < ps[j].0 || (ps[i].0 == ps[j].0 && ps[i].1 < ps[j].1)
  }

  /**
   * When no row count is negative the comprehension succeeds, yields RowSum elements,
   * exactly the pairs InRows describes, outer index first and inner ascending.
   */
  lemma {:induction false} SelectRangeOk(x0: int, n: int, start: int -> int, count: int -> int)
    requires n >= 0
    requires forall x :: x0 <= x < x0 + n ==> count(x) >= 0
    ensures SelectRange(x0, n, start, count).Ok?
    ensures |SelectRange(x0, n, start, count).value| == RowSum(x0, n, count)
    ensures LexIncreasing(SelectRange(x0, n, start, count).value)
    ensures forall p :: p in SelectRange(x0, n, start, count).value <==> InRows(x0, n, start, count, p)
  {
    if n > 0 {
      var x := x0 + n - 1;
      SelectRangeOk(x0, n - 1, start, count);
      var prefix := SelectRange(x0, n - 1, start, count).value;
      var ys := Range(start(x), count(x)).value;
      var row := PairWith(x, ys);
      var all := prefix + row;
      assert SelectRange(x0, n, start, count) == Ok(all);
      forall p ensures p in row <==> p.0 == x && start(x) <= p.1 < start(x) + count(x) {
        if p.0 == x && start(x) <= p.1 < start(x) + count(x) {
          assert row[p.1 - start(x)] == p;
        }
      }
      forall p ensures p in all <==> InRows(x0, n, start, count, p) {
        assert p in all <==> p in prefix || p in row;
      }
      forall i, j | 0 <= i < j < |all|
        ensures all[i].0 < all[j].0 || (all[i].0 == all[j].0 && all[i].1 < all[j].1)
      {
        if j < |prefix| {
          assert all[i] == prefix[i] && all[j] == prefix[j];
        } else if i < |prefix| {
          assert all[i] == prefix[i] && prefix[i] in prefix;
          assert all[j] == row[j - |prefix|];
        } else {
          assert all[i] == row[i - |prefix|] && all[j] == row[j - |prefix|];
        }
      }
    }
  }

  /** A row that exists and has a negative count makes the whole comprehension throw. */
  lemma {:induction false} SelectRangeRejects(x0: int, n: int, start: int -> int, count: int -> int, i: int)
    requires 0 <= i < n && count(x0 + i) < 0
    ensures SelectRange(x0, n, start, count) == Err(ArgumentOutOfRange)
  {
    if i < n - 1 {
      SelectRangeRejects(x0, n - 1, start, count, i);
    } else {
      assert x0 + i == x0 + n - 1;
      match SelectRange(x0, n - 1, start, count)
      case Err(e) =>
        SelectRangeOnlyThrowsOutOfRange(x0, n - 1, start, count);
      case Ok(_) =>
    }
  }

  /** The only exception the comprehension can raise is ArgumentOutOfRange. */
  lemma {:induction false} SelectRangeOnlyThrowsOutOfRange(x0: int, n: int, start: int -> int, count: int -> int)
    ensures SelectRange(x0, n, start, count).Err? ==> SelectRange(x0, n, start, count).error == ArgumentOutOfRange
  {
    if n > 0 {
      SelectRangeOnlyThrowsOutOfRange(x0, n - 1, start, count);
    }
  }

  /** Rows of one common length m add up to n * m elements. */
  lemma {:induction false} RowSumConstant(x0: int, n: nat, count: int -> int, m: int)
    requires forall x :: x0 <= x < x0 + n ==> count(x) == m
    ensures RowSum(x0, n, count) == n * m
  {
    if n > 0 {
      RowSumConstant(x0, n - 1, count, m);
    }
  }

  /** Rows of lengths a, a-1, ..., a-n+1 add up to n(2a - n + 1)/2 elements. */
  lemma {:induction false} RowSumDecreasing(x0: int, n: nat, count: int -> int, a: int)
    requires forall x :: x0 <= x < x0 + n ==> count(x) == a - (x - x0)
    ensures 2 * RowSum(x0, n, count) == n * (2 * a - n + 1)
  {
    if n > 0 {
      RowSumDecreasing(x0, n - 1, count, a);
    }
  }
}
