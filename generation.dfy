/**
 * The static shape builders of Generation.cs. Each one is a nested Enumerable.Range
 * comprehension (Linq.SelectRange) whose pairs become hexes; an inner or outer range of
 * negative length throws ArgumentOutOfRangeException, modelled as Err(ArgumentOutOfRange).
 */
module Generation {
  import opened Results
  import opened Hexes
  import Linq

  // ---------------------------------------------------------------- row descriptions

  /** A row description that is the same for every outer index. */
  function ConstRow(v: int): int -> int { x => v }

  /** `v >> 1` on a C# int: arithmetic shift, which rounds toward negative infinity. */
  function ShiftRight1(v: int): (half: int)
    ensures 2 * half <= v < 2 * half + 2
  {
    v / 2
  }

  /** `>> 1` and `/ 2` differ on negative odd values: -3 >> 1 is -2, while -3 / 2 is -1 in C#. */
  lemma ShiftRightIsNotTruncation()
    ensures ShiftRight1(-3) == -2 && TruncDiv(-3, 2) == -1
    ensures ShiftRight1(3) == 1 && TruncDiv(3, 2) == 1
  {
  }

  /** First inner value of the offset rectangles: `lo - (v >> 1)`. */
  function OffsetRowStart(lo: int): int -> int { v => lo - ShiftRight1(v) }

  /**
   * Inner count of the offset rectangles as written, `hi - (v >> 1) - start + 1`
   * with `start = lo - (v >> 1)`.
   */
  function OffsetRowCount(lo: int, hi: int): int -> int
  {
    v => hi - ShiftRight1(v) - (lo - ShiftRight1(v)) + 1
  }

  /** The shift cancels: every row of an offset rectangle has hi - lo + 1 entries. */
  lemma OffsetRowCountIsWidth(lo: int, hi: int, v: int)
    ensures OffsetRowCount(lo, hi)(v) == hi - lo + 1
  {
  }

  /** Triangle's inner count, `size - x + 1`, taken at the absolute column x. */
  function TriangleRowCount(size: int): int -> int { x => size - x + 1 }

  // ---------------------------------------------------------------- comprehensions with equal rows

  /**
   * A comprehension whose n rows all have m entries: it throws exactly when n is negative,
   * or when some row exists and m is negative; otherwise it holds n * m pairs, sorted, and
   * exactly those the rows describe.
   */
  lemma GridFacts(x0: int, n: int, start: int -> int, count: int -> int, m: int)
    requires forall x :: x0 <= x < x0 + n ==> count(x) == m
    ensures Linq.SelectRange(x0, n, start, count).Err? <==> n < 0 || (n > 0 && m < 0)
    ensures Linq.SelectRange(x0, n, start, count).Err? ==>
      Linq.SelectRange(x0, n, start, count).error == ArgumentOutOfRange
    ensures Linq.SelectRange(x0, n, start, count).Ok? ==>
      |Linq.SelectRange(x0, n, start, count).value| == n * m &&
      Linq.LexIncreasing(Linq.SelectRange(x0, n, start, count).value) &&
      forall p :: p in Linq.SelectRange(x0, n, start, count).value <==>
        x0 <= p.0 < x0 + n && start(p.0) <= p.1 < start(p.0) + m
  {
    if n > 0 && m < 0 {
      Linq.SelectRangeRejects(x0, n, start, count, 0);
    } else if n >= 0 {
      Linq.SelectRangeOk(x0, n, start, count);
      Linq.RowSumConstant(x0, n, count, m);
      var ps := Linq.SelectRange(x0, n, start, count).value;
      forall p ensures p in ps <==> x0 <= p.0 < x0 + n && start(p.0) <= p.1 < start(p.0) + m {
        assert p in ps <==> Linq.InRows(x0, n, start, count, p);
      }
    }
  }

  // ---------------------------------------------------------------- Parallelogram

  /** `Parallelogram(min, max)`: q from min.q to max.q, and r from min.r to max.r within each q. */
  function Parallelogram(min: Hex, max: Hex): Result<seq<Hex>>
  {
    match Linq.SelectRange(min.q, max.q - min.q + 1, ConstRow(min.r), ConstRow(max.r - min.r + 1))
    case Err(e) => Err(e)
    case Ok(ps) => Ok(FromPairs(ps))
  }

  /**
   * Parallelogram throws when the q extent is negative, or when it is positive and the r
   * extent is negative; otherwise it lists every hex of the box once, q-major, r ascending.
   */
  lemma ParallelogramExact(min: Hex, max: Hex)
    ensures Parallelogram(min, max).Err? <==>
      max.q - min.q + 1 < 0 || (max.q - min.q + 1 > 0 && max.r - min.r + 1 < 0)
    ensures Parallelogram(min, max).Err? ==> Parallelogram(min, max).error == ArgumentOutOfRange
    ensures Parallelogram(min, max).Ok? ==>
      |Parallelogram(min, max).value| == (max.q - min.q + 1) * (max.r - min.r + 1)
    ensures Parallelogram(min, max).Ok? ==>
      QMajorIncreasing(Parallelogram(min, max).value) && Distinct(Parallelogram(min, max).value)
    ensures Parallelogram(min, max).Ok? ==> forall h :: h in Parallelogram(min, max).value <==>
      min.q <= h.q <= max.q && min.r <= h.r <= max.r
  {
    var n, m := max.q - min.q + 1, max.r - min.r + 1;
    var start, count := ConstRow(min.r), ConstRow(m);
    forall x | min.q <= x < min.q + n ensures count(x) == m && start(x) == min.r {
    }
    GridFacts(min.q, n, start, count, m);
    if Parallelogram(min, max).Ok? {
      var ps := Linq.SelectRange(min.q, n, start, count).value;
      FromPairsFacts(ps);
      forall h: Hex ensures (h.q, h.r) in ps <==> min.q <= h.q <= max.q && min.r <= h.r <= max.r {
        assert start(h.q) == min.r;
      }
    }
  }

  // ---------------------------------------------------------------- Triangle

  /** `Triangle(pos, size)`: columns pos.q .. pos.q+size, column x holding r = pos.r .. pos.r+size-x. */
  function TriangleAt(pos: Hex, size: int): Result<seq<Hex>>
  {
    match Linq.SelectRange(pos.q, size + 1, ConstRow(pos.r), TriangleRowCount(size))
    case Err(e) => Err(e)
    case Ok(ps) => Ok(FromPairs(ps))
  }

  /** `Triangle(size)`: the triangle at Hex.Zero. */
  function Triangle(size: int): Result<seq<Hex>>
  {
    TriangleAt(Zero, size)
  }

  /**
   * The row count uses the absolute column, so Triangle(pos, size) throws when size < -1,
   * and also when size >= 0 and pos.q > 1 (the last column's count 1 - pos.q is negative).
   * Otherwise it lists the hexes with pos.q <= q <= pos.q+size and pos.r <= r <= pos.r+size-q,
   * q-major, (size+1)(size+2-2 pos.q)/2 of them.
   */
  lemma TriangleAtExact(pos: Hex, size: int)
    ensures TriangleAt(pos, size).Err? <==> size < -1 || (size >= 0 && pos.q > 1)
    ensures TriangleAt(pos, size).Err? ==> TriangleAt(pos, size).error == ArgumentOutOfRange
    ensures TriangleAt(pos, size).Ok? ==>
      2 * |TriangleAt(pos, size).value| == (size + 1) * (size + 2 - 2 * pos.q)
    ensures TriangleAt(pos, size).Ok? ==>
      QMajorIncreasing(TriangleAt(pos, size).value) && Distinct(TriangleAt(pos, size).value)
    ensures TriangleAt(pos, size).Ok? ==> forall h :: h in TriangleAt(pos, size).value <==>
      pos.q <= h.q <= pos.q + size && pos.r <= h.r <= pos.r + size - h.q
  {
    var n := size + 1;
    var start, count := ConstRow(pos.r), TriangleRowCount(size);
    if n < 0 {
    } else if n > 0 && pos.q > 1 {
      assert count(pos.q + (n - 1)) == 1 - pos.q;
      Linq.SelectRangeRejects(pos.q, n, start, count, n - 1);
    } else {
      forall x | pos.q <= x < pos.q + n
        ensures count(x) == (size - pos.q + 1) - (x - pos.q) && count(x) >= 0 && start(x) == pos.r
      {
      }
      Linq.SelectRangeOk(pos.q, n, start, count);
      Linq.RowSumDecreasing(pos.q, n, count, size - pos.q + 1);
      var ps := Linq.SelectRange(pos.q, n, start, count).value;
      FromPairsFacts(ps);
      forall h: Hex ensures (h.q, h.r) in ps <==>
        pos.q <= h.q <= pos.q + size && pos.r <= h.r <= pos.r + size - h.q
      {
        assert (h.q, h.r) in ps <==> Linq.InRows(pos.q, n, start, count, (h.q, h.r));
      }
    }
  }

  /**
   * Triangle(size) throws only for size < -1; otherwise it holds the (size+1)(size+2)/2
   * hexes with q >= 0, r >= 0 and q + r <= size, q-major.
   */
  lemma TriangleExact(size: int)
    ensures Triangle(size).Err? <==> size < -1
    ensures Triangle(size).Err? ==> Triangle(size).error == ArgumentOutOfRange
    ensures Triangle(size).Ok? ==> 2 * |Triangle(size).value| == (size + 1) * (size + 2)
    ensures Triangle(size).Ok? ==> QMajorIncreasing(Triangle(size).value) && Distinct(Triangle(size).value)
    ensures Triangle(size).Ok? ==> forall h :: h in Triangle(size).value <==>
      h.q >= 0 && h.r >= 0 && h.q + h.r <= size
  {
    TriangleAtExact(Zero, size);
  }

  /** A triangle placed at column 2 throws, even though the same size at the origin does not. */
  lemma TriangleAtColumnTwoThrows()
    ensures TriangleAt(Hex(2, 0), 0) == Err(ArgumentOutOfRange)
    ensures Triangle(0).Ok?
  {
    TriangleAtExact(Hex(2, 0), 0);
    TriangleExact(0);
  }

  // ---------------------------------------------------------------- Hexagon

  /** `Hexagon(radius)`: Hex.Zero.Range(radius). */
  function Hexagon(radius: int): Result<seq<Hex>>
  {
    RangeHexes(radius)
  }

  /** `Hexagon(pos, radius)`: pos.Range(radius), which does not read pos. */
  function HexagonAt(pos: Hex, radius: int): Result<seq<Hex>>
  {
    RangeHexes(radius)
  }

  /**
   * As written the hexagon does not depend on its centre, and it is the radius * radius
   * hexes with q in -radius..-1 and s in 1..radius; for radius > 0 the origin is not in it.
   */
  lemma HexagonExact(pos: Hex, radius: int)
    ensures HexagonAt(pos, radius) == Hexagon(radius)
    ensures Hexagon(radius).Err? <==> radius < 0
    ensures Hexagon(radius).Err? ==> Hexagon(radius).error == ArgumentOutOfRange
    ensures radius >= 0 ==> |Hexagon(radius).value| == radius * radius
    ensures radius >= 0 ==> forall h :: h in Hexagon(radius).value <==> -radius <= h.q <= -1 && 1 <= S(h) <= radius
    ensures radius > 0 ==> Zero !in Hexagon(radius).value
  {
    RangeHexesExact(radius);
  }

  /** Hexagon(1) is the single hex (-1, 0), not the origin and its six neighbours. */
  lemma HexagonOfRadiusOne()
    ensures Hexagon(1) == Ok([Hex(-1, 0)])
  {
    RangeHexesExact(1);
    var v := Hexagon(1).value;
    assert Hex(-1, 0) in v;
    assert v[0] == Hex(-1, 0);
    assert v == [Hex(-1, 0)];
  }

  // ---------------------------------------------------------------- offset rectangles

  /** Strictly increasing with r as the major and q as the minor key. */
  predicate RMajorIncreasing(hs: seq<Hex>)
  {
    forall i, j :: 0 <= i < j < |hs| ==> hs[i].r < hs[j].r || (hs[i].r == hs[j].r && hs[i].q < hs[j].q)
  }

  /** PointyRectangle's result selector `(y, x) => new Hex(x, y)`: the outer value is r. */
  function FromSwappedPairs(ps: seq<(int, int)>): (hs: seq<Hex>)
    ensures |hs| == |ps|
  {
    seq(|ps|, i requires 0 <= i < |ps| => Hex(ps[i].1, ps[i].0))
  }

  /** Swapping keeps membership (with the roles exchanged) and turns pair order into r-major order. */
  lemma FromSwappedPairsFacts(ps: seq<(int, int)>)
    ensures forall h :: h in FromSwappedPairs(ps) <==> (h.r, h.q) in ps
    ensures Linq.LexIncreasing(ps) ==> RMajorIncreasing(FromSwappedPairs(ps)) && Distinct(FromSwappedPairs(ps))
  {
    var hs := FromSwappedPairs(ps);
    forall h: Hex ensures h in hs <==> (h.r, h.q) in ps {
      if h in hs {
        var i :| 0 <= i < |hs| && hs[i] == h;
        assert ps[i] == (h.r, h.q);
      }
      if (h.r, h.q) in ps {
        var i :| 0 <= i < |ps| && ps[i] == (h.r, h.q);
        assert hs[i] == h;
      }
    }
  }

  /**
   * `PointyRectangle(left, right, top, bottom)`: rows y = top .. bottom, row y holding
   * q = left - (y >> 1) .. right - (y >> 1); each (y, x) becomes Hex(x, y).
   */
  function PointyRectangle(left: int, right: int, top: int, bottom: int): Result<seq<Hex>>
  {
    match Linq.SelectRange(top, bottom - top + 1, OffsetRowStart(left), OffsetRowCount(left, right))
    case Err(e) => Err(e)
    case Ok(ps) => Ok(FromSwappedPairs(ps))
  }

  /**
   * PointyRectangle throws when there are fewer than zero rows, or some rows and a negative
   * width; otherwise it lists (bottom-top+1)(right-left+1) different hexes, row by row in
   * ascending r and q, exactly those with top <= r <= bottom and
   * left - (r >> 1) <= q <= right - (r >> 1).
   */
  lemma PointyRectangleExact(left: int, right: int, top: int, bottom: int)
    ensures PointyRectangle(left, right, top, bottom).Err? <==>
      bottom - top + 1 < 0 || (bottom - top + 1 > 0 && right - left + 1 < 0)
    ensures PointyRectangle(left, right, top, bottom).Err? ==>
      PointyRectangle(left, right, top, bottom).error == ArgumentOutOfRange
    ensures PointyRectangle(left, right, top, bottom).Ok? ==>
      |PointyRectangle(left, right, top, bottom).value| == (bottom - top + 1) * (right - left + 1)
    ensures PointyRectangle(left, right, top, bottom).Ok? ==>
      RMajorIncreasing(PointyRectangle(left, right, top, bottom).value) &&
      Distinct(PointyRectangle(left, right, top, bottom).value)
    ensures PointyRectangle(left, right, top, bottom).Ok? ==>
      forall h :: h in PointyRectangle(left, right, top, bottom).value <==>
        top <= h.r <= bottom && left - ShiftRight1(h.r) <= h.q <= right - ShiftRight1(h.r)
  {
    var n, m := bottom - top + 1, right - left + 1;
    var start, count := OffsetRowStart(left), OffsetRowCount(left, right);
    forall y | top <= y < top + n ensures count(y) == m {
      OffsetRowCountIsWidth(left, right, y);
    }
    GridFacts(top, n, start, count, m);
    if PointyRectangle(left, right, top, bottom).Ok? {
      var ps := Linq.SelectRange(top, n, start, count).value;
      FromSwappedPairsFacts(ps);
      forall h: Hex ensures (h.r, h.q) in ps <==>
        top <= h.r <= bottom && left - ShiftRight1(h.r) <= h.q <= right - ShiftRight1(h.r)
      {
        assert start(h.r) == left - ShiftRight1(h.r);
      }
    }
  }

  /**
   * `FlatRectangle(left, right, top, bottom)`: columns x = left .. right, column x holding
   * r = top - (x >> 1) .. bottom - (x >> 1); each (x, y) becomes Hex(x, y).
   */
  function FlatRectangle(left: int, right: int, top: int, bottom: int): Result<seq<Hex>>
  {
    match Linq.SelectRange(left, right - left + 1, OffsetRowStart(top), OffsetRowCount(top, bottom))
    case Err(e) => Err(e)
    case Ok(ps) => Ok(FromPairs(ps))
  }

  /**
   * FlatRectangle throws when there are fewer than zero columns, or some columns and a
   * negative height; otherwise it lists (right-left+1)(bottom-top+1) different hexes, column
   * by column in ascending q and r, exactly those with left <= q <= right and
   * top - (q >> 1) <= r <= bottom - (q >> 1).
   */
  lemma FlatRectangleExact(left: int, right: int, top: int, bottom: int)
    ensures FlatRectangle(left, right, top, bottom).Err? <==>
      right - left + 1 < 0 || (right - left + 1 > 0 && bottom - top + 1 < 0)
    ensures FlatRectangle(left, right, top, bottom).Err? ==>
      FlatRectangle(left, right, top, bottom).error == ArgumentOutOfRange
    ensures FlatRectangle(left, right, top, bottom).Ok? ==>
      |FlatRectangle(left, right, top, bottom).value| == (right - left + 1) * (bottom - top + 1)
    ensures FlatRectangle(left, right, top, bottom).Ok? ==>
      QMajorIncreasing(FlatRectangle(left, right, top, bottom).value) &&
      Distinct(FlatRectangle(left, right, top, bottom).value)
    ensures FlatRectangle(left, right, top, bottom).Ok? ==>
      forall h :: h in FlatRectangle(left, right, top, bottom).value <==>
        left <= h.q <= right && top - ShiftRight1(h.q) <= h.r <= bottom - ShiftRight1(h.q)
  {
    var n, m := right - left + 1, bottom - top + 1;
    var start, count := OffsetRowStart(top), OffsetRowCount(top, bottom);
    forall x | left <= x < left + n ensures count(x) == m {
      OffsetRowCountIsWidth(top, bottom, x);
    }
    GridFacts(left, n, start, count, m);
    if FlatRectangle(left, right, top, bottom).Ok? {
      var ps := Linq.SelectRange(left, n, start, count).value;
      FromPairsFacts(ps);
      forall h: Hex ensures (h.q, h.r) in ps <==>
        left <= h.q <= right && top - ShiftRight1(h.q) <= h.r <= bottom - ShiftRight1(h.q)
      {
        assert start(h.q) == top - ShiftRight1(h.q);
      }
    }
  }
}
