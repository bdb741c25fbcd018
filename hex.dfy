/**
 * Runtime/Hex.cs: the axial hex coordinate, its algebra, the neighbour tables,
 * and the Ring and Range enumerations.
 */
module Hexes {
  import opened Results
  import opened Directions
  import Linq

  /** An axial coordinate; the cube coordinate s is derived, never stored. */
  datatype Hex = Hex(q: int, r: int)

  /** The derived cube coordinate `s = -q - r`. */
  function S(h: Hex): int
  {
    -h.q - h.r
  }

  /** Every hex satisfies the cube invariant q + r + s == 0. */
  lemma CubeInvariant(h: Hex)
    ensures h.q + h.r + S(h) == 0
  {
  }

  function Abs(x: int): nat { if x < 0 then -x else x }
  function Max(a: int, b: int): int { if a < b then b else a }
  function Min(a: int, b: int): int { if a < b then a else b }

  // ---------------------------------------------------------------- constructors

  /** `new Hex(v)`: both axial coordinates set to v. */
  function FromValue(v: int): Hex { Hex(v, v) }

  /** The implicit conversion from a C# `(int, int)` tuple. */
  function FromTuple(t: (int, int)): Hex { Hex(t.0, t.1) }

  /** `new Hex(x, y, z)`: throws ArgumentException unless the cube coordinates sum to zero. */
  function FromCube(x: int, y: int, z: int): (h: Result<Hex>)
    ensures h.Err? <==> x + y + z != 0
    ensures h.Err? ==> h.error == InvalidArgument
    ensures h.Ok? ==> h.value.q == x && h.value.r == y && S(h.value) == z
  {
    if x + y + z != 0 then Err(InvalidArgument) else Ok(Hex(x, y))
  }

  const Zero: Hex := Hex(0, 0)  // `(0, 0)` through the tuple conversion
  const One: Hex := Hex(1, 1)
  const Right: Hex := Hex(1, 0)
  const Up: Hex := Hex(1, 0)

  /** The source gives `Up` the same value as `Right`. */
  lemma UpIsRight()
    ensures Up == Right && Up != Hex(0, -1)
  {
  }

  // ---------------------------------------------------------------- length and distance

  /** The cube length, `(|q| + |r| + |s|) / 2`. */
  function Length(h: Hex): int
  {
    (Abs(h.q) + Abs(h.r) + Abs(S(h))) / 2
  }

  /**
   * The sum of the absolute cube coordinates is even, so Length is exactly half of it;
   * it is also the largest absolute coordinate, and zero only at the origin.
   */
  lemma LengthIsCubeNorm(h: Hex)
    ensures 2 * Length(h) == Abs(h.q) + Abs(h.r) + Abs(S(h))
    ensures Length(h) == Max(Max(Abs(h.q), Abs(h.r)), Abs(S(h)))
    ensures Length(h) == 0 <==> h == Zero
  {
    var m := Max(Max(Abs(h.q), Abs(h.r)), Abs(S(h)));
    assert Abs(h.q) + Abs(h.r) + Abs(S(h)) == 2 * m;
  }

  function Distance(a: Hex, b: Hex): int { Length(Sub(a, b)) }

  function DistanceTo(h: Hex, other: Hex): int { Distance(h, other) }

  lemma AbsTriangle(a: int, b: int)
    ensures Abs(a + b) <= Abs(a) + Abs(b)
  {
  }

  /** The length of a sum is at most the sum of the lengths. */
  lemma LengthSubadditive(x: Hex, y: Hex)
    ensures Length(Add(x, y)) <= Length(x) + Length(y)
  {
    LengthIsCubeNorm(x);
    LengthIsCubeNorm(y);
    LengthIsCubeNorm(Add(x, y));
    AbsTriangle(x.q, y.q);
    AbsTriangle(x.r, y.r);
    AbsTriangle(S(x), S(y));
    assert S(Add(x, y)) == S(x) + S(y);
  }

  lemma SubIsZero(a: Hex, b: Hex)
    ensures Sub(a, b) == Zero <==> a == b
  {
  }

  /** Distance is never negative, and is zero exactly between equal hexes. */
  lemma DistanceZeroIffEqual(a: Hex, b: Hex)
    ensures Distance(a, b) >= 0
    ensures Distance(a, b) == 0 <==> a == b
  {
    LengthIsCubeNorm(Sub(a, b));
    SubIsZero(a, b);
  }

  /** Distance does not depend on the order of its arguments. */
  lemma DistanceSymmetric(a: Hex, b: Hex)
    ensures Distance(a, b) == Distance(b, a)
  {
    assert Abs(S(Sub(b, a))) == Abs(S(Sub(a, b)));
  }

  /** Going through a third hex is never shorter. */
  lemma DistanceTriangle(a: Hex, b: Hex, c: Hex)
    ensures Distance(a, c) <= Distance(a, b) + Distance(b, c)
  {
    assert Sub(a, c) == Add(Sub(a, b), Sub(b, c));
    LengthSubadditive(Sub(a, b), Sub(b, c));
  }

  // ---------------------------------------------------------------- operators

  function Add(a: Hex, b: Hex): Hex { Hex(a.q + b.q, a.r + b.r) }
  function AddScalar(h: Hex, i: int): Hex { Hex(h.q + i, h.r + i) }
  function Sub(a: Hex, b: Hex): Hex { Hex(a.q - b.q, a.r - b.r) }
  function SubScalar(h: Hex, i: int): Hex { Hex(h.q - i, h.r - i) }
  function Mul(a: Hex, b: Hex): Hex { Hex(a.q * b.q, a.r * b.r) }
  function MulScalar(h: Hex, k: int): Hex { Hex(h.q * k, h.r * k) }

  /**
   * C# integer division: the quotient is truncated toward zero, so its magnitude is
   * the largest d with |d| * |b| <= |a|, and its sign is the product of the operands' signs.
   */
  function TruncDiv(a: int, b: int): (d: int)
    requires b != 0
    ensures Abs(d) * Abs(b) <= Abs(a) < Abs(d) * Abs(b) + Abs(b)
    ensures d != 0 ==> (d < 0 <==> (a < 0) != (b < 0))
  {
    var m := Abs(a) / Abs(b);
    EuclideanBounds(Abs(a), Abs(b));
    if (a < 0) == (b < 0) then m else -m
  }

  lemma EuclideanBounds(a: nat, b: int)
    requires b > 0
    ensures (a / b) * b <= a < (a / b) * b + b
  {
  }

  /** Truncation differs from Dafny's Euclidean division on negative dividends. */
  lemma TruncDivRoundsTowardZero()
    ensures TruncDiv(-7, 2) == -3 && -7 / 2 == -4
    ensures TruncDiv(7, -2) == -3 && TruncDiv(-7, -2) == 3
  {
  }

  lemma AbsOfProduct(a: int, k: int)
    ensures Abs(a * k) == Abs(a) * Abs(k)
  {
    if a < 0 && k < 0 { assert a * k == (-a) * (-k); }
    else if a < 0 { assert -(a * k) == (-a) * k; }
    else if k < 0 { assert -(a * k) == a * (-k); }
  }

  lemma SmallMultipleIsZero(k: int, t: int)
    requires k > 0 && 0 <= k * t < k
    ensures t == 0
  {
  }

  lemma ExactQuotient(a: nat, k: int)
    requires k > 0
    ensures (a * k) / k == a
  {
    var q, r := (a * k) / k, (a * k) % k;
    assert a * k == k * q + r;
    assert k * (a - q) == r;
    SmallMultipleIsZero(k, a - q);
  }

  /** Dividing a product by a non-zero factor gives the other factor back. */
  lemma TruncDivOfProduct(a: int, k: int)
    requires k != 0
    ensures TruncDiv(a * k, k) == a
  {
    AbsOfProduct(a, k);
    ExactQuotient(Abs(a), Abs(k));
    assert Abs(a * k) / Abs(k) == Abs(a);
    if a != 0 {
      assert a * k < 0 <==> (a < 0) != (k < 0);
    }
  }

  /** `a / b`: throws DivideByZeroException when either component of `b` is zero. */
  function Div(a: Hex, b: Hex): (h: Result<Hex>)
    ensures h.Err? <==> b.q == 0 || b.r == 0
    ensures h.Err? ==> h.error == DivideByZero
  {
    if b.q == 0 || b.r == 0 then Err(DivideByZero) else Ok(Hex(TruncDiv(a.q, b.q), TruncDiv(a.r, b.r)))
  }

  /** `h / k`: throws DivideByZeroException when k is zero. */
  function DivScalar(h: Hex, k: int): (d: Result<Hex>)
    ensures d.Err? <==> k == 0
    ensures d.Err? ==> d.error == DivideByZero
  {
    if k == 0 then Err(DivideByZero) else Ok(Hex(TruncDiv(h.q, k), TruncDiv(h.r, k)))
  }

  /** Addition and subtraction undo each other, and Zero is neutral. */
  lemma AddSubInverse(a: Hex, b: Hex)
    ensures Sub(Add(a, b), b) == a && Add(Sub(a, b), b) == a
    ensures Add(a, b) == Add(b, a) && Add(a, Zero) == a && Sub(a, a) == Zero
  {
  }

  /** Each scalar operator is its Hex operator applied to `new Hex(i)`, i.e. i on both q and r. */
  lemma ScalarOperatorsBroadcast(h: Hex, i: int)
    ensures AddScalar(h, i) == Add(h, FromValue(i)) && AddScalar(h, i).q == h.q + i && AddScalar(h, i).r == h.r + i
    ensures SubScalar(h, i) == Sub(h, FromValue(i)) && SubScalar(h, i) == AddScalar(h, -i)
    ensures MulScalar(h, i) == Mul(h, FromValue(i))
    ensures DivScalar(h, i) == Div(h, FromValue(i))
  {
  }

  /** Multiplying and then dividing by a non-zero factor is the identity, with C# truncation. */
  lemma MulDivInverse(h: Hex, k: int, b: Hex)
    requires k != 0 && b.q != 0 && b.r != 0
    ensures DivScalar(MulScalar(h, k), k) == Ok(h)
    ensures Div(Mul(h, b), b) == Ok(h)
  {
    TruncDivOfProduct(h.q, k);
    TruncDivOfProduct(h.r, k);
    TruncDivOfProduct(h.q, b.q);
    TruncDivOfProduct(h.r, b.r);
  }

  // ---------------------------------------------------------------- rotations

  /** (q, r, s) -> (-s, -q, -r): one sixth of a turn. */
  function RotateLeft(h: Hex): Hex { Hex(-S(h), -h.q) }

  /** (q, r, s) -> (-r, -s, -q): one sixth of a turn the other way. */
  function RotateRight(h: Hex): Hex { Hex(-h.r, -S(h)) }

  function RotateLeftAround(h: Hex, anchor: Hex): Hex { Add(RotateLeft(Sub(h, anchor)), anchor) }

  function RotateRightAround(h: Hex, anchor: Hex): Hex { Add(RotateRight(Sub(h, anchor)), anchor) }

  /** The two rotations are mutual inverses and keep the length. */
  lemma RotationsInverse(h: Hex)
    ensures RotateRight(RotateLeft(h)) == h && RotateLeft(RotateRight(h)) == h
    ensures Length(RotateLeft(h)) == Length(h) && Length(RotateRight(h)) == Length(h)
  {
  }

  /** Three left rotations negate, six are the identity. */
  lemma RotateLeftPowers(h: Hex)
    ensures RotateLeft(RotateLeft(RotateLeft(h))) == MulScalar(h, -1)
    ensures RotateLeft(RotateLeft(RotateLeft(RotateLeft(RotateLeft(RotateLeft(h)))))) == h
    ensures RotateRight(RotateRight(RotateRight(h))) == MulScalar(h, -1)
  {
  }

  /** Rotating about an anchor fixes the anchor. */
  lemma RotateAroundFixesAnchor(anchor: Hex)
    ensures RotateLeftAround(anchor, anchor) == anchor && RotateRightAround(anchor, anchor) == anchor
  {
  }

  /** Rotating about an anchor is undone by the other rotation about it. */
  lemma RotateAroundInverse(h: Hex, anchor: Hex)
    ensures RotateRightAround(RotateLeftAround(h, anchor), anchor) == h
    ensures RotateLeftAround(RotateRightAround(h, anchor), anchor) == h
  {
    var d := Sub(h, anchor);
    var left, right := RotateLeft(d), RotateRight(d);
    assert Sub(Add(left, anchor), anchor) == left;
    assert Sub(Add(right, anchor), anchor) == right;
    assert RotateRight(left) == d && RotateLeft(right) == d;
  }

  /** Rotating about an anchor keeps the distance to the anchor. */
  lemma RotateAroundKeepsDistance(h: Hex, anchor: Hex)
    ensures DistanceTo(RotateLeftAround(h, anchor), anchor) == DistanceTo(h, anchor)
    ensures DistanceTo(RotateRightAround(h, anchor), anchor) == DistanceTo(h, anchor)
  {
    var d := Sub(h, anchor);
    var left, right := RotateLeft(d), RotateRight(d);
    assert Sub(Add(left, anchor), anchor) == left;
    assert Sub(Add(right, anchor), anchor) == right;
    RotationsInverse(d);
  }

  // ---------------------------------------------------------------- neighbour tables

  /** The six unit offsets, indexed by the Direction values. */
  const NeighborsCoordinates: seq<Hex> :=
    [Hex(1, 0), Hex(1, -1), Hex(0, -1), Hex(-1, 0), Hex(-1, 1), Hex(0, 1)]

  /** The six offsets of length two between neighbouring directions. */
  const DiagonalCoordinates: seq<Hex> :=
    [Hex(2, -1), Hex(1, -2), Hex(-1, -1), Hex(-2, 1), Hex(-1, 2), Hex(1, 1)]

  /** Entry `(int)d` of the table is the offset documented for direction d. */
  lemma TableMatchesDirections(d: Direction)
    ensures |NeighborsCoordinates| == 6
    ensures NeighborsCoordinates[ToInt(d)] == FromTuple(Offset(d))
  {
    match d
    case BottomRight =>
    case TopRight =>
    case Top =>
    case TopLeft =>
    case BottomLeft =>
    case Bottom =>
  }

  /** Each neighbour offset has length one and each diagonal offset length two. */
  lemma TableLengths(d: int)
    requires 0 <= d < 6
    ensures Length(NeighborsCoordinates[d]) == 1
    ensures Length(DiagonalCoordinates[d]) == 2
  {
    if d == 0 {} else if d == 1 {} else if d == 2 {} else if d == 3 {} else if d == 4 {} else { assert d == 5; }
  }

  /** The offset three steps round the table is the negation. */
  lemma NeighborTableOpposite(d: int)
    requires 0 <= d < 6
    ensures NeighborsCoordinates[(d + 3) % 6] == MulScalar(NeighborsCoordinates[d], -1)
  {
    if d == 0 {} else if d == 1 {} else if d == 2 {} else if d == 3 {} else if d == 4 {} else { assert d == 5; }
  }

  /** RotateLeft moves one step forward round the table, RotateRight one step back. */
  lemma NeighborTableRotations(d: int)
    requires 0 <= d < 6
    ensures RotateLeft(NeighborsCoordinates[d]) == NeighborsCoordinates[(d + 1) % 6]
    ensures RotateRight(NeighborsCoordinates[d]) == NeighborsCoordinates[(d + 5) % 6]
  {
    if d == 0 { assert (d + 1) % 6 == 1 && (d + 5) % 6 == 5; }
    else if d == 1 { assert (d + 1) % 6 == 2 && (d + 5) % 6 == 0; }
    else if d == 2 { assert (d + 1) % 6 == 3 && (d + 5) % 6 == 1; }
    else if d == 3 { assert (d + 1) % 6 == 4 && (d + 5) % 6 == 2; }
    else if d == 4 { assert (d + 1) % 6 == 5 && (d + 5) % 6 == 3; }
    else { assert d == 5 && (d + 1) % 6 == 0 && (d + 5) % 6 == 4; }
  }

  /** Each diagonal offset is the sum of two consecutive neighbour offsets. */
  lemma DiagonalIsSumOfNeighbors(d: int)
    requires 0 <= d < 6
    ensures DiagonalCoordinates[d] == Add(NeighborsCoordinates[d], NeighborsCoordinates[(d + 1) % 6])
  {
    if d == 0 { assert (d + 1) % 6 == 1; }
    else if d == 1 { assert (d + 1) % 6 == 2; }
    else if d == 2 { assert (d + 1) % 6 == 3; }
    else if d == 3 { assert (d + 1) % 6 == 4; }
    else if d == 4 { assert (d + 1) % 6 == 5; }
    else { assert d == 5 && (d + 1) % 6 == 0; }
  }

  /** Position of a unit offset in the table. */
  function UnitIndex(o: Hex): (d: int)
    requires Length(o) == 1
    ensures 0 <= d < 6 && NeighborsCoordinates[d] == o
  {
    if o == Hex(1, 0) then 0
    else if o == Hex(1, -1) then 1
    else if o == Hex(0, -1) then 2
    else if o == Hex(-1, 0) then 3
    else if o == Hex(-1, 1) then 4
    else 5
  }

  /** The table holds six different offsets and every hex of length one is among them. */
  lemma NeighborTableIsUnitCircle()
    ensures forall i, j :: 0 <= i < j < 6 ==> NeighborsCoordinates[i] != NeighborsCoordinates[j]
    ensures forall o :: o in NeighborsCoordinates <==> Length(o) == 1
  {
    forall o | Length(o) == 1 ensures o in NeighborsCoordinates {
      assert NeighborsCoordinates[UnitIndex(o)] == o;
    }
    forall o | o in NeighborsCoordinates ensures Length(o) == 1 {
      var d :| 0 <= d < 6 && NeighborsCoordinates[d] == o;
      TableLengths(d);
    }
  }

  /** `NeighborCoord(direction)`: the table entry; an index outside 0..5 throws. */
  function NeighborCoord(direction: int): (c: Result<Hex>)
    ensures c.Ok? <==> 0 <= direction < 6
    ensures c.Err? ==> c.error == IndexOutOfRange
    ensures c.Ok? ==> c.value == NeighborsCoordinates[direction]
  {
    if 0 <= direction < 6 then
      Ok(NeighborsCoordinates[direction])
    else Err(IndexOutOfRange)
  }

  /** `Neighbor(direction)`: the adjacent hex in that direction. */
  function Neighbor(h: Hex, direction: int): (n: Result<Hex>)
    ensures n.Ok? <==> 0 <= direction < 6
    ensures n.Err? ==> n.error == IndexOutOfRange
    ensures n.Ok? ==> n.value == Add(h, NeighborsCoordinates[direction])
  {
    match NeighborCoord(direction)
    case Err(e) => Err(e)
    case Ok(c) => Ok(Add(h, c))
  }

  /** For a valid direction the offset has length one and the neighbour is at distance one. */
  lemma NeighborIsAdjacent(h: Hex, d: int)
    requires 0 <= d < 6
    ensures Length(NeighborCoord(d).value) == 1
    ensures DistanceTo(h, Neighbor(h, d).value) == 1
  {
    TableLengths(d);
    var c := NeighborsCoordinates[d];
    assert Sub(h, Add(h, c)) == MulScalar(c, -1);
    LengthIsCubeNorm(c);
    LengthIsCubeNorm(MulScalar(c, -1));
  }

  /** Stepping in a direction and then in the opposite one comes back. */
  lemma NeighborReciprocal(h: Hex, d: int)
    requires 0 <= d < 6
    ensures Neighbor(Neighbor(h, d).value, (d + 3) % 6) == Ok(h)
  {
    NeighborTableOpposite(d);
  }

  /** `Neighbors`: the receiver plus each table entry, in table order. */
  function Neighbors(h: Hex): seq<Hex>
  {
    seq(6, i requires 0 <= i < 6 => Add(h, NeighborsCoordinates[i]))
  }

  /** Neighbors lists Neighbor(0..5) in order, six different hexes, exactly those at distance one. */
  lemma NeighborsAreTheAdjacentHexes(h: Hex)
    ensures |Neighbors(h)| == 6
    ensures forall i :: 0 <= i < 6 ==> Neighbor(h, i) == Ok(Neighbors(h)[i])
    ensures forall i, j :: 0 <= i < j < 6 ==> Neighbors(h)[i] != Neighbors(h)[j]
    ensures forall g :: g in Neighbors(h) <==> Distance(h, g) == 1
  {
    NeighborTableIsUnitCircle();
    forall g: Hex ensures g in Neighbors(h) <==> Distance(h, g) == 1 {
      var o := Sub(g, h);
      assert Distance(h, g) == Length(o) by { DistanceSymmetric(h, g); }
      if Length(o) == 1 {
        assert Neighbors(h)[UnitIndex(o)] == g;
      }
      if g in Neighbors(h) {
        var i :| 0 <= i < 6 && Neighbors(h)[i] == g;
        assert o == NeighborsCoordinates[i];
      }
    }
  }

  /** `Hex(1, 0).Neighbor(Direction.Top)` is `Hex(1, -1)`. */
  lemma NeighborTopExample()
    ensures Neighbor(Hex(1, 0), ToInt(Top)) == Ok(Hex(1, -1))
  {
  }

  // ---------------------------------------------------------------- Ring

  /**
   * Offset of the k-th hex of the ring of radius R from its centre, for k in 0..6R:
   * side i (k in [iR, (i+1)R)) is walked along NeighborsCoordinates[i], starting from
   * the BottomLeft corner (-R, R); position 6R is that corner again.
   */
  function RingOffset(R: int, k: int): Hex
    requires R > 0 && 0 <= k <= 6 * R
  {
    if k < R then Hex(k - R, R)
    else if k < 2 * R then Hex(k - R, 2 * R - k)
    else if k < 3 * R then Hex(R, 2 * R - k)
    else if k < 4 * R then Hex(4 * R - k, -R)
    else if k < 5 * R then Hex(4 * R - k, k - 5 * R)
    else Hex(-R, k - 5 * R)
  }

  /** Position on the ring of an offset of length R: the inverse of RingOffset. */
  function RingIndex(R: int, o: Hex): (k: int)
    requires R > 0 && Length(o) == R
    ensures 0 <= k < 6 * R && RingOffset(R, k) == o
  {
    if o.r == R && o.q < 0 then o.q + R
    else if S(o) == -R && 0 <= o.q < R then R + o.q
    else if o.q == R && o.r > -R then 2 * R - o.r
    else if o.r == -R && o.q > 0 then 4 * R - o.q
    else if S(o) == R && -R < o.q <= 0 then 4 * R - o.q
    else 5 * R + o.r
  }

  /** Every ring offset has length R, and RingIndex recovers its position. */
  lemma RingOffsetOnCircle(R: int, k: int)
    requires R > 0 && 0 <= k < 6 * R
    ensures Length(RingOffset(R, k)) == R
    ensures RingIndex(R, RingOffset(R, k)) == k
  {
  }

  /** Walking side i one step along NeighborsCoordinates[i] moves to the next ring position. */
  lemma RingStep(R: int, i: int, j: int)
    requires R > 0 && 0 <= i < 6 && 0 <= j < R
    ensures i * R + j < 6 * R
    ensures RingOffset(R, i * R + j + 1) == Add(RingOffset(R, i * R + j), NeighborsCoordinates[i])
  {
    if i == 0 { assert i * R == 0; }
    else if i == 1 { assert i * R == R; }
    else if i == 2 { assert i * R == 2 * R; }
    else if i == 3 { assert i * R == 3 * R; }
    else if i == 4 { assert i * R == 4 * R; }
    else { assert i * R == 5 * R; }
  }

  /** The list Ring(range) builds when range > 0. */
  function RingHexes(center: Hex, R: int): seq<Hex>
    requires R > 0
  {
    seq(6 * R, k requires 0 <= k < 6 * R => Add(center, RingOffset(R, k)))
  }

  /**
   * `Ring(range)`: throws ArgumentException for range <= 0; otherwise walks the six
   * sides from the BottomLeft corner, recording each hex before stepping.
   */
  method Ring(self: Hex, range: int) returns (res: Result<seq<Hex>>)
    ensures range <= 0 ==> res == Err(InvalidArgument)
    ensures range > 0 ==> res == Ok(RingHexes(self, range))
  {
    if range <= 0 {
      return Err(InvalidArgument);
    }
    var hex := Add(self, MulScalar(NeighborsCoordinates[ToInt(BottomLeft)], range));
    var hexes: seq<Hex> := [];
    for i := 0 to |NeighborsCoordinates|
      invariant |hexes| == i * range
      invariant hexes == RingHexes(self, range)[..i * range]
      invariant hex == Add(self, RingOffset(range, i * range))
    {
      var dir := NeighborsCoordinates[i];
      for j := 0 to range
        invariant |hexes| == i * range + j
        invariant hexes == RingHexes(self, range)[..i * range + j]
        invariant hex == Add(self, RingOffset(range, i * range + j))
      {
        RingStep(range, i, j);
        hexes := hexes + [hex];
        hex := Add(hex, dir);
      }
      assert i * range + range == (i + 1) * range;
    }
    assert hexes == RingHexes(self, range);
    return Ok(hexes);
  }

  /** The ring has 6R different hexes, all at distance R from the centre, and every such hex is on it. */
  lemma RingIsTheCircle(center: Hex, R: int)
    requires R > 0
    ensures |RingHexes(center, R)| == 6 * R
    ensures forall k :: 0 <= k < 6 * R ==> DistanceTo(center, RingHexes(center, R)[k]) == R
    ensures forall i, j :: 0 <= i < j < 6 * R ==> RingHexes(center, R)[i] != RingHexes(center, R)[j]
    ensures forall g :: g in RingHexes(center, R) <==> DistanceTo(center, g) == R
  {
    var ring := RingHexes(center, R);
    forall k | 0 <= k < 6 * R ensures DistanceTo(center, ring[k]) == R {
      RingOffsetOnCircle(R, k);
      assert Sub(center, ring[k]) == MulScalar(RingOffset(R, k), -1);
    }
    forall i, j | 0 <= i < j < 6 * R ensures ring[i] != ring[j] {
      RingOffsetOnCircle(R, i);
      RingOffsetOnCircle(R, j);
      assert Sub(ring[i], center) == RingOffset(R, i);
      assert Sub(ring[j], center) == RingOffset(R, j);
    }
    forall g: Hex ensures g in ring <==> DistanceTo(center, g) == R {
      DistanceSymmetric(g, center);
      if DistanceTo(center, g) == R {
        assert ring[RingIndex(R, Sub(g, center))] == g;
      }
      if g in ring {
        var k :| 0 <= k < 6 * R && ring[k] == g;
        RingOffsetOnCircle(R, k);
        assert Sub(g, center) == RingOffset(R, k);
      }
    }
  }

  /** The ring starts at the BottomLeft offset scaled by R, and its hexes form a closed chain of neighbours. */
  lemma RingIsAClosedWalk(center: Hex, R: int)
    requires R > 0
    ensures RingHexes(center, R)[0] == Add(center, MulScalar(FromTuple(Offset(BottomLeft)), R))
    ensures forall k :: 0 <= k < 6 * R - 1 ==> Distance(RingHexes(center, R)[k], RingHexes(center, R)[k + 1]) == 1
    ensures Distance(RingHexes(center, R)[6 * R - 1], RingHexes(center, R)[0]) == 1
  {
    var ring := RingHexes(center, R);
    forall k | 0 <= k < 6 * R - 1 ensures Distance(ring[k], ring[k + 1]) == 1 {
      RingHexesStep(center, R, k);
    }
    RingStep(R, 5, R - 1);
    assert RingOffset(R, 6 * R) == RingOffset(R, 0);
    NeighborIsAdjacent(ring[6 * R - 1], 5);
  }

  /** Consecutive hexes of the ring are neighbours: position k + 1 is position k plus the side's offset. */
  lemma RingHexesStep(center: Hex, R: int, k: int)
    requires R > 0 && 0 <= k < 6 * R - 1
    ensures Distance(RingHexes(center, R)[k], RingHexes(center, R)[k + 1]) == 1
  {
    var i, j := SideOf(R, k);
    RingStep(R, i, j);
    var o := RingOffset(R, k);
    assert RingOffset(R, k + 1) == Add(o, NeighborsCoordinates[i]);
    var h := Add(center, o);
    assert RingHexes(center, R)[k] == h;
    assert RingHexes(center, R)[k + 1] == Add(h, NeighborsCoordinates[i]);
    NeighborIsAdjacent(h, i);
  }

  /** The side and the step along it of ring position k. */
  lemma SideOf(R: int, k: int) returns (i: int, j: int)
    requires R > 0 && 0 <= k < 6 * R
    ensures 0 <= i < 6 && 0 <= j < R && k == i * R + j
  {
    i, j := k / R, k % R;
  }

  // ---------------------------------------------------------------- Range

  /** The C# tuple conversion applied to each pair. */
  function FromPairs(ps: seq<(int, int)>): (hs: seq<Hex>)
    ensures |hs| == |ps|
  {
    seq(|ps|, i requires 0 <= i < |ps| => FromTuple(ps[i]))
  }

  predicate Distinct(hs: seq<Hex>)
  {
    forall i, j :: 0 <= i < j < |hs| ==> hs[i] != hs[j]
  }

  /** Strictly increasing with q as the major and r as the minor key. */
  predicate QMajorIncreasing(hs: seq<Hex>)
  {
    forall i, j :: 0 <= i < j < |hs| ==> hs[i].q < hs[j].q || (hs[i].q == hs[j].q && hs[i].r < hs[j].r)
  }

  /** Converting pairs keeps their order and membership, reading (q, r) from (first, second). */
  lemma FromPairsFacts(ps: seq<(int, int)>)
    ensures forall h :: h in FromPairs(ps) <==> (h.q, h.r) in ps
    ensures Linq.LexIncreasing(ps) ==> QMajorIncreasing(FromPairs(ps)) && Distinct(FromPairs(ps))
  {
    var hs := FromPairs(ps);
    forall h: Hex ensures h in hs <==> (h.q, h.r) in ps {
      if h in hs {
        var i :| 0 <= i < |hs| && hs[i] == h;
        assert ps[i] == (h.q, h.r);
      }
      if (h.q, h.r) in ps {
        var i :| 0 <= i < |ps| && ps[i] == (h.q, h.r);
        assert hs[i] == h;
      }
    }
  }

  function RangeRowStart(range: int): int -> int { x => Max(-range, -x - range) }

  function RangeRowCount(range: int): int -> int { x => Min(range, range - x) }

  /**
   * The list Range(range) builds: x over Enumerable.Range(-range, range), that is
   * -range..-1, and y over Enumerable.Range(Max(-range, -x - range), Min(range, range - x)).
   */
  function RangeHexes(range: int): Result<seq<Hex>>
  {
    match Linq.SelectRange(-range, range, RangeRowStart(range), RangeRowCount(range))
    case Err(e) => Err(e)
    case Ok(ps) => Ok(FromPairs(ps))
  }

  /**
   * `Range(range)`: the nested foreach over two Enumerable.Range sequences, appending
   * `(x, y)` to a list. The receiver is not used.
   */
  method Range(self: Hex, range: int) returns (res: Result<seq<Hex>>)
    ensures res == RangeHexes(range)
  {
    if range < 0 {
      // Enumerable.Range(-range, range) rejects the negative count
      return Err(ArgumentOutOfRange);
    }
    var start, count := RangeRowStart(range), RangeRowCount(range);
    var hexes: seq<Hex> := [];
    ghost var pairs: seq<(int, int)> := [];
    for i := 0 to range
      invariant Linq.SelectRange(-range, i, start, count).Ok?
      invariant pairs == Linq.SelectRange(-range, i, start, count).value
      invariant hexes == FromPairs(pairs)
    {
      var x := -range + i;
      var rowStart, rowCount := Max(-range, -x - range), Min(range, range - x);
      ghost var ys := Linq.Range(rowStart, rowCount).value;
      for j := 0 to rowCount
        invariant pairs == Linq.SelectRange(-range, i, start, count).value + Linq.PairWith(x, ys)[..j]
        invariant hexes == FromPairs(pairs)
      {
        assert Linq.PairWith(x, ys)[..j + 1] == Linq.PairWith(x, ys)[..j] + [(x, rowStart + j)];
        pairs := pairs + [(x, rowStart + j)];
        hexes := hexes + [FromTuple((x, rowStart + j))];
      }
      assert Linq.PairWith(x, ys)[..rowCount] == Linq.PairWith(x, ys);
    }
    return Ok(hexes);
  }

  /**
   * As written, Range(range) is not a disk: for range >= 0 it is the range * range hexes
   * with q in -range..-1 and s in 1..range, in q-major order; a negative range throws.
   */
  lemma RangeHexesExact(range: int)
    ensures range < 0 ==> RangeHexes(range) == Err(ArgumentOutOfRange)
    ensures range >= 0 ==> RangeHexes(range).Ok?
    ensures range >= 0 ==> |RangeHexes(range).value| == range * range
    ensures range >= 0 ==> QMajorIncreasing(RangeHexes(range).value) && Distinct(RangeHexes(range).value)
    ensures range >= 0 ==> forall h :: h in RangeHexes(range).value <==> -range <= h.q <= -1 && 1 <= S(h) <= range
  {
    if range >= 0 {
      var start, count := RangeRowStart(range), RangeRowCount(range);
      forall x | -range <= x < -range + range ensures start(x) == -x - range && count(x) == range {
        assert start(x) == Max(-range, -x - range) && count(x) == Min(range, range - x);
      }
      Linq.SelectRangeOk(-range, range, start, count);
      Linq.RowSumConstant(-range, range, count, range);
      var ps := Linq.SelectRange(-range, range, start, count).value;
      FromPairsFacts(ps);
      forall h: Hex ensures (h.q, h.r) in ps <==> -range <= h.q <= -1 && 1 <= S(h) <= range {
        assert (h.q, h.r) in ps <==> Linq.InRows(-range, range, start, count, (h.q, h.r));
      }
    }
  }

  /** Each hex plus the offset. */
  function Translate(hs: seq<Hex>, offset: Hex): (ts: seq<Hex>)
    ensures |ts| == |hs|
  {
    seq(|hs|, i requires 0 <= i < |hs| => Add(hs[i], offset))
  }

  /** `Range(range, offset)`: Range(range) with the offset added to every entry. */
  function RangeWithOffset(range: int, offset: Hex): Result<seq<Hex>>
  {
    match RangeHexes(range)
    case Err(e) => Err(e)
    case Ok(hs) => Ok(Translate(hs, offset))
  }

  /** Translating keeps the order entry by entry, keeps distinctness, and shifts membership. */
  lemma TranslateFacts(hs: seq<Hex>, offset: Hex)
    ensures forall i :: 0 <= i < |hs| ==> Translate(hs, offset)[i] == Add(hs[i], offset)
    ensures Distinct(hs) ==> Distinct(Translate(hs, offset))
    ensures forall h :: h in Translate(hs, offset) <==> Sub(h, offset) in hs
  {
    var ts := Translate(hs, offset);
    forall h: Hex ensures h in ts <==> Sub(h, offset) in hs {
      if h in ts {
        var i :| 0 <= i < |ts| && ts[i] == h;
        assert hs[i] == Sub(h, offset);
      }
      if Sub(h, offset) in hs {
        var i :| 0 <= i < |hs| && hs[i] == Sub(h, offset);
        assert ts[i] == h;
      }
    }
    if Distinct(hs) {
      forall i, j | 0 <= i < j < |ts| ensures ts[i] != ts[j] {
        assert hs[i] != hs[j];
      }
    }
  }

  /** Range(range, offset) is Range(range) shifted entry by entry: same length, distinct, shifted membership. */
  lemma RangeWithOffsetExact(range: int, offset: Hex)
    ensures RangeWithOffset(range, offset).Err? <==> range < 0
    ensures range >= 0 ==> |RangeWithOffset(range, offset).value| == range * range
    ensures range >= 0 ==> forall i :: 0 <= i < range * range ==>
      RangeWithOffset(range, offset).value[i] == Add(RangeHexes(range).value[i], offset)
    ensures range >= 0 ==> Distinct(RangeWithOffset(range, offset).value)
    ensures range >= 0 ==> forall h :: h in RangeWithOffset(range, offset).value <==>
      -range <= h.q - offset.q <= -1 && 1 <= S(h) - S(offset) <= range
  {
    RangeHexesExact(range);
    if range >= 0 {
      var hs := RangeHexes(range).value;
      TranslateFacts(hs, offset);
      forall h: Hex ensures Sub(h, offset) in hs <==> -range <= h.q - offset.q <= -1 && 1 <= S(h) - S(offset) <= range {
        assert S(Sub(h, offset)) == S(h) - S(offset);
      }
    }
  }
}
