# HexTile coordinate core in Dafny

The model covers the integer part of the HexTile library:

- The `Hex` struct of `Runtime/Hex.cs`: axial coordinates `q` and `r`, plus the derived `s = -q - r`.
- Its constants, its three constructors and the tuple conversion.
- Its arithmetic operators, with C# truncating division.
- `Length`, `Distance` and `DistanceTo`.
- The two rotations, about the origin and about an anchor.
- The neighbour and diagonal tables, `NeighborCoord`, `Neighbor` and `Neighbors`.
- The two enumerations that build lists step by step: `Ring` and `Range`.
- The shape builders of `Runtime/Generation.cs`: `Parallelogram`, `Triangle`, `Hexagon`, `PointyRectangle` and `FlatRectangle`.
- The `Direction` enumeration of `Runtime/Direction.cs`.

## Files and modules

- `results.dfy`, module `Results`: the .NET exceptions the core can throw, as the `Error` values of a `Result`.
- `directions.dfy`, module `Directions`: `Direction` as a datatype, with `ToInt`/`FromInt` for `(int)d`, and the offsets written in the enum's doc comments.
- `linq.dfy`, module `Linq`: `Enumerable.Range` and the nested comprehension `Enumerable.Range(x0, n).SelectMany(x => Enumerable.Range(start(x), count(x)), …)`. The comprehension is modelled on `(int, int)` pairs, as the recursive function `SelectRange`. Its lemmas are proved by induction: when it throws, its length, its order, and exactly which pairs it yields.
- `hex.dfy`, module `Hexes`: the `Hex` value and everything in `Hex.cs` listed above.
  - `Ring` and `Range` are methods with loops, like the C# code. Each one is proved equal to a specification function (`RingHexes`, `RangeHexes`). Lemmas then state what those functions contain.
  - Everything else is pure functions and lemmas.
- `generation.dfy`, module `Generation`: the shape builders. Each one is a `Linq.SelectRange` comprehension, described by a lemma:
  - when it throws;
  - how many hexes it holds;
  - that they are distinct and in enumeration order;
  - exactly which hexes are members.

Conventions:

- An exception becomes `Err(e)`. Throwing `ArgumentException` is `InvalidArgument`, `Enumerable.Range` with a negative count is `ArgumentOutOfRange`, indexing the six-entry table out of bounds is `IndexOutOfRange`, and integer division by zero is `DivideByZero`.
- A list is a `seq`. The order of a list is stated as strict lexicographic increase (q-major or r-major). Together with a membership condition and a length, that determines the list exactly.
- C# `/` truncates toward zero, so it is modelled as `TruncDiv`. `>> 1` rounds toward negative infinity, so it is modelled as `ShiftRight1`, which is Dafny's `/ 2`.

### Behaviour of the code worth knowing

- **`Ring`** takes only a range. It throws `ArgumentException` for every `range <= 0`, and always starts at the BottomLeft corner, `self + NeighborsCoordinates[BottomLeft] * range` (`Ring`, `RingIsAClosedWalk`).
- **`Range(range)`** is not a filled hexagonal disk.
  - `Enumerable.Range` takes a start and a count, so the result is `range * range` hexes with `q` in `-range .. -1` and `s` in `1 .. range`.
  - It does not depend on the receiver (`RangeHexesExact`).
  - So `Hexagon(Hex.Zero, 1)`, which equals `Hexagon(1)` by the first ensures of `HexagonExact`, is the single hex `(-1, 0)` (`HexagonOfRadiusOne`).
- **`Triangle(pos, size)`**: the row count `size - x + 1` uses the absolute column `x`. So the builder throws whenever `size >= 0` and `pos.q > 1` (`TriangleAtExact`).
- **`Up`** has the same value as `Right` (`UpIsRight`).

## Model

| member | source | states |
|---|---|---|
| Directions.ToInt | Runtime/Direction.cs:3-22 | the underlying value of every member lies in 0..5 |
| Directions.FromInt | Runtime/Direction.cs:3-22 | for each of the values 0..5, a member that has exactly that value |
| Directions.ValuesAreExactlyZeroToFive | Runtime/Direction.cs:3-22 | the numbering is a bijection between the six members and 0..5 |
| Directions.DeclarationOrder | Runtime/Direction.cs:5-21 | BottomRight=0, TopRight=1, Top=2, TopLeft=3, BottomLeft=4, Bottom=5 |
| Directions.OppositeOffset | Runtime/Direction.cs:5-21 | the documented offset of direction (d+3)%6 is the negation of that of d |
| Linq.Range | Runtime/Hex.cs:114-116 | Enumerable.Range throws exactly for a negative count; otherwise it yields count consecutive values from start |
| Linq.SelectRangeOk | Runtime/Generation.cs:8-12 | with no negative row count, the comprehension succeeds with RowSum pairs, exactly the (x, y) of the rows, in lexicographic order |
| Linq.SelectRangeRejects | Runtime/Generation.cs:8-12 | a row that exists and has a negative count makes the whole comprehension throw ArgumentOutOfRange |
| Linq.SelectRangeOnlyThrowsOutOfRange | Runtime/Generation.cs:8-12 | ArgumentOutOfRange is the only exception the comprehension raises |
| Linq.RowSumConstant | Runtime/Generation.cs:8-12 | n rows of m entries hold n*m entries |
| Linq.RowSumDecreasing | Runtime/Generation.cs:16-20 | rows of a, a-1, …, a-n+1 entries hold n(2a-n+1)/2 |
| Hexes.CubeInvariant | Runtime/Hex.cs:30-32 | q + r + s == 0 for every hex |
| Hexes.FromCube | Runtime/Hex.cs:53-59 | new Hex(x, y, z) throws ArgumentException exactly when x+y+z != 0; otherwise q, r, s are x, y, z |
| Hexes.UpIsRight | Runtime/Hex.cs:15-16 | Up equals Right, (1, 0), and is not the Top offset (0, -1) |
| Hexes.LengthIsCubeNorm | Runtime/Hex.cs:34 | Length is exactly half of \|q\|+\|r\|+\|s\|, equals the largest of the three, and is 0 only at Zero |
| Hexes.LengthSubadditive | Runtime/Hex.cs:34 | the Length of a sum is at most the sum of the Lengths |
| Hexes.DistanceZeroIffEqual | Runtime/Hex.cs:142 | Distance is non-negative, and zero if and only if the hexes are equal |
| Hexes.DistanceSymmetric | Runtime/Hex.cs:142 | Distance(a, b) == Distance(b, a) |
| Hexes.DistanceTriangle | Runtime/Hex.cs:142 | Distance obeys the triangle inequality |
| Hexes.TruncDiv | Runtime/Hex.cs:161-164 | C# integer division: the magnitude is the floor of \|a\|/\|b\|, and the sign is the product of the signs |
| Hexes.TruncDivRoundsTowardZero | Runtime/Hex.cs:161-164 | -7/2 is -3 in C#, where Euclidean division gives -4; the signs of the other cases |
| Hexes.TruncDivOfProduct | Runtime/Hex.cs:161-164 | (a*k)/k == a under truncation, for k != 0 |
| Hexes.Div | Runtime/Hex.cs:161-162 | Hex / Hex throws DivideByZeroException exactly when a component of the divisor is zero |
| Hexes.DivScalar | Runtime/Hex.cs:163-164 | Hex / int throws DivideByZeroException exactly when the divisor is zero |
| Hexes.AddSubInverse | Runtime/Hex.cs:146-154 | + and - undo each other; + is commutative; Zero is neutral; a - a is Zero |
| Hexes.ScalarOperatorsBroadcast | Runtime/Hex.cs:146-164 | each int operator is the Hex operator applied to new Hex(i) |
| Hexes.MulDivInverse | Runtime/Hex.cs:156-164 | multiplying and then dividing by a divisor with no zero component gives the hex back |
| Hexes.RotationsInverse | Runtime/Hex.cs:63-65 | RotateLeft and RotateRight are mutual inverses and keep Length |
| Hexes.RotateLeftPowers | Runtime/Hex.cs:63-65 | three rotations negate, six left rotations are the identity |
| Hexes.RotateAroundFixesAnchor | Runtime/Hex.cs:64-66 | rotating about an anchor leaves the anchor in place |
| Hexes.RotateAroundInverse | Runtime/Hex.cs:64-66 | left and right rotation about the same anchor undo each other |
| Hexes.RotateAroundKeepsDistance | Runtime/Hex.cs:63-67 | rotating about an anchor keeps the distance to the anchor |
| Hexes.TableMatchesDirections | Runtime/Hex.cs:18-22 | NeighborsCoordinates[(int)d] is the offset documented on direction d |
| Hexes.TableLengths | Runtime/Hex.cs:18-28 | each neighbour offset has Length 1, each diagonal offset Length 2 |
| Hexes.NeighborTableOpposite | Runtime/Hex.cs:18-22 | the entry three places on is the negated entry |
| Hexes.NeighborTableRotations | Runtime/Hex.cs:18-22 | RotateLeft moves one entry forward round the table, RotateRight one entry back |
| Hexes.DiagonalIsSumOfNeighbors | Runtime/Hex.cs:24-28 | diagonal d is the sum of neighbour offsets d and d+1 |
| Hexes.NeighborTableIsUnitCircle | Runtime/Hex.cs:18-22 | the six offsets are distinct and are exactly the hexes of Length 1 |
| Hexes.NeighborCoord | Runtime/Hex.cs:69 | the table entry for 0..5; any other index throws IndexOutOfRangeException |
| Hexes.Neighbor | Runtime/Hex.cs:71 | the receiver plus the table entry; the same exception outside 0..5 |
| Hexes.NeighborIsAdjacent | Runtime/Hex.cs:67-71 | for a valid direction, the neighbour is at distance 1 |
| Hexes.NeighborReciprocal | Runtime/Hex.cs:69-71 | stepping in direction d and then in (d+3)%6 returns to the start |
| Hexes.NeighborsAreTheAdjacentHexes | Runtime/Hex.cs:36-43 | Neighbors holds Neighbor(0..5) in order: six distinct hexes, exactly those at distance 1 |
| Hexes.NeighborTopExample | Runtime/Hex.cs:69-71 | Hex(1, 0).Neighbor(Top) is Hex(1, -1) |
| Hexes.Ring | Runtime/Hex.cs:73-91 | throws ArgumentException for range <= 0; otherwise the loops build exactly RingHexes(self, range) |
| Hexes.RingIsTheCircle | Runtime/Hex.cs:73-91 | the ring has 6R distinct hexes, which are exactly the hexes at distance R from the receiver |
| Hexes.RingIsAClosedWalk | Runtime/Hex.cs:78-88 | the ring starts at self + BottomLeft*R; each hex, and the last one wrapping to the first, is a neighbour of the next |
| Hexes.RingHexesStep | Runtime/Hex.cs:81-88 | consecutive ring hexes are at distance 1 |
| Hexes.FromPairsFacts | Runtime/Hex.cs:144 | converting (q, r) tuples keeps membership, and turns lexicographic pair order into distinct q-major order |
| Hexes.Range | Runtime/Hex.cs:111-123 | the nested foreach builds exactly RangeHexes(range); a negative range throws ArgumentOutOfRangeException |
| Hexes.RangeHexesExact | Runtime/Hex.cs:111-123 | as written: range*range distinct q-major hexes with q in -range..-1 and s in 1..range; it throws for a negative range |
| Hexes.TranslateFacts | Runtime/Hex.cs:125-126 | adding an offset to every entry keeps the order and distinctness, and shifts membership |
| Hexes.RangeWithOffsetExact | Runtime/Hex.cs:125-126 | Range(range, offset) is Range(range) shifted by offset entry by entry: same length, distinct, shifted membership |
| Generation.ShiftRight1 | Runtime/Generation.cs:30 | y >> 1 is the floor of y/2, also for negative y |
| Generation.ShiftRightIsNotTruncation | Runtime/Generation.cs:30 | -3 >> 1 is -2 while -3 / 2 is -1 in C# |
| Generation.OffsetRowCountIsWidth | Runtime/Generation.cs:30-33 | the row count right - yOffset - start + 1 is right - left + 1 for every row |
| Generation.GridFacts | Runtime/Generation.cs:8-12 | a comprehension of equal rows throws exactly for a negative outer count, or a negative row count when some row exists |
| Generation.ParallelogramExact | Runtime/Generation.cs:8-12 | when it throws; otherwise the (max.q-min.q+1)(max.r-min.r+1) distinct hexes of the box, q-major |
| Generation.TriangleAtExact | Runtime/Generation.cs:16-20 | throws exactly when size < -1, or size >= 0 and pos.q > 1; otherwise (size+1)(size+2-2pos.q)/2 distinct hexes with pos.q <= q <= pos.q+size and pos.r <= r <= pos.r+size-q |
| Generation.TriangleExact | Runtime/Generation.cs:14-20 | Triangle(size) throws only for size < -1; otherwise (size+1)(size+2)/2 distinct hexes with q, r >= 0 and q+r <= size |
| Generation.TriangleAtColumnTwoThrows | Runtime/Generation.cs:16-20 | Triangle(Hex(2, 0), 0) throws, while Triangle(0) does not |
| Generation.HexagonExact | Runtime/Generation.cs:22-24 | Hexagon(pos, radius) does not depend on pos; it is Range(radius) as described above, and lacks the origin for radius > 0 |
| Generation.HexagonOfRadiusOne | Runtime/Generation.cs:22 | Hexagon(1) is the single hex (-1, 0) |
| Generation.FromSwappedPairsFacts | Runtime/Generation.cs:35 | the selector (y, x) => new Hex(x, y) keeps membership with the roles exchanged, and gives distinct r-major order |
| Generation.PointyRectangleExact | Runtime/Generation.cs:26-36 | when it throws; otherwise (bottom-top+1)(right-left+1) distinct hexes, r-major, exactly top <= r <= bottom and left-(r>>1) <= q <= right-(r>>1) |
| Generation.FlatRectangleExact | Runtime/Generation.cs:38-48 | when it throws; otherwise (right-left+1)(bottom-top+1) distinct hexes, q-major, exactly left <= q <= right and top-(q>>1) <= r <= bottom-(q>>1) |

## Left out

- `Round`, `LineTo` and the `Layout`/`Orientation` pixel conversions work in floating point, which the model does not cover.
- `ToString` only formats text.
- The editor and MonoBehaviour components are only glue around the library.
- `WraparoundMirrors` is called from `Runtime/SimpleGrid.cs:33` but is not defined in `Runtime/Hex.cs`, so it is not part of this model.
- 32-bit `int` overflow is not modelled: coordinates, counts and products are unbounded integers, so every contract holds only while the C# arithmetic does not wrap. In particular, `Enumerable.Range` also throws `ArgumentOutOfRangeException` when `start + count - 1` exceeds `int.MaxValue`. `Linq.Range` and everything built on it omit that case: their "throws exactly for a negative count" holds over unbounded integers.
- `NeighborsCoordinates` and `DiagonalCoordinates` are public mutable static arrays in C#. The model treats them as constants.
- `Neighbors` returns a fresh `List<Hex>` in C#. The model returns a sequence, with no allocation or aliasing.
- Hexes.NeighborCoord: modelled without its receiver, which the C# instance method does not read.
- Hexes.Div: the contract pins down only when division throws. The quotient is described through `TruncDiv`'s contract and `MulDivInverse`, not by a separate formula.
- Hexes.DivScalar: likewise, the contract pins down only when division throws. The quotient is described through `TruncDiv`'s contract, `ScalarOperatorsBroadcast` (which equates it with `Div` by `new Hex(k)`) and `MulDivInverse`.
- Hexes.Range: the receiver is a parameter that is not read, as in the C# code.
- Linq.SelectRange: LINQ's deferred execution is reduced to its one visible effect here. A negative inner count throws only for an outer element that exists, and the exception surfaces as the result of the whole `ToList()`.
