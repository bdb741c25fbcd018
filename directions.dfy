/** Runtime/Direction.cs: the six neighbour directions and their integer values. */
module Directions {

  datatype Direction = BottomRight | TopRight | Top | TopLeft | BottomLeft | Bottom

  /** The enum's underlying value, `(int)d`. */
  function ToInt(d: Direction): (n: int)
    ensures 0 <= n < 6
  {
    match d
    case BottomRight => 0
    case TopRight => 1
    case Top => 2
    case TopLeft => 3
    case BottomLeft => 4
    case Bottom => 5
  }

  /** The member whose value is `n`, for the six values the enum declares. */
  function FromInt(n: int): (d: Direction)
    requires 0 <= n < 6
    ensures ToInt(d) == n
  {
    if n == 0 then BottomRight
    else if n == 1 then TopRight
    else if n == 2 then Top
    else if n == 3 then TopLeft
    else if n == 4 then BottomLeft
    else Bottom
  }

  /** The axial offset `(q, r)` written in each member's doc comment. */
  function Offset(d: Direction): (int, int)
  {
    match d
    case BottomRight => (1, 0)
    case TopRight => (1, -1)
    case Top => (0, -1)
    case TopLeft => (-1, 0)
    case BottomLeft => (-1, 1)
    case Bottom => (0, 1)
  }

  /** The numbering is a bijection between the six members and 0..5. */
  lemma ValuesAreExactlyZeroToFive()
    ensures forall d :: FromInt(ToInt(d)) == d
    ensures forall d, e :: ToInt(d) == ToInt(e) ==> d == e
    ensures forall n :: 0 <= n < 6 ==> ToInt(FromInt(n)) == n
  {
    forall d ensures FromInt(ToInt(d)) == d {
      match d
      case BottomRight =>
      case TopRight =>
      case Top =>
      case TopLeft =>
      case BottomLeft =>
      case Bottom =>
    }
  }

  /** Members are numbered in declaration order. */
  lemma DeclarationOrder()
    ensures ToInt(BottomRight) == 0 && ToInt(TopRight) == 1 && ToInt(Top) == 2
    ensures ToInt(TopLeft) == 3 && ToInt(BottomLeft) == 4 && ToInt(Bottom) == 5
  {
  }

  /** Going three steps round the hex gives the opposite offset. */
  lemma OppositeOffset(d: Direction)
    ensures Offset(FromInt((ToInt(d) + 3) % 6)) == (-Offset(d).0, -Offset(d).1)
  {
    match d
    case BottomRight =>
    case TopRight =>
    case Top =>
    case TopLeft =>
    case BottomLeft =>
    case Bottom =>
  }
}
