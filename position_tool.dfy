/** Grid arithmetic of the FieldRunner world
    (src/Neat.Trainer/Simulations/FieldRunner/Services/PositionTool.cs):
    row-major cell indexes, turning, and the rays a pika looks or moves along. */
module PositionTool {
  import opened Wrappers
  import opened IntArith

  datatype Point = Point(x: int, y: int)
  datatype Size = Size(width: int, height: int)
  datatype Direction = Up | Right | Down | Left
  datatype Move = MoveLeft | Forward | MoveRight

  /** C# integer division truncates toward zero. */
  function CDiv(a: int, b: int): int
    requires b != 0
  {
    var q := (if a < 0 then -a else a) / (if b < 0 then -b else b);
    if (a < 0) != (b < 0) then -q else q
  }

  /** C# remainder takes the sign of the dividend. */
  function CRem(a: int, b: int): int
    requires b != 0
  {
    a - b * CDiv(a, b)
  }

  /** On a non-negative dividend and a positive divisor the C# operators
      agree with Euclidean division. */
  lemma CDivNonNegative(a: int, b: int)
    requires 0 <= a && 0 < b
    ensures CDiv(a, b) == a / b && CRem(a, b) == a % b
  {
  }

  /** IndexToPosition: x is the remainder and y the quotient of the index by
      the width; a zero width divides by zero. */
  function IndexToPosition(index: int, worldSize: Size): (r: Result<Point>)
    ensures r.Failure? <==> worldSize.width == 0
    ensures r.Success? ==> r.value.y * worldSize.width + r.value.x == index
  {
    if worldSize.width == 0 then Failure(DivideByZero)
    else Success(Point(CRem(index, worldSize.width), CDiv(index, worldSize.width)))
  }

  predicate InBounds(p: Point, worldSize: Size)
  {
    0 <= p.x < worldSize.width && 0 <= p.y < worldSize.height
  }

  /** PositionToIndex: the row-major index of a position inside the world;
      a position outside it throws. */
  function PositionToIndex(targetPosition: Point, worldSize: Size): (r: Result<int>)
    ensures r.Failure? <==> !InBounds(targetPosition, worldSize)
    ensures r.Success? ==> 0 <= r.value < worldSize.width * worldSize.height
  {
    if !InBounds(targetPosition, worldSize) then
      Failure(ArgumentOutOfRange("Position is out of world bounds"))
    else
      RowMajorBound(targetPosition.x, targetPosition.y, worldSize.width, worldSize.height);
      Success(targetPosition.y * worldSize.width + targetPosition.x)
  }

  lemma RowMajorBound(x: int, y: int, w: int, h: int)
    requires 0 <= x < w && 0 <= y < h
    ensures 0 <= y * w + x < w * h
  {
    assert y * w <= (h - 1) * w;
  }

  /** Every index of the world is the index of a position inside it, and
      PositionToIndex gives that index back. */
  lemma IndexRoundTrip(index: int, worldSize: Size)
    requires 0 < worldSize.width && 0 < worldSize.height
    requires 0 <= index < worldSize.width * worldSize.height
    ensures IndexToPosition(index, worldSize).Success?
    ensures InBounds(IndexToPosition(index, worldSize).value, worldSize)
    ensures PositionToIndex(IndexToPosition(index, worldSize).value, worldSize) == Success(index)
  {
    var w, h := worldSize.width, worldSize.height;
    CDivNonNegative(index, w);
    var q, r := index / w, index % w;
    QuotientBelow(index, w, h);
    assert IndexToPosition(index, worldSize) == Success(Point(r, q));
    assert InBounds(Point(r, q), worldSize);
    assert q * w + r == index;
    assert PositionToIndex(Point(r, q), worldSize) == Success(index);
  }

  lemma QuotientBelow(index: int, w: int, h: int)
    requires 0 < w && 0 <= index < w * h
    ensures 0 <= index / w < h
  {
    var q := index / w;
    if q >= h {
      MulAtLeastMono(q, h, w);
    }
  }

  lemma MulAtLeastMono(a: int, b: int, n: int)
    requires a >= b >= 0 && n > 0
    ensures a * n >= b * n
  {
    if a > b {
      MulAtLeast(a - b, n);
      assert a * n == (a - b) * n + b * n;
    }
  }

  /** Every position inside the world survives the trip through its index. */
  lemma PositionRoundTrip(p: Point, worldSize: Size)
    requires InBounds(p, worldSize)
    ensures PositionToIndex(p, worldSize).Success?
    ensures IndexToPosition(PositionToIndex(p, worldSize).value, worldSize) == Success(p)
  {
    var w := worldSize.width;
    var i := p.y * w + p.x;
    CDivNonNegative(i, w);
    DivModUnique(i, w, p.y, p.x);
  }

  /** Turning left: a quarter turn anticlockwise. */
  function TurnLeft(d: Direction): Direction
  {
    match d
    case Up => Left
    case Left => Down
    case Down => Right
    case Right => Up
  }

  /** Turning right: a quarter turn clockwise. */
  function TurnRight(d: Direction): Direction
  {
    match d
    case Up => Right
    case Right => Down
    case Down => Left
    case Left => Up
  }

  /** The direction after a move: unchanged when there is no move or the
      move is Forward. */
  function NewDirection(currentDirection: Direction, move: Option<Move>): (r: Direction)
    ensures move.None? || move == Some(Forward) ==> r == currentDirection
    ensures move == Some(MoveLeft) ==> TurnRight(r) == currentDirection
    ensures move == Some(MoveRight) ==> TurnLeft(r) == currentDirection
  {
    match move
    case None => currentDirection
    case Some(Forward) => currentDirection
    case Some(MoveLeft) => TurnLeft(currentDirection)
    case Some(MoveRight) => TurnRight(currentDirection)
  }

  /** Four turns the same way come back to the start, and a left turn and
      a right turn cancel. */
  lemma TurnsCancel(d: Direction)
    ensures TurnLeft(TurnRight(d)) == d && TurnRight(TurnLeft(d)) == d
    ensures TurnLeft(TurnLeft(TurnLeft(TurnLeft(d)))) == d
    ensures TurnLeft(d) != d && TurnRight(d) != d && TurnLeft(d) != TurnRight(d)
  {
  }

  /** The integers GetRange yields: start, then one step at a time toward
      stop, ending at stop; counting up only when start < stop. */
  function Range(start: int, stop: int): (r: seq<int>)
    ensures |r| == (if start < stop then stop - start else start - stop) + 1
    ensures forall i :: 0 <= i < |r| ==> r[i] == (if start < stop then start + i else start - i)
  {
    if start < stop then seq(stop - start + 1, i requires 0 <= i => start + i)
    else seq(start - stop + 1, i requires 0 <= i => start - i)
  }

  /** GetRange, the two counting loops of the iterator. */
  method GetRange(start: int, stop: int) returns (r: seq<int>)
    ensures r == Range(start, stop)
    ensures r[0] == start && r[|r| - 1] == stop
  {
    r := [];
    if start < stop {
      var i := start;
      while i <= stop
        invariant start <= i <= stop + 1
        invariant r == Range(start, i - 1)[..i - start]
      {
        r := r + [i];
        i := i + 1;
      }
      assert r == Range(start, stop);
    } else {
      var i := start;
      while i >= stop
        invariant stop - 1 <= i <= start
        invariant |r| == start - i && forall k :: 0 <= k < |r| ==> r[k] == start - k
      {
        r := r + [i];
        i := i - 1;
      }
    }
  }

  /** The cell one step away in a direction. */
  function Neighbour(p: Point, d: Direction): Point
  {
    match d
    case Up => Point(p.x, p.y - 1)
    case Right => Point(p.x + 1, p.y)
    case Down => Point(p.x, p.y + 1)
    case Left => Point(p.x - 1, p.y)
  }

  /** The positions from the neighbour in direction `d` to the world's edge. */
  function Ray(p: Point, d: Direction, worldSize: Size): seq<Point>
  {
    match d
    case Up => var ys := Range(p.y - 1, 0); seq(|ys|, i requires 0 <= i < |ys| => Point(p.x, ys[i]))
    case Right => var xs := Range(p.x + 1, worldSize.width - 1); seq(|xs|, i requires 0 <= i < |xs| => Point(xs[i], p.y))
    case Down => var ys := Range(p.y + 1, worldSize.height - 1); seq(|ys|, i requires 0 <= i < |ys| => Point(p.x, ys[i]))
    case Left => var xs := Range(p.x - 1, 0); seq(|xs|, i requires 0 <= i < |xs| => Point(xs[i], p.y))
  }

  /** CalculateMove: without a move the only position is the current one and
      the direction is kept; with a move, the new direction and the ray of
      positions from the neighbour in that direction to the world's edge. */
  function CalculateMove(currentPosition: Point, currentDirection: Direction, move: Option<Move>, worldSize: Size): (r: (seq<Point>, Direction))
    ensures r.1 == NewDirection(currentDirection, move)
    ensures |r.0| >= 1
    ensures move.None? ==> r.0 == [currentPosition]
    ensures move.Some? ==> r.0[0] == Neighbour(currentPosition, r.1)
  {
    var newDirection := NewDirection(currentDirection, move);
    if move.None? then ([currentPosition], newDirection)
    else (Ray(currentPosition, newDirection, worldSize), newDirection)
  }

  /** From a position inside the world, either every position of the ray is
      inside it or already the first one is not (the position is on the
      border it faces): the source's ray never starts at the current cell. */
  lemma RayInBoundsIffFirst(p: Point, d: Direction, worldSize: Size)
    requires InBounds(p, worldSize)
    ensures var ray := Ray(p, d, worldSize);
      (forall i :: 0 <= i < |ray| ==> InBounds(ray[i], worldSize)) <==> InBounds(ray[0], worldSize)
  {
  }

  /** Each ray position lies strictly ahead of the current one, one more
      step for each later position. */
  lemma RayStepsAway(p: Point, d: Direction, worldSize: Size, i: int)
    requires InBounds(p, worldSize) && InBounds(Neighbour(p, d), worldSize)
    requires 0 <= i < |Ray(p, d, worldSize)|
    ensures Ray(p, d, worldSize)[i] == (match d
      case Up => Point(p.x, p.y - 1 - i)
      case Right => Point(p.x + 1 + i, p.y)
      case Down => Point(p.x, p.y + 1 + i)
      case Left => Point(p.x - 1 - i, p.y))
  {
  }

  /** The direction and first position the source's own expectations give
      for a pika at (5, 5) in a 10 by 10 world. */
  lemma MoveExamples()
    ensures CalculateMove(Point(5, 5), Up, Some(MoveLeft), Size(10, 10)).1 == Left
    ensures CalculateMove(Point(5, 5), Up, Some(MoveLeft), Size(10, 10)).0[0] == Point(4, 5)
    ensures CalculateMove(Point(5, 5), Up, Some(MoveRight), Size(10, 10)).0[0] == Point(6, 5)
    ensures CalculateMove(Point(5, 5), Up, Some(Forward), Size(10, 10)).0[0] == Point(5, 4)
    ensures CalculateMove(Point(5, 5), Down, Some(MoveLeft), Size(10, 10)).0[0] == Point(6, 5)
    ensures CalculateMove(Point(5, 5), Down, Some(MoveRight), Size(10, 10)).0[0] == Point(4, 5)
    ensures CalculateMove(Point(5, 5), Down, Some(Forward), Size(10, 10)).0[0] == Point(5, 6)
  {
  }
}
