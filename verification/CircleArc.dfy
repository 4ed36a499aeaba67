/** The integer circle rasteriser of Linux/framebuffer.c as a walk over offsets from the centre,
    in the quadrant x <= 0 <= y. `err` is the error term (x+1)^2 + (y+1)^2 - r^2. */
module CircleArc {

  datatype Offset = Offset(x: int, y: int)

  function Square(n: int): int { n * n }

  /** How far the offset is from the circle of radius r, in squares. */
  function Deviation(p: Offset, r: int): int { Square(p.x) + Square(p.y) - Square(r) }

  /** What `err` holds. */
  function ErrorTerm(p: Offset, r: int): int { Square(p.x + 1) + Square(p.y + 1) - Square(r) }

  function Abs(n: int): int { if n < 0 then -n else n }

  function Max(a: int, b: int): int { if a < b then b else a }

  /** Invariant of the drawing loop: close to the circle by the larger coordinate. */
  ghost predicate OnArc(p: Offset, r: int) {
    -r <= p.x <= 0 <= p.y && Abs(Deviation(p, r)) <= Max(-p.x, p.y) && (r == 0 ==> p.y == 0)
  }

  /** One turn of the loop, from p with err == e to the offset it moves to. */
  function NextOffset(p: Offset, e: int): Offset {
    var stepY := e <= p.y;
    var e2 := if stepY && -p.x == p.y + 1 && e <= p.x then 0 else e;
    Offset(if e2 > p.x then p.x + 1 else p.x, if stepY then p.y + 1 else p.y)
  }

  /** What the turn adds to err. */
  function ErrorGain(p: Offset, q: Offset): int {
    (if q.y > p.y then 2 * q.y + 1 else 0) + (if q.x > p.x then 2 * q.x + 1 else 0)
  }

  lemma ErrorIsDeviation(p: Offset, r: int)
    ensures ErrorTerm(p, r) == Deviation(p, r) + 2 * p.x + 2 * p.y + 2
  {
  }

  lemma ErrorFollows(p: Offset, e: int, r: int)
    requires e == ErrorTerm(p, r)
    ensures ErrorTerm(NextOffset(p, e), r) == e + ErrorGain(p, NextOffset(p, e))
  {
    var q := NextOffset(p, e);
    SquareNext(p.x + 1);
    SquareNext(p.y + 1);
    assert q.x == p.x || q.x == p.x + 1;
  }

  lemma StaysOnArc(p: Offset, e: int, r: int)
    requires OnArc(p, r) && e == ErrorTerm(p, r) && NextOffset(p, e).x <= 0
    ensures OnArc(NextOffset(p, e), r)
  {
    ErrorIsDeviation(p, r);
    ErrorFollows(p, e, r);
    ErrorIsDeviation(NextOffset(p, e), r);
  }

  lemma SquareNext(n: int)
    ensures Square(n + 1) == Square(n) + 2 * n + 1
  {
  }

  lemma SquareGap(a: nat, b: nat)
    requires a < b
    ensures Square(b) >= Square(a) + a + b
  {
    var d := b - a - 1;
    assert Square(b) == Square(a + 1 + d) == Square(a + 1) + 2 * d * (a + 1) + d * d;
    SquareNext(a);
    DiagonalGap(a, d);
  }

  lemma SquareNonNegative(n: int)
    ensures Square(n) >= 0
  {
  }

  lemma DiagonalGap(a: nat, d: nat)
    ensures 2 * d * (a + 1) + d * d >= d
  {
  }

  /** The arc does not leave the bounding box. */
  lemma WithinRadius(p: Offset, r: int)
    requires OnArc(p, r)
    ensures p.y <= r
  {
    SquareNonNegative(p.x);
    if p.y > r {
      SquareGap(r, p.y);
    }
  }

  /** On the vertical axis the arc is exactly at the top. */
  lemma ClosesAtTop(p: Offset, r: int)
    requires OnArc(p, r) && p.x == 0
    ensures p.y == r
  {
    assert Square(p.x) == 0;
    if p.y > r {
      SquareGap(r, p.y);
    } else if p.y < r {
      SquareGap(p.y, r);
    }
  }

  lemma TopError(p: Offset, e: int, r: int)
    requires OnArc(p, r) && e == ErrorTerm(p, r)
    ensures p.x == 0 ==> e == 2 * r + 2
  {
    if p.x == 0 {
      ClosesAtTop(p, r);
      ErrorIsDeviation(p, r);
      assert Square(p.x) == 0;
    }
  }

  /** A step in y stays within the bounding box. */
  lemma YStepBelow(p: Offset, e: int, r: int)
    requires OnArc(p, r) && 0 <= r && e == ErrorTerm(p, r) && e <= p.y
    ensures p.x < 0 && p.y + 1 <= r
  {
    TopError(p, e, r);
    WithinRadius(p, r);
    if p.x < 0 {
      StaysOnArc(p, e, r);
      WithinRadius(NextOffset(p, e), r);
    }
  }

  lemma ArcBox(p: Offset, r: int)
    requires OnArc(p, r) && 0 <= r
    ensures -r <= p.x <= 0 <= p.y <= r
  {
    WithinRadius(p, r);
  }

  lemma {:induction false} SquareMonotone(a: nat, b: nat)
    requires a <= b
    ensures Square(a) <= Square(b)
  {
    if a < b { SquareGap(a, b); }
  }

  lemma SquareAbs(s: int)
    ensures Square(s) == Square(Abs(s))
  {
  }

  lemma SquareMinus(r: int, j: int)
    ensures Square(r - j) == Square(r) - 2 * (r * j) + j * j
  {
  }

  lemma ArcStarts(r: int)
    requires 0 <= r
    ensures OnArc(Offset(-r, 0), r) && ErrorTerm(Offset(-r, 0), r) == 2 - 2 * r
  {
    assert Square(-r) == Square(r);
    ErrorIsDeviation(Offset(-r, 0), r);
  }

  /** A run of the loop: it starts on the left, moves to a neighbour each time, ends at the top. */
  ghost predicate IsArc(points: seq<Offset>, r: int) {
    && points != [] && points[0] == Offset(-r, 0) && points[|points| - 1] == Offset(0, r)
    && (forall i | 0 <= i < |points| :: Accurate(points[i], r))
    && (forall i | 0 <= i < |points| - 1 :: Neighbours(points[i], points[i + 1]))
  }

  /** Nowhere does the arc take a corner, one step straight up and one to the side, where one diagonal step
      would do. */
  predicate Thin(points: seq<Offset>) {
    forall i | 0 <= i < |points| - 2 :: !Corner(points[i], points[i + 2])
  }

  /** Two turns that lead where one diagonal turn does. */
  predicate Corner(p: Offset, t: Offset) {
    t.x == p.x + 1 && t.y == p.y + 1
  }

  ghost predicate Accurate(p: Offset, r: int) {
    -r <= p.x <= 0 <= p.y <= r && -r <= Deviation(p, r) <= r
  }

  lemma ArcIsAccurate(p: Offset, r: int)
    requires OnArc(p, r) && 0 <= r
    ensures Accurate(p, r)
  {
    WithinRadius(p, r);
  }

  predicate Neighbours(p: Offset, q: Offset) {
    p != q && 0 <= q.x - p.x <= 1 && 0 <= q.y - p.y <= 1
  }

  /** The arc has no gap: it meets every row and every column of its quadrant. */
  lemma ArcMeetsAll(points: seq<Offset>, r: int, c: int)
    requires IsArc(points, r) && 0 <= c <= r
    ensures exists i | 0 <= i < |points| :: points[i].y == c
    ensures exists i | 0 <= i < |points| :: points[i].x == -c
  {
    MeetsRow(points, r, c, |points| - 1);
    MeetsColumn(points, r, -c, |points| - 1);
  }

  lemma {:induction false} MeetsRow(points: seq<Offset>, r: int, y: int, k: nat)
    requires IsArc(points, r) && k < |points| && 0 <= y <= points[k].y
    ensures exists i | 0 <= i < |points| :: points[i].y == y
  {
    if points[k].y != y {
      assert Neighbours(points[k - 1], points[k - 1 + 1]);
      MeetsRow(points, r, y, k - 1);
    }
  }

  lemma {:induction false} MeetsColumn(points: seq<Offset>, r: int, x: int, k: nat)
    requires IsArc(points, r) && k < |points| && -r <= x <= points[k].x
    ensures exists i | 0 <= i < |points| :: points[i].x == x
  {
    if points[k].x != x {
      assert Neighbours(points[k - 1], points[k - 1 + 1]);
      MeetsColumn(points, r, x, k - 1);
    }
  }

  // ----- the walk with unbounded numbers

  /** Turn n of the drawing loop, with err as an unbounded number. */
  ghost function Walk(r: int, n: nat): Offset {
    if n == 0 then Offset(-r, 0) else NextOffset(Walk(r, n - 1), ErrorTerm(Walk(r, n - 1), r))
  }

  lemma {:induction false} WalkOnArc(r: int, n: nat)
    requires 0 <= r && Walk(r, n).x <= 0
    ensures OnArc(Walk(r, n), r)
  {
    if n == 0 {
      ArcStarts(r);
    } else {
      WalkOnArc(r, n - 1);
      StaysOnArc(Walk(r, n - 1), ErrorTerm(Walk(r, n - 1), r), r);
    }
  }

  lemma NextMoves(p: Offset, e: int)
    requires p.x <= 0 <= p.y
    ensures Neighbours(p, NextOffset(p, e))
  {
  }

  lemma {:induction false} WalkMoves(r: int, n: nat)
    requires Walk(r, n).x <= 0
    ensures Walk(r, n).y >= 0 && Walk(r, n).x + Walk(r, n).y >= n - r
  {
    hide ErrorTerm;
    if n > 0 {
      var p := Walk(r, n - 1);
      WalkMoves(r, n - 1);
      NextMoves(p, ErrorTerm(p, r));
    }
  }

  /** Two turns in a row make no corner. */
  lemma NoCorner(p: Offset, e: int, r: int)
    requires OnArc(p, r) && e == ErrorTerm(p, r) && NextOffset(p, e).x <= 0
    ensures var q := NextOffset(p, e);
      !Corner(p, NextOffset(q, ErrorTerm(q, r)))
  {
    ErrorIsDeviation(p, r);
    ErrorFollows(p, e, r);
    TwoTurns(p, e, Deviation(p, r));
  }

  lemma TwoTurns(p: Offset, e: int, d: int)
    requires p.x <= 0 <= p.y && Abs(d) <= Max(-p.x, p.y) && e == d + 2 * p.x + 2 * p.y + 2
    ensures var q := NextOffset(p, e);
      q.x <= 0 ==> !Corner(p, NextOffset(q, e + ErrorGain(p, q)))
  {
  }

  /** The walk gets to the top. */
  lemma {:induction false} ReachesTop(r: int, n: nat) returns (m: nat)
    requires 0 <= r && Walk(r, n).x <= 0
    ensures Walk(r, m) == Offset(0, r)
    decreases 2 * r - n
  {
    hide Walk, OnArc, NextOffset;
    WalkNext(r, n);
    WalkOnArc(r, n);
    ArcBox(Walk(r, n), r);
    WalkMoves(r, n);
    if Walk(r, n + 1).x <= 0 {
      WalkOnArc(r, n + 1);
      ArcBox(Walk(r, n + 1), r);
      WalkMoves(r, n + 1);
      m := ReachesTop(r, n + 1);
    } else {
      ClosesAtTop(Walk(r, n), r);
      m := n;
    }
  }

  lemma WalkNext(r: int, n: nat)
    ensures Walk(r, n + 1).x <= Walk(r, n).x + 1 && Walk(r, n).y <= Walk(r, n + 1).y <= Walk(r, n).y + 1
    ensures Walk(r, n).x <= Walk(r, n + 1).x
    ensures Walk(r, n + 1).y > Walk(r, n).y ==> ErrorTerm(Walk(r, n), r) <= Walk(r, n).y
    ensures Walk(r, n + 1) == NextOffset(Walk(r, n), ErrorTerm(Walk(r, n), r))
    ensures Walk(r, 0) == Offset(-r, 0)
  {
    hide ErrorTerm;
  }

  /** So it leaves every row below the top. */
  lemma {:induction false} LeavesRow(r: int, y: nat, n: nat) returns (k: nat)
    requires 0 <= r && Walk(r, n).x <= 0 && Walk(r, n).y > y
    ensures k < n && Walk(r, k).x <= 0 && Walk(r, k).y == y && Walk(r, k + 1).y == y + 1
  {
    hide Walk, NextOffset;
    WalkNext(r, 0);
    WalkNext(r, n - 1);
    if Walk(r, n - 1).y == y {
      k := n - 1;
    } else {
      k := LeavesRow(r, y, n - 1);
    }
  }

  lemma {:induction false} WalkAscends(r: int, k: nat, n: nat)
    requires k <= n
    ensures Walk(r, k).x <= Walk(r, n).x
    decreases n
  {
    hide Walk, NextOffset;
    if k < n {
      WalkNext(r, n - 1);
      WalkAscends(r, k, n - 1);
    }
  }

  /** The points of the first n turns. */
  ghost function Points(r: int, n: nat): (points: seq<Offset>)
    ensures |points| == n
  {
    seq(n, i requires 0 <= i => Walk(r, i))
  }

  /** The walk up to its end is an arc. */
  lemma WalkIsArc(r: int, n: nat)
    requires 0 <= r && n >= 1 && Walk(r, n - 1).x <= 0 && Walk(r, n).x > 0
    ensures IsArc(Points(r, n), r) && Thin(Points(r, n)) && Walk(r, n - 1) == Offset(0, r)
  {
    hide Walk, OnArc, NextOffset, Accurate, Neighbours, Corner, ErrorTerm;
    WalkNext(r, n - 1);
    WalkOnArc(r, n - 1);
    ClosesAtTop(Walk(r, n - 1), r);
    forall i | 0 <= i < n ensures Accurate(Walk(r, i), r) && Walk(r, i).x <= 0 <= Walk(r, i).y {
      WalkAscends(r, i, n - 1);
      WalkOnArc(r, i);
      ArcIsAccurate(Walk(r, i), r);
      ArcBox(Walk(r, i), r);
    }
    forall i | 0 <= i < n - 1 ensures Neighbours(Walk(r, i), Walk(r, i + 1)) {
      WalkNext(r, i);
      NextMoves(Walk(r, i), ErrorTerm(Walk(r, i), r));
    }
    forall i | 0 <= i < n - 2 ensures !Corner(Walk(r, i), Walk(r, i + 2)) {
      WalkNext(r, i);
      WalkNext(r, i + 1);
      WalkOnArc(r, i);
      NoCorner(Walk(r, i), ErrorTerm(Walk(r, i), r), r);
    }
  }

  /** The walk steps into row r - j not later than at offset -c - 1, if c is a column at which it may. */
  lemma EntersRow(r: int, j: nat, c: nat) returns (k: nat)
    requires c + 1 < r - j && Square(c) + Square(r - j) - Square(r) <= r - j - 1
    ensures var p := Walk(r, k);
      && p.y == r - j - 1 && p.x + c < 0 && ErrorTerm(p, r) <= p.y && Walk(r, k + 1).y == r - j
      && ErrorTerm(p, r) >= Square(c) + Square(r - j) - Square(r)
  {
    hide Walk, OnArc, NextOffset, Square;
    WalkNext(r, 0);
    var n := ReachesTop(r, 0);
    k := LeavesRow(r, r - j - 1, n);
    WalkNext(r, k);
    WalkNext(r, k - 1);
    WalkOnArc(r, k - 1);
    NotLater(Walk(r, k), Walk(r, k - 1), r, j, c);
    SquareAbs(Walk(r, k).x + 1);
    SquareMonotone(c, -Walk(r, k).x - 1);
  }

  lemma NotLater(p: Offset, q: Offset, r: int, j: nat, c: nat)
    requires c + 1 < r - j && Square(c) + Square(r - j) - Square(r) <= r - j - 1
    requires p.y == r - j - 1 && p.x <= 0 && OnArc(q, r) && p == NextOffset(q, ErrorTerm(q, r))
    ensures p.x + c < 0
  {
    hide Square;
    if p.x + c >= 0 {
      if q.y == p.y {
        StaysInRow(q, r, c);
      } else {
        ComesFromBelow(q, r, c);
      }
    }
  }

  /** At column c and closer to the axis the walk does not stay in the row. */
  lemma StaysInRow(q: Offset, r: int, c: nat)
    requires q.x + 1 + c >= 0 && q.x < 0 && Square(c) + Square(q.y + 1) - Square(r) <= q.y
    ensures ErrorTerm(q, r) <= q.y
  {
    hide Square;
    SquareAbs(q.x + 1);
    SquareMonotone(-q.x - 1, c);
  }

  /** And it does not come there from the row below, which is too far inside the circle. */
  lemma ComesFromBelow(q: Offset, r: int, c: nat)
    requires q.x + c + 1 >= 0 && q.x <= 0 && c <= q.y && 0 <= r
    requires Square(c) + Square(q.y + 2) - Square(r) <= q.y + 1
    ensures !OnArc(q, r)
  {
    hide Square;
    SquareAbs(q.x);
    SquareMonotone(-q.x, c + 1);
    SquareNext(c);
    SquareNext(q.y + 1);
    SquareNext(q.y);
  }
}
