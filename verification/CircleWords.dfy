/** The drawing loop of DrawCircle32 with its 16-bit variables, whose stores wrap around. */
module CircleWords {
  import opened CircleArc

  /** The value is one of a 16-bit variable. */
  predicate Word(v: int) {
    -0x8000 <= v < 0x8000
  }

  /** What a 16-bit variable holds after the value is stored in it. */
  function Wrap(v: int): (w: int)
    ensures Word(w) && (Word(v) ==> w == v)
  {
    (v + 0x8000) % 0x1_0000 - 0x8000
  }

  lemma WrapTwice(a: int, b: int)
    ensures Wrap(Wrap(a) + b) == Wrap(a + b)
  {
    var n := (a + 0x8000) / 0x1_0000;
    assert Wrap(a) == a - 0x1_0000 * n;
    WrapShift(a + b, n);
  }

  lemma WrapShift(a: int, n: int)
    ensures Wrap(a - 0x1_0000 * n) == Wrap(a)
  {
  }

  /** The variables x, y and err. */
  datatype Loop = Loop(p: Offset, err: int)

  /** One turn of the loop, store by store. */
  function Turned(s: Loop): Loop {
    var stepY := s.err <= s.p.y;
    var y := if stepY then Wrap(s.p.y + 1) else s.p.y;
    var err := if stepY then Wrap(s.err + 2 * y + 1) else s.err;
    var e2 := if stepY && -s.p.x == y && s.err <= s.p.x then 0 else s.err;
    if e2 > s.p.x then
      var x := Wrap(s.p.x + 1);
      Loop(Offset(x, y), Wrap(err + 2 * x + 1))
    else Loop(Offset(s.p.x, y), err)
  }

  /** The overflow in the middle of a turn does no harm: the turn ends with what the unbounded one ends with. */
  lemma TurnedExactly(p: Offset, e: int)
    requires -0x7FFF <= p.x < 0x7FFF && 0 <= p.y < 0x7FFF && Word(e)
    ensures var q := NextOffset(p, e); Turned(Loop(p, e)) == Loop(q, Wrap(e + ErrorGain(p, q)))
  {
    hide Wrap;
    WrapTwice(e + 2 * (p.y + 1) + 1, 2 * (p.x + 1) + 1);
  }

  // ----- err at the head of the loop

  /** The largest radius that is drawn. */
  const LIMIT := 11002

  /** Left of the circle, a step in x comes with a y that makes up for it. */
  lemma LeftColumns(p: Offset, e: int, r: int)
    requires -r <= p.x < 0 <= p.y && 10922 < r <= LIMIT && e == ErrorTerm(p, r) && e > p.x
    ensures e + 2 * p.x + 2 * p.y + 6 >= -0x8000
  {
    var m, y := -p.x - 1, p.y + 1;
    SquareAbs(p.x + 1);
    if m == r - 1 {
      SquareNext(r - 1);
      if y < 105 { SquareMonotone(y, 104); } else { SquareMonotone(105, y); }
    } else {
      SquareMonotone(m, r - 2);
      SquareNext(r - 1);
      SquareNext(r - 2);
      if y < 181 { SquareMonotone(y, 180); }
    }
  }

  /** Near the top, a step in both comes with an x that makes up for it. */
  lemma TopRows(p: Offset, e: int, r: int)
    requires p.x < 0 <= p.y < r <= LIMIT && e == ErrorTerm(p, r) && e <= p.y
    ensures e + 2 * p.x + 2 * p.y + 6 < 0x8000
  {
    var s, y := -p.x - 1, p.y + 1;
    SquareAbs(p.x + 1);
    if s < 120 {
      if y == r {
        if s > 104 { SquareMonotone(105, s); } else { SquareMonotone(s, 104); }
      } else {
        SquareMonotone(y, r - 1);
        SquareNext(r - 1);
        SquareMonotone(s, 120);
      }
    }
  }

  lemma BesideAxis(p: Offset, e: int, r: int)
    requires p.x == -1 && 0 <= p.y <= r && e == ErrorTerm(p, r)
    ensures e <= 2 * r + 1
  {
    SquareMonotone(p.y, r);
    SquareNext(p.y);
  }

  /** Up to the limit, err fits its variable again whenever the loop goes on. */
  lemma NextHeadFits(p: Offset, e: int, r: int)
    requires OnArc(p, r) && 0 <= r <= LIMIT && e == ErrorTerm(p, r) && Word(e)
    ensures var q := NextOffset(p, e); q.x <= 0 ==> Word(e + ErrorGain(p, q))
  {
    hide OnArc, ErrorTerm, Square;
    ArcBox(p, r);
    TopError(p, e, r);
    if p.x == -1 { BesideAxis(p, e, r); }
    if e <= p.y {
      YStepBelow(p, e, r);
      TopRows(p, e, r);
      if e > p.x && r > 10922 { LeftColumns(p, e, r); }
    }
  }

  // ----- the loop

  /** The variables at the head of turn n. */
  ghost function Loops(r: int, n: nat): Loop {
    if n == 0 then Loop(Offset(Wrap(-r), 0), Wrap(2 - 2 * r)) else Turned(Loops(r, n - 1))
  }

  /** The loop ends after n turns. */
  ghost predicate Ends(r: int, n: nat) {
    n >= 1 && Loops(r, n).p.x > 0 && forall i | 1 <= i < n :: Loops(r, i).p.x <= 0
  }

  ghost function LoopPoints(r: int, n: nat): (points: seq<Offset>)
    ensures |points| == n
  {
    seq(n, i requires 0 <= i => Loops(r, i).p)
  }

  /** What the unbounded walk has in err at the head of turn n. */
  ghost function Head(r: int, n: nat): int {
    ErrorTerm(Walk(r, n), r)
  }

  lemma LoopStarts(r: int)
    requires 0 <= r < 0x8000
    ensures Loops(r, 0) == Loop(Walk(r, 0), Wrap(Head(r, 0))) && Head(r, 0) == 2 - 2 * r && Walk(r, 0).x <= 0
  {
    ArcStarts(r);
  }

  /** As long as err fits, the loop follows the walk. */
  lemma LoopFollows(r: int, n: nat)
    requires 0 <= r < 0x7FFF && Walk(r, n).x <= 0
    requires Loops(r, n) == Loop(Walk(r, n), Head(r, n)) && Word(Head(r, n))
    ensures Loops(r, n + 1) == Loop(Walk(r, n + 1), Wrap(Head(r, n + 1)))
    ensures Head(r, n + 1) == Head(r, n) + ErrorGain(Walk(r, n), Walk(r, n + 1))
  {
    hide Walk, OnArc, NextOffset, ErrorGain, Turned, ErrorTerm;
    var p, e := Walk(r, n), Head(r, n);
    WalkNext(r, n);
    WalkOnArc(r, n);
    ArcBox(p, r);
    TurnedExactly(p, e);
    ErrorFollows(p, e, r);
  }

  /** Up to the limit it always does. */
  lemma {:induction false} LoopIsWalk(r: int, n: nat)
    requires 0 <= r <= LIMIT && Walk(r, n).x <= 0
    ensures Word(Head(r, n)) && Loops(r, n) == Loop(Walk(r, n), Head(r, n))
  {
    hide Walk, OnArc, NextOffset, ErrorGain, Loops, ErrorTerm;
    if n == 0 {
      LoopStarts(r);
    } else {
      WalkNext(r, n - 1);
      LoopIsWalk(r, n - 1);
      LoopFollows(r, n - 1);
      WalkOnArc(r, n - 1);
      NextHeadFits(Walk(r, n - 1), Head(r, n - 1), r);
    }
  }

  lemma WalkEnds(r: int) returns (n: nat)
    requires 0 <= r
    ensures n >= 1 && Walk(r, n - 1) == Offset(0, r) && Walk(r, n).x > 0
  {
    hide Walk, NextOffset, OnArc, ErrorTerm;
    WalkNext(r, 0);
    var m := ReachesTop(r, 0);
    n := m + 1;
    WalkNext(r, m);
    WalkOnArc(r, m);
    TopError(Offset(0, r), ErrorTerm(Offset(0, r), r), r);
    TopTurn(r);
  }

  lemma TopTurn(r: int)
    requires 0 <= r
    ensures NextOffset(Offset(0, r), 2 * r + 2).x > 0
  {
  }

  /** The loop ends, and its points are those of the walk. */
  lemma DrawsWalk(r: int) returns (n: nat)
    requires 0 <= r <= LIMIT
    ensures Ends(r, n) && LoopPoints(r, n) == Points(r, n) && IsArc(Points(r, n), r) && Thin(Points(r, n))
  {
    hide Walk, OnArc, Loops, IsArc, Thin;
    n := WalkEnds(r);
    WalkIsArc(r, n);
    forall i | 0 <= i < n ensures Loops(r, i).p == Walk(r, i) && Walk(r, i).x <= 0 {
      WalkAscends(r, i, n - 1);
      LoopIsWalk(r, i);
    }
    LoopIsWalk(r, n - 1);
    LoopFollows(r, n - 1);
  }

  // ----- one turn, for negative radii too

  /** The image of an offset in the quadrant of the walk. */
  function Mirror(p: Offset): Offset { Offset(-Abs(p.x), Abs(p.y)) }

  lemma MirrorCases(a: Offset, b: Offset)
    ensures Mirror(a) == Mirror(b) <==> (a.x == b.x || a.x == -b.x) && (a.y == b.y || a.y == -b.y)
  {
  }

  /** The loop with the points drawn so far. With a negative radius it makes one turn only. */
  ghost predicate Turning(points: seq<Offset>, s: Loop, r: int) {
    if r >= 0 then r <= LIMIT && points == Points(r, |points|) && s == Loops(r, |points|) && Walk(r, |points|).x <= 0
    else -0x8000 < r && points == [] && s == Loops(r, 0)
  }

  /** What the loop draws: the walk, which is an arc, or the two points on the horizontal axis. */
  ghost predicate Drawn(points: seq<Offset>, r: int) {
    if r >= 0 then points == Points(r, |points|) && IsArc(points, r) && Thin(points) else points == [Offset(r, 0)]
  }

  lemma TurningStarts(r: int)
    requires -0x8000 < r <= LIMIT
    ensures Turning([], Loop(Offset(-r, 0), Wrap(2 - 2 * r)), r)
  {
    if r >= 0 { LoopStarts(r); }
  }

  lemma TurningTurns(points: seq<Offset>, s: Loop, r: int)
    requires Turning(points, s, r)
    ensures Abs(s.p.x) <= Abs(r) && 0 <= s.p.y <= (if r >= 0 then r else 0)
    ensures Turned(s).p.x > 0 ==> Drawn(points + [Mirror(s.p)], r)
    ensures Turned(s).p.x <= 0 ==>
      && Turning(points + [Mirror(s.p)], Turned(s), r)
      && 0 <= r - Turned(s).p.x - Turned(s).p.y < r - s.p.x - s.p.y
  {
    hide Walk, IsArc, Thin, Loops, Turned;
    if r < 0 {
      NegativeTurn(r);
    } else {
      var n := |points|;
      LoopStep(r, n);
      PointsNext(r, n);
      assert Mirror(s.p) == s.p;
    }
  }

  lemma PointsNext(r: int, n: nat)
    ensures Points(r, n + 1) == Points(r, n) + [Walk(r, n)]
  {
    hide Walk;
  }

  /** A turn of the loop for a radius up to the limit. */
  lemma LoopStep(r: int, n: nat)
    requires 0 <= r <= LIMIT && Walk(r, n).x <= 0
    ensures Loops(r, n).p == Walk(r, n) && Loops(r, n + 1) == Turned(Loops(r, n))
    ensures Loops(r, n + 1).p == Walk(r, n + 1)
    ensures -r <= Walk(r, n).x && 0 <= Walk(r, n).y <= r
    ensures Walk(r, n + 1).x > 0 ==> IsArc(Points(r, n + 1), r) && Thin(Points(r, n + 1))
    ensures Walk(r, n + 1).x <= 0 ==>
      0 <= r - Walk(r, n + 1).x - Walk(r, n + 1).y < r - Walk(r, n).x - Walk(r, n).y
  {
    hide Walk, OnArc, IsArc, Thin, Wrap, ErrorTerm, ErrorGain, NextOffset, Turned;
    LoopIsWalk(r, n);
    LoopFollows(r, n);
    WalkOnArc(r, n);
    ArcBox(Walk(r, n), r);
    WalkNext(r, n);
    NextMoves(Walk(r, n), Head(r, n));
    if Walk(r, n + 1).x > 0 {
      WalkIsArc(r, n + 1);
    } else {
      WalkOnArc(r, n + 1);
      ArcBox(Walk(r, n + 1), r);
    }
  }

  lemma NegativeTurn(r: int)
    requires -0x8000 < r < 0
    ensures Loops(r, 0).p == Offset(-r, 0) && Turned(Loops(r, 0)).p.x > 0
  {
    if 2 - 2 * r >= 0x8000 { WrapDown(2 - 2 * r); }
  }

  // ----- larger radii

  /** An err that does not fit sends the loop to a point that is not on the circle. */
  lemma BadHead(p: Offset, e: int, r: int)
    requires OnArc(p, r) && 0 <= r <= 21845 && e == ErrorTerm(p, r) && !Word(e)
    ensures var q := NextOffset(p, Wrap(e)); q.x <= 0 && !Accurate(q, r)
  {
    hide Square;
    ErrorIsDeviation(p, r);
    ArcBox(p, r);
    TopError(p, e, r);
    if e < 0 {
      WrapUp(e);
      SquareNext(p.x);
    } else {
      WrapDown(e);
      SquareNext(p.x);
      SquareNext(p.y);
    }
  }

  lemma WrapUp(e: int)
    requires -0x1_8000 <= e < -0x8000
    ensures Wrap(e) == e + 0x1_0000
  {
  }

  lemma WrapDown(e: int)
    requires 0x8000 <= e < 0x1_8000
    ensures Wrap(e) == e - 0x1_0000
  {
  }

  /** For radii from 11003 to 11025, err is too small at the first turn in the second column. */
  lemma {:induction false} FirstColumn(r: int, n: nat)
    requires 10816 < r && n <= 104
    ensures Walk(r, n) == Offset(-r, n)
  {
    if n > 0 {
      FirstColumn(r, n - 1);
      SquareMonotone(n, 104);
      SquareNext(r - 1);
      SquareAbs(1 - r);
      assert Square(104) == 10816;
      hide Square;
      assert ErrorTerm(Offset(-r, n - 1), r) == 1 - 2 * r + Square(n);
    }
  }

  lemma TooSmall(r: int)
    requires LIMIT < r <= 11025
    ensures Walk(r, 105).x <= 0 && !Word(Head(r, 105))
  {
    FirstColumn(r, 104);
    SquareAbs(1 - r);
    SquareAbs(2 - r);
    SquareNext(r - 1);
    SquareNext(r - 2);
    assert Square(105) == 11025 && Square(106) == 11236;
    hide Square;
    assert ErrorTerm(Offset(-r, 104), r) == 1 - 2 * r + 11025;
    assert Walk(r, 105) == Offset(1 - r, 105);
  }

  /** For radii from 11026 on, err is too large when the walk comes to the top row. */
  lemma TooLarge(r: int) returns (k: nat)
    requires r > 11025
    ensures Walk(r, k).x <= 0 && !Word(Head(r, k))
  {
    assert Square(105) == 11025 && Square(104) == 10816;
    hide Walk, Square, OnArc, NextOffset;
    k := EntersRow(r, 0, 105);
    WalkNext(r, k);
    k := k + 1;
    var q := Walk(r, k);
    SquareAbs(q.x + 1);
    SquareMonotone(104, -q.x - 1);
    SquareNext(r);
  }

  /** A loop that draws an arc follows the walk, and err fits at the head of every turn. */
  lemma {:induction false} ArcFollowsWalk(r: int, n: nat, i: nat)
    requires 0 <= r <= 21845 && Ends(r, n) && IsArc(LoopPoints(r, n), r) && i < n
    ensures Walk(r, i).x <= 0 && Word(Head(r, i)) && Loops(r, i) == Loop(Walk(r, i), Head(r, i))
    ensures Loops(r, i + 1).p == Walk(r, i + 1)
  {
    hide Walk, OnArc, NextOffset, Loops, ErrorTerm, Accurate, Wrap;
    if i == 0 {
      LoopStarts(r);
    } else {
      ArcFollowsWalk(r, n, i - 1);
      LoopFollows(r, i - 1);
    }
    HeadFits(r, n, i);
    LoopFollows(r, i);
  }

  lemma NextIsDrawn(r: int, n: nat, i: nat)
    requires Ends(r, n) && IsArc(LoopPoints(r, n), r) && i < n
    ensures Loops(r, i + 1) == Turned(Loops(r, i))
    ensures Loops(r, i + 1).p.x <= 0 ==> Accurate(Loops(r, i + 1).p, r)
  {
    hide Turned, Accurate;
    if i + 1 < n {
      assert LoopPoints(r, n)[i + 1] == Loops(r, i + 1).p;
    }
  }

  lemma HeadFits(r: int, n: nat, i: nat)
    requires 0 <= r <= 21845 && Ends(r, n) && IsArc(LoopPoints(r, n), r) && i < n && Walk(r, i).x <= 0
    requires Loops(r, i) == Loop(Walk(r, i), Wrap(Head(r, i)))
    ensures Word(Head(r, i)) && Wrap(Head(r, i)) == Head(r, i)
  {
    hide Walk, OnArc, NextOffset, ErrorTerm, Accurate, Turned, Loops, IsArc, Ends;
    var p, e := Walk(r, i), Head(r, i);
    WalkOnArc(r, i);
    ArcBox(p, r);
    NextIsDrawn(r, n, i);
    if !Word(e) {
      BadHead(p, e, r);
      TurnedExactly(p, Wrap(e));
    }
  }

  /** A radius for which err does not even fit at the start: the first turn leaves the circle. */
  lemma FirstTurn(r: int)
    requires 16386 <= r < 0x8000
    ensures Loops(r, 1).p == Offset(1 - r, 0)
  {
    hide Square, OnArc;
    LoopStarts(r);
    WrapUp(2 - 2 * r);
    TurnedExactly(Offset(-r, 0), 2 - 2 * r + 0x1_0000);
  }

  lemma BesideStart(r: int)
    requires r >= 2
    ensures !Accurate(Offset(1 - r, 0), r)
  {
    SquareAbs(1 - r);
    SquareNext(r - 1);
    assert Square(0) == 0;
    hide Square;
  }

  lemma StartsBadly(r: int, n: nat)
    requires 16386 <= r < 0x8000 && Ends(r, n)
    ensures !IsArc(LoopPoints(r, n), r)
  {
    hide Loops, Accurate;
    FirstTurn(r);
    BesideStart(r);
    assert LoopPoints(r, n)[1] == Loops(r, 1).p;
  }

  lemma NotDrawn(r: int, n: nat)
    requires LIMIT < r < 0x8000 && Ends(r, n)
    ensures !IsArc(LoopPoints(r, n), r)
  {
    hide Walk, Loops, IsArc, ErrorTerm;
    if r >= 16386 {
      StartsBadly(r, n);
    } else if IsArc(LoopPoints(r, n), r) {
      var k := 105;
      if r <= 11025 { TooSmall(r); } else { k := TooLarge(r); }
      ArcFollowsWalk(r, n, n - 1);
      if k >= n {
        WalkAscends(r, n, k);
      } else {
        ArcFollowsWalk(r, n, k);
      }
    }
  }

  /** The circle is drawn if and only if its radius is at most 11002. It is then a thin arc; otherwise the
      points are not an arc at all. */
  lemma DrawnExactly(r: int)
    requires 0 <= r < 0x8000
    ensures (exists n: nat :: Ends(r, n) && IsArc(LoopPoints(r, n), r)) <==> r <= 11002
    ensures r <= 11002 ==> exists n: nat :: Ends(r, n) && IsArc(LoopPoints(r, n), r) && Thin(LoopPoints(r, n))
  {
    hide Loops, IsArc, Ends, Thin;
    if r <= LIMIT {
      var n := DrawsWalk(r);
    } else {
      forall n: nat | Ends(r, n) ensures !IsArc(LoopPoints(r, n), r) {
        NotDrawn(r, n);
      }
    }
  }
}
