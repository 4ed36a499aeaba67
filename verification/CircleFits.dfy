/** Which circles keep all values of the drawing loop within 16 bits. The loop computes
    (x+1)^2 + (y+1)^2 - r^2 in steps, so this depends on where squares lie. */
module CircleFits {
  import opened CircleArc

  /** All values during a turn fit 16 bits: err before it, after the update for a step in y, and after it. */
  predicate Fits(p: Offset, e: int) {
    var q := NextOffset(p, e);
    && -0x8000 < p.x < 0x7FFF && 0 <= p.y < 0x7FFF && -0x8000 <= e < 0x8000
    && (e <= p.y ==> -0x8000 <= e + 2 * p.y + 3 < 0x8000)
    && -0x8000 <= e + ErrorGain(p, q) < 0x8000
  }

  /** The radii for which every turn does. */
  predicate Harmless(r: int) {
    r <= 10936 || 10942 <= r <= 10947
  }

  // ----- harmless radii

  /** No square lies above Square(c), up to a limit below Square(c + 1). */
  lemma RoundsDown(s: int, c: nat, top: int)
    requires Square(s) <= top < Square(c + 1)
    ensures Square(s) <= Square(c)
  {
    SquareAbs(s);
    if Abs(s) <= c {
      SquareMonotone(Abs(s), c);
    } else {
      SquareMonotone(c + 1, Abs(s));
    }
  }

  /** The largest s such that the walk can step into row r - j at offset -s - 1, for the rows near the top of
      the largest harmless circles. */
  function RowRoot(r: int, j: int): nat {
    if j == 0 then 104 else if j == 1 then 181 else if j == 2 then 233 else if j == 3 then 276
    else if j == 4 then 313 else if j == 5 then 346 else if j == 6 then (if r <= 10936 then 376 else 377)
    else if j == 7 then (if r <= 10936 then 404 else 405) else if j == 8 then (if r <= 10931 then 430 else 431)
    else if j == 9 then 455 else if j == 10 then 479 else if j == 11 then 501 else if j == 12 then 522
    else if j == 13 then 543 else if j == 14 then 563 else if j == 15 then 582 else if j == 16 then 600
    else if j == 17 then 618 else if j == 18 then 636 else if j == 19 then (if r <= 10943 then 652 else 653)
    else if j == 20 then 669 else if j == 21 then 685 else if j == 22 then 701 else if j == 23 then 716 else 731
  }

  lemma RowRootExact(r: int, j: int)
    requires 0 <= j && 10922 < r - j && Harmless(r)
    ensures var c := RowRoot(r, j);
      && r - j - 1 + 2 * (r * j) - j * j < (c + 1) * (c + 1)
      && c * c - 2 * (r * j) + j * j + 2 * (r - j) + 1 < 0x8000
  {
  }

  /** The step into row y: err exceeds three times the row number at most by what a square can. */
  lemma RowFits(r: int, y: int, s: int)
    requires 0 < y <= r && Harmless(r) && Square(s) + Square(y) - Square(r) <= y - 1
    ensures Square(s) + Square(y) - Square(r) + 2 * y + 1 < 0x8000
  {
    var j := r - y;
    if y > 10922 {
      var c := RowRoot(r, j);
      SquareMinus(r, j);
      RowRootExact(r, j);
      RoundsDown(s, c, r - j - 1 + 2 * (r * j) - j * j);
    }
  }

  /** A step in x on the left of the circle comes with a y that makes up for it. */
  lemma LeftRows(x: int, y: nat, r: int)
    requires 0 <= -x < r && Square(x) + Square(y) - Square(r) >= x
    ensures Square(y) >= r && (r > 10922 ==> y >= 105)
  {
    SquareAbs(x);
    SquareGap(-x, r);
    if y < 105 { SquareMonotone(y, 104); }
  }

  lemma TurnFits(p: Offset, e: int, r: int)
    requires OnArc(p, r) && 0 <= r && Harmless(r) && e == ErrorTerm(p, r) && -0x8000 <= e < 0x8000
    ensures Fits(p, e)
  {
    hide OnArc, ErrorTerm, Square;
    ArcBox(p, r);
    TopError(p, e, r);
    NearAxis(p, e, r);
    if e <= p.y {
      YStepBelow(p, e, r);
      YStepFits(p, e, r);
      if e > p.x { BothStepsFit(p, e, r); }
    }
  }

  lemma NearAxis(p: Offset, e: int, r: int)
    requires 0 <= p.y <= r && e == ErrorTerm(p, r)
    ensures p.x == -1 ==> e <= 2 * r + 1
    ensures p.x == -1 && p.y + 1 <= r ==> e <= 0
  {
    if p.x == -1 {
      SquareMonotone(p.y, r);
      SquareNext(p.y);
      if p.y + 1 <= r { SquareMonotone(p.y + 1, r); }
    }
  }

  lemma YStepFits(p: Offset, e: int, r: int)
    requires 0 <= p.y < r && Harmless(r) && e == ErrorTerm(p, r) && e <= p.y
    ensures e + 2 * p.y + 3 < 0x8000
  {
    RowFits(r, p.y + 1, p.x + 1);
  }

  lemma BothStepsFit(p: Offset, e: int, r: int)
    requires -r <= p.x < 0 <= p.y && Harmless(r) && e == ErrorTerm(p, r) && e > p.x
    ensures e + 2 * (p.y + 1) + 1 + 2 * (p.x + 1) + 1 >= -0x8000
  {
    LeftRows(p.x + 1, p.y + 1, r);
  }

  lemma {:induction false} WalkFits(r: int, n: nat)
    requires 0 <= r && Harmless(r) && Walk(r, n).x <= 0
    ensures Fits(Walk(r, n), ErrorTerm(Walk(r, n), r))
  {
    hide Walk, OnArc, NextOffset, ErrorTerm, ErrorGain;
    var p := Walk(r, n);
    WalkOnArc(r, n);
    if n == 0 {
      ArcStarts(r);
      WalkNext(r, 0);
    } else {
      var before := Walk(r, n - 1);
      WalkNext(r, n - 1);
      WalkFits(r, n - 1);
      ErrorFollows(before, ErrorTerm(before, r), r);
    }
    TurnFits(p, ErrorTerm(p, r), r);
  }

  // ----- the other radii

  /** A row near the top, and a column of it, at which the circle of radius r overflows. */
  function BadRow(r: int): nat {
    if r <= 10938 then 6 else if r <= 10941 then 7 else if r <= 10948 then 12 else if r <= 10952 then 9
    else if r <= 10975 then 2 else 0
  }

  function BadColumn(r: int): nat {
    if r <= 10938 then 377 else if r <= 10941 then 405 else if r <= 10948 then 523 else if r <= 10952 then 456
    else if r <= 10975 then 234 else 104
  }

  lemma BadRowFacts(r: int)
    requires r > 10936 && !Harmless(r)
    ensures var j, c := BadRow(r), BadColumn(r);
      && c + 1 < r - j && c * c - 2 * (r * j) + j * j <= r - j - 1
      && c * c - 2 * (r * j) + j * j + 2 * (r - j) + 1 >= 0x8000
  {
  }

  lemma Overflow(r: int) returns (k: nat)
    requires r > 10936 && !Harmless(r)
    ensures Walk(r, k).x <= 0 && !Fits(Walk(r, k), ErrorTerm(Walk(r, k), r))
  {
    var j, c := BadRow(r), BadColumn(r);
    BadRowFacts(r);
    SquareMinus(r, j);
    hide Walk, BadRow, BadColumn, NextOffset, OnArc;
    k := EntersRow(r, j, c);
  }

  /** Every value of every turn fits 16 bits if and only if the radius is harmless. */
  lemma FitsExactly(r: int)
    requires 0 <= r
    ensures (forall n: nat | Walk(r, n).x <= 0 :: Fits(Walk(r, n), ErrorTerm(Walk(r, n), r)))
        <==> r <= 10936 || 10942 <= r <= 10947
  {
    hide Walk, Fits, ErrorTerm;
    if Harmless(r) {
      forall n: nat | Walk(r, n).x <= 0 ensures Fits(Walk(r, n), ErrorTerm(Walk(r, n), r)) {
        WalkFits(r, n);
      }
    } else {
      var k := Overflow(r);
    }
  }
}
