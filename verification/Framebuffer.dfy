/** Drawing into the background buffer of Linux/framebuffer.c: the pixel store, the circle
    rasteriser, and the window that is filled through a moving pointer. */
module Framebuffer {
  import opened CircleArc
  import opened CircleWords

  type Color = n: int | 0 <= n < 0x1_0000_0000

  newtype int16 = n: int | -0x8000 <= n < 0x8000

  /** Storing a value in a 16-bit variable. */
  function Store(v: int): int16 { Wrap(v) as int16 }

  /** Position of pixel (x, y) in a buffer with rows of `w` pixels. */
  function Index(w: nat, x: int, y: int): int { x + w * y }

  lemma RowGap(w: nat, y: int, v: int)
    requires y < v
    ensures w * v >= w * y + w
  {
    MoreRows(w, y, v - y - 1);
  }

  lemma {:induction false} MoreRows(w: nat, y: int, n: nat)
    ensures w * (y + 1 + n) >= w * y + w
  {
    OneRow(w, y + n);
    if n > 0 { MoreRows(w, y, n - 1); }
  }

  lemma OneRow(w: nat, y: int)
    ensures w * (y + 1) == w * y + w
  {
  }

  lemma IndexInRange(w: nat, h: nat, x: int, y: int)
    requires 0 <= x < w && 0 <= y < h
    ensures 0 <= Index(w, x, y) < w * h
  {
    RowGap(w, y, h);
    if y > 0 { RowGap(w, 0, y); }
  }

  lemma IndexInjective(w: nat, x: int, y: int, u: int, v: int)
    requires 0 <= x < w && 0 <= u < w && Index(w, x, y) == Index(w, u, v)
    ensures x == u && y == v
  {
    if y < v {
      RowGap(w, y, v);
    } else if v < y {
      RowGap(w, v, y);
    }
  }

  /** One position past the end of a row is the start of the next. */
  lemma IndexWraps(w: nat, x: int, y: int)
    ensures Index(w, x + w, y) == Index(w, x, y + 1)
  {
  }

  /** Column and row of a position are determined. */
  lemma DivMod(n: nat, w: nat, q: nat, t: nat)
    requires t < w && n == w * q + t
    ensures n / w == q && n % w == t
  {
    var (q', t') := (n / w, n % w);
    assert n == w * q' + t';
    if q < q' { RowGap(w, q, q'); } else if q' < q { RowGap(w, q', q); }
  }

  lemma DivModNext(n: nat, w: nat)
    requires w > 0
    ensures n % w + 1 < w ==> (n + 1) / w == n / w && (n + 1) % w == n % w + 1
    ensures n % w + 1 >= w ==> (n + 1) / w == n / w + 1 && (n + 1) % w == 0
  {
    var q, t := n / w, n % w;
    OneRow(w, q);
    if t + 1 < w { DivMod(n + 1, w, q, t + 1); } else { DivMod(n + 1, w, q + 1, 0); }
  }

  /** Every position is the position of a pixel. */
  lemma {:induction false} IndexOnto(w: nat, h: nat, p: nat) returns (x: int, y: int)
    requires p < w * h
    ensures 0 <= x < w && 0 <= y < h && Index(w, x, y) == p
    decreases h
  {
    if p >= w * (h - 1) {
      x, y := p - w * (h - 1), h - 1;
    } else {
      x, y := IndexOnto(w, h - 1, p);
    }
  }

  /** A pixel is painted when the offset mirrored into the left upper quadrant is on the arc. */
  predicate Hit(points: seq<Offset>, dx: int, dy: int) {
    Mirror(Offset(dx, dy)) in points
  }

  class Screen {
    const xres: nat
    const yres: nat
    const buffer: array<Color>

    // the window
    var windowInit: bool
    var ptr: int
    var x: int
    var xMax: int

    predicate Valid() {
      buffer.Length == xres * yres
    }

    predicate OnScreen(px: int, py: int) {
      0 <= px < xres && 0 <= py < yres
    }

    function Pixel(px: int, py: int): Color
      requires Valid() && OnScreen(px, py)
      reads buffer
    {
      IndexInRange(xres, yres, px, py);
      buffer[Index(xres, px, py)]
    }

    constructor (xres: nat, yres: nat, background: Color)
      ensures this.xres == xres && this.yres == yres && Valid() && fresh(buffer)
      ensures !windowInit && x == 0
    {
      this.xres, this.yres := xres, yres;
      buffer := new Color[xres * yres](_ => background);
      windowInit, ptr, x, xMax := false, 0, 0, 0;
    }

    method DrawPixel32(px: int, py: int, color: Color)
      requires Valid() && OnScreen(px, py)
      modifies buffer
      ensures Pixel(px, py) == color
      ensures forall u, v | OnScreen(u, v) && (u != px || v != py) :: Pixel(u, v) == old(Pixel(u, v))
    {
      IndexInRange(xres, yres, px, py);
      buffer[Index(xres, px, py)] := color;
      forall u, v | OnScreen(u, v) && (u != px || v != py) ensures Pixel(u, v) == old(Pixel(u, v)) {
        IndexInRange(xres, yres, u, v);
        if Index(xres, u, v) == Index(xres, px, py) {
          IndexInjective(xres, u, v, px, py);
        }
      }
    }

    /** The buffer is `before`, with the mirror images of `points` around (x0, y0) painted. */
    ghost predicate Painted(before: seq<Color>, points: seq<Offset>, x0: int, y0: int, color: Color)
      reads buffer
    {
      && Valid() && |before| == buffer.Length
      && forall u, v | OnScreen(u, v) ::
           Pixel(u, v) == if Hit(points, u - x0, v - y0) then color else PixelOf(before, u, v)
    }

    function PixelOf(pixels: seq<Color>, px: int, py: int): Color
      requires Valid() && OnScreen(px, py) && |pixels| == buffer.Length
    {
      IndexInRange(xres, yres, px, py);
      pixels[Index(xres, px, py)]
    }

    lemma PaintedNone(x0: int, y0: int, color: Color)
      requires Valid()
      ensures Painted(buffer[..], [], x0, y0, color)
    {
      forall u, v | OnScreen(u, v) ensures Pixel(u, v) == PixelOf(buffer[..], u, v) {
        IndexInRange(xres, yres, u, v);
      }
    }

    /** The bounding box of an offset and its mirror images lies on the screen. */
    predicate BoxOnScreen(x0: int, y0: int, dx: nat, dy: nat) {
      OnScreen(x0 - dx, y0 - dy) && OnScreen(x0 + dx, y0 + dy)
    }

    /** The four mirror images of one offset. */
    method DrawMirrored(x0: int, y0: int, p: Offset, color: Color)
      requires Valid() && BoxOnScreen(x0, y0, Abs(p.x), Abs(p.y))
      modifies buffer
      ensures forall u, v | OnScreen(u, v) ::
        Pixel(u, v) == if Mirror(Offset(u - x0, v - y0)) == Mirror(p) then color else old(Pixel(u, v))
    {
      hide Index, Screen.Pixel, Mirror;
      DrawPixel32(x0 - p.x, y0 + p.y, color);
      DrawPixel32(x0 + p.x, y0 + p.y, color);
      DrawPixel32(x0 + p.x, y0 - p.y, color);
      DrawPixel32(x0 - p.x, y0 - p.y, color);
      forall u, v | OnScreen(u, v)
        ensures Pixel(u, v) == if Mirror(Offset(u - x0, v - y0)) == Mirror(p) then color else old(Pixel(u, v))
      {
        MirrorCases(Offset(u - x0, v - y0), p);
      }
    }

    /** Adds one offset to what has been painted. */
    method Plot(x0: int, y0: int, p: Offset, color: Color, ghost before: seq<Color>, ghost points: seq<Offset>)
      requires Valid() && BoxOnScreen(x0, y0, Abs(p.x), Abs(p.y))
      requires Painted(before, points, x0, y0, color)
      modifies buffer
      ensures Painted(before, points + [Mirror(p)], x0, y0, color)
    {
      hide Mirror;
      DrawMirrored(x0, y0, p, color);
    }

    /** The second half of the loop body of DrawCircle32. */
    method CircleStep(x0: int16, y0: int16, err0: int16) returns (x: int16, y: int16, err: int16)
      ensures State(x, y, err) == Turned(State(x0, y0, err0))
    {
      hide Wrap;
      x, y, err := x0, y0, err0;
      var e2 := err;
      if e2 <= y {
        y := Store(y as int + 1);
        err := Store(err as int + y as int * 2 + 1);
        if -(x as int) == y as int && e2 <= x {
          e2 := 0;
        }
      }
      if e2 > x {
        x := Store(x as int + 1);
        err := Store(err as int + x as int * 2 + 1);
      }
    }

    function State(x: int16, y: int16, err: int16): Loop {
      Loop(Offset(x as int, y as int), err as int)
    }

    /** One turn of the loop. */
    method CircleTurn(x0: int, y0: int, x1: int16, y1: int16, err1: int16, color: Color,
                      ghost before: seq<Color>, ghost points: seq<Offset>, ghost r: int)
      returns (x: int16, y: int16, err: int16)
      requires Valid() && BoxOnScreen(x0, y0, Abs(r), if r >= 0 then r else 0)
      requires Turning(points, State(x1, y1, err1), r)
      requires Painted(before, points, x0, y0, color)
      modifies buffer
      ensures Painted(before, points + [Mirror(Offset(x1 as int, y1 as int))], x0, y0, color)
      ensures x <= 0 ==>
        && Turning(points + [Mirror(Offset(x1 as int, y1 as int))], State(x, y, err), r)
        && 0 <= r - x as int - y as int < r - x1 as int - y1 as int
      ensures x > 0 ==> Drawn(points + [Mirror(Offset(x1 as int, y1 as int))], r)
    {
      hide Turning, Drawn, Mirror, Turned, Screen.Painted;
      TurningTurns(points, State(x1, y1, err1), r);
      Plot(x0, y0, Offset(x1 as int, y1 as int), color, before, points);
      x, y, err := CircleStep(x1, y1, err1);
    }

    method DrawCircle32(x0: int16, y0: int16, r: int16, color: Color) returns (ghost points: seq<Offset>)
      requires Valid() && r as int <= LIMIT
      requires BoxOnScreen(x0 as int, y0 as int, Abs(r as int), if r >= 0 then r as int else 0)
      modifies buffer
      ensures Drawn(points, r as int)
      ensures Painted(old(buffer[..]), points, x0 as int, y0 as int, color)
    {
      hide Turning, Drawn, Mirror, Wrap, Screen.Painted;
      var x, y, err := Store(-(r as int)), 0 as int16, Store(2 - 2 * r as int);
      points := [];
      TurningStarts(r as int);
      PaintedNone(x0 as int, y0 as int, color);
      while true
        invariant Turning(points, State(x, y, err), r as int)
        invariant Painted(old(buffer[..]), points, x0 as int, y0 as int, color)
        decreases r as int - x as int - y as int
      {
        ghost var p := Mirror(Offset(x as int, y as int));
        x, y, err := CircleTurn(x0 as int, y0 as int, x, y, err, color, old(buffer[..]), points, r as int);
        points := points + [p];
        if x > 0 {
          break;
        }
      }
    }

    // ----- pictures

    /** `after` is `before` with the first `row` rows of the picture, and the first `col` pixels of
        the next row, placed at (x0, y0). */
    ghost predicate Shows(after: seq<Color>, before: seq<Color>, x0: int, y0: int, sx: nat, pic: seq<Color>,
                          row: int, col: int)
    {
      && Valid() && |before| == |after| == buffer.Length
      && forall u, v | OnScreen(u, v) ::
           PixelOf(after, u, v) ==
           if x0 <= u < x0 + sx && y0 <= v && (v < y0 + row || (v == y0 + row && u < x0 + col)) &&
              0 <= Index(sx, u - x0, v - y0) < |pic|
           then pic[Index(sx, u - x0, v - y0)]
           else PixelOf(before, u, v)
    }

    /** A rectangle with its picture: it lies on the screen and the picture is long enough. */
    predicate Fitting(x0: int, y0: int, sx: nat, sy: nat, pic: seq<Color>) {
      0 <= x0 && 0 <= y0 && x0 + sx <= xres && y0 + sy <= yres && sx * sy <= |pic|
    }

    /** The buffer after a picture is drawn is determined. */
    lemma PictureDetermined(a: seq<Color>, b: seq<Color>, before: seq<Color>, x0: int, y0: int, sx: nat, sy: nat,
                            pic: seq<Color>)
      requires Shows(a, before, x0, y0, sx, pic, sy, 0) && Shows(b, before, x0, y0, sx, pic, sy, 0)
      ensures a == b
    {
      forall p | 0 <= p < |a| ensures a[p] == b[p] {
        var u, v := IndexOnto(xres, yres, p);
        assert PixelOf(a, u, v) == PixelOf(b, u, v);
      }
    }

    lemma ShowsNothing(before: seq<Color>, x0: int, y0: int, sx: nat, pic: seq<Color>)
      requires Valid() && |before| == buffer.Length
      ensures Shows(before, before, x0, y0, sx, pic, 0, 0)
    {
    }

    lemma ShowsEmpty(now: seq<Color>, before: seq<Color>, x0: int, y0: int, pic: seq<Color>, row: nat, rows: nat)
      requires Shows(now, before, x0, y0, 0, pic, row, 0)
      ensures Shows(now, before, x0, y0, 0, pic, rows, 0)
    {
    }

    /** The next pixel of the picture goes to its place. */
    lemma ShowsNext(now: seq<Color>, before: seq<Color>, x0: int, y0: int, sx: nat, sy: nat, pic: seq<Color>,
                    row: nat, col: nat)
      requires Shows(now, before, x0, y0, sx, pic, row, col) && Fitting(x0, y0, sx, sy, pic)
      requires row < sy && col < sx
      ensures 0 <= Index(sx, col, row) < |pic| && 0 <= Index(xres, x0 + col, y0 + row) < |now|
      ensures var after := now[Index(xres, x0 + col, y0 + row) := pic[Index(sx, col, row)]];
        && Shows(after, before, x0, y0, sx, pic, row, col + 1)
        && (col + 1 == sx ==> Shows(after, before, x0, y0, sx, pic, row + 1, 0))
    {
      IndexInRange(sx, sy, col, row);
      IndexInRange(xres, yres, x0 + col, y0 + row);
      var at := Index(xres, x0 + col, y0 + row);
      var after := now[at := pic[Index(sx, col, row)]];
      forall u, v | OnScreen(u, v)
        ensures PixelOf(after, u, v) ==
          if u == x0 + col && v == y0 + row then pic[Index(sx, col, row)] else PixelOf(now, u, v)
      {
        IndexInRange(xres, yres, u, v);
        if Index(xres, u, v) == at { IndexInjective(xres, u, v, x0 + col, y0 + row); }
      }
    }

    method SetWindow(x0: int, y0: int, sx: int, sy: int)
      modifies this
      ensures windowInit && ptr == Index(xres, x0, y0) && xMax == sx && x == old(x)
    {
      windowInit := true;
      ptr := Index(xres, x0, y0);
      xMax := sx;
    }

    method FillWindow(color: Color)
      requires windowInit ==> 0 <= ptr < buffer.Length
      modifies this, buffer
      ensures windowInit == old(windowInit) && xMax == old(xMax)
      ensures !windowInit ==> buffer[..] == old(buffer[..]) && x == old(x) && ptr == old(ptr)
      ensures windowInit ==> buffer[..] == old(buffer[..])[old(ptr) := color]
      ensures windowInit && old(x) + 1 < xMax ==> x == old(x) + 1 && ptr == old(ptr) + 1
      ensures windowInit && old(x) + 1 >= xMax ==> x == 0 && ptr == old(ptr) + 1 + xres - xMax
    {
      if !windowInit {
        return;
      }
      buffer[ptr] := color;
      ptr := ptr + 1;
      x := x + 1;
      if x < xMax {
        return;
      }
      x := 0;
      ptr := ptr + xres - xMax;
    }

    /** The column at which a window of this width goes on, with the counter at x. */
    function Column(x: nat, sx: nat): nat {
      if x < sx then x else if sx > 0 then sx - 1 else 0
    }

    /** Where pixel i of a window goes that starts at p0 in column c: the pointer moves on by one, and skips
        the rest of the row after every sx pixels. */
    function Slot(p0: int, c: nat, sx: nat, i: nat): int
      requires sx > 0
    {
      p0 + i + Skip(sx, (c + i) / sx)
    }

    function Skip(sx: nat, rows: nat): int { (xres - sx) * rows }

    /** All pixels of the window lie in the buffer. */
    ghost predicate SlotsFit(p0: int, c: nat, sx: nat, n: nat) {
      n > 0 ==> sx > 0 && sx <= xres && forall i: nat | i < n :: 0 <= Slot(p0, c, sx, i) < buffer.Length
    }

    /** `after` is `before` with the first n pixels of the window in their slots. */
    ghost predicate Placed(after: seq<Color>, before: seq<Color>, p0: int, c: nat, sx: nat, color: seq<Color>, n: nat)
      requires n <= |color|
    {
      && |after| == |before| && (n > 0 ==> sx > 0)
      && (forall i: nat | i < n && 0 <= Slot(p0, c, sx, i) < |after| :: after[Slot(p0, c, sx, i)] == color[i])
      && (forall pos | 0 <= pos < |after| && (forall i: nat | i < n :: Slot(p0, c, sx, i) != pos) ::
            after[pos] == before[pos])
    }

    lemma SkipNext(sx: nat, rows: nat)
      ensures Skip(sx, rows + 1) == Skip(sx, rows) + xres - sx
    {
    }

    /** How the pointer moves from one pixel to the next. */
    lemma SlotNext(p0: int, c: nat, sx: nat, i: nat)
      requires sx > 0
      ensures Slot(p0, c, sx, i + 1) ==
        Slot(p0, c, sx, i) + 1 + if (c + i) % sx + 1 < sx then 0 else xres - sx
    {
      hide Screen.Skip;
      DivModNext(c + i, sx);
      SkipNext(sx, (c + i) / sx);
    }

    lemma {:induction false} SlotsGrow(p0: int, c: nat, sx: nat, i: nat, j: nat)
      requires 0 < sx <= xres && i < j
      ensures Slot(p0, c, sx, i) < Slot(p0, c, sx, j)
      decreases j
    {
      hide Screen.Slot;
      SlotNext(p0, c, sx, j - 1);
      if i < j - 1 { SlotsGrow(p0, c, sx, i, j - 1); }
    }

    lemma PlacedNext(now: seq<Color>, before: seq<Color>, p0: int, c: nat, sx: nat, color: seq<Color>, n: nat)
      requires n < |color| && 0 < sx <= xres && 0 <= Slot(p0, c, sx, n) < |now|
      requires Placed(now, before, p0, c, sx, color, n)
      ensures Placed(now[Slot(p0, c, sx, n) := color[n]], before, p0, c, sx, color, n + 1)
    {
      hide Screen.Slot;
      forall i: nat | i < n ensures Slot(p0, c, sx, i) < Slot(p0, c, sx, n) {
        SlotsGrow(p0, c, sx, i, n);
      }
    }

    /** The window fills its slots from the column at which the counter stands, which the source does not
        reset, and comes back to that column. */
    method FlushWindow(x0: int, y0: int, sx: nat, sy: nat, color: seq<Color>)
      requires Valid() && 0 <= x && sx * sy <= |color|
      requires SlotsFit(Index(xres, x0, y0), Column(x, sx), sx, sx * sy)
      modifies this, buffer
      ensures Placed(buffer[..], old(buffer[..]), Index(xres, x0, y0), old(Column(x, sx)), sx, color, sx * sy)
      ensures x == if sx * sy == 0 then old(x) else old(Column(x, sx))
      ensures Fitting(x0, y0, sx, sy, color) && (old(x) == 0 || sx <= 1 || sx == xres || sy == 0) ==>
        Shows(buffer[..], old(buffer[..]), x0, y0, sx, color, sy, 0)
    {
      hide Screen.Slot, Screen.Placed, Index;
      SetWindow(x0, y0, sx, sy);
      ghost var p0, c, before, n := Index(xres, x0, y0), Column(x, sx), buffer[..], sx * sy;
      PlacedNone(before, p0, c, sx, color);
      if n > 0 { FirstSlot(p0, c, sx); }
      for i := 0 to sx * sy
        invariant windowInit && xMax == sx && n == sx * sy && (n > 0 ==> sx > 0)
        invariant n > 0 ==> ptr == Slot(p0, c, sx, i)
        invariant if i == 0 then x == old(x) else x == (c + i) % sx
        invariant Placed(buffer[..], before, p0, c, sx, color, i)
      {
        PlacedNext(buffer[..], before, p0, c, sx, color, i);
        SlotNext(p0, c, sx, i);
        DivModNext(c + i, sx);
        FirstColumnOf(c, sx);
        FillWindow(color[i]);
      }
      if n > 0 { SameColumn(c, sx, sy); }
      if Fitting(x0, y0, sx, sy, color) && (old(x) == 0 || sx <= 1 || sx == xres || sy == 0) {
        SlotsRight(p0, old(x), sx, sy);
        PlacedSame(buffer[..], before, p0, c, sx, color, n);
        PlacedShows(buffer[..], before, x0, y0, sx, sy, color);
      }
    }

    lemma PlacedNone(before: seq<Color>, p0: int, c: nat, sx: nat, color: seq<Color>)
      ensures Placed(before, before, p0, c, sx, color, 0)
    {
    }

    lemma FirstColumnOf(c: nat, sx: nat)
      requires sx > 0
      ensures c < sx ==> c % sx == c && c / sx == 0
    {
      if c < sx { DivMod(c, sx, 0, c); }
    }

    lemma FirstSlot(p0: int, c: nat, sx: nat)
      requires c < sx
      ensures Slot(p0, c, sx, 0) == p0
    {
      FirstColumnOf(c, sx);
    }

    lemma SameColumn(c: nat, sx: nat, sy: nat)
      requires c < sx
      ensures (c + sx * sy) % sx == c
    {
      DivMod(c + sx * sy, sx, sy, c);
    }

    /** The slots are those of a window that starts in column 0 if and only if it does, or there is nothing to
        skip, or nothing to fill. */
    lemma SlotsRight(p0: int, x: nat, sx: nat, sy: nat)
      requires sx <= xres
      ensures (forall i: nat | i < sx * sy :: sx > 0 && Slot(p0, Column(x, sx), sx, i) == Slot(p0, 0, sx, i))
          <==> x == 0 || sx <= 1 || sx == xres || sy == 0
    {
      var c := Column(x, sx);
      if sx > 1 && x > 0 && sx < xres && sy > 0 {
        var i := sx - c;
        OneRow(sx, sy - 1);
        DivMod(c + i, sx, 1, 0);
        DivMod(i, sx, 0, i);
        assert Slot(p0, c, sx, i) != Slot(p0, 0, sx, i);
        assert i < sx * sy;
      } else if sx == xres {
        assert forall rows: nat :: Skip(sx, rows) == 0;
      }
    }

    /** A picture of new and distinct colors. */
    ghost predicate Vivid(pic: seq<Color>, n: nat, before: seq<Color>)
      requires n <= |pic|
    {
      (forall i, j | 0 <= i < j < n :: pic[i] != pic[j]) && forall i | 0 <= i < n :: pic[i] !in before
    }

    /** Otherwise the window, filled with any such picture, does not show it. */
    lemma StaleDiffers(after: seq<Color>, before: seq<Color>, x0: int, y0: int, x: nat, sx: nat, sy: nat,
                       pic: seq<Color>)
      requires Valid() && |before| == buffer.Length && Fitting(x0, y0, sx, sy, pic) && Vivid(pic, sx * sy, before)
      requires x > 0 && 1 < sx < xres && sy > 0
      requires Placed(after, before, Index(xres, x0, y0), Column(x, sx), sx, pic, sx * sy)
      ensures !Shows(after, before, x0, y0, sx, pic, sy, 0)
    {
      hide Screen.Slot, Index;
      var p0, c := Index(xres, x0, y0), Column(x, sx);
      var i := sx - c;
      var pos := Index(xres, x0 + i, y0);
      LateSlot(x0, y0, x, sx, sy);
      PixelSlot(x0, y0, sx, sy, x0 + i, y0);
      IndexInRange(xres, yres, x0 + i, y0);
      assert PixelOf(after, x0 + i, y0) == after[pos];
      if j: nat :| j < sx * sy && Slot(p0, c, sx, j) == pos {
        assert after[pos] == pic[j];
      } else {
        assert after[pos] == before[pos];
      }
    }

    lemma LateSlot(x0: int, y0: int, x: nat, sx: nat, sy: nat)
      requires x > 0 && 1 < sx < xres && sy > 0
      ensures var c := Column(x, sx); var i := sx - c;
        && 0 < i < sx && i < sx * sy && Index(sx, i, 0) == i
        && Slot(Index(xres, x0, y0), c, sx, i) != Index(xres, x0 + i, y0)
    {
      var c := Column(x, sx);
      OneRow(sx, sy - 1);
      DivMod(sx, sx, 1, 0);
    }

    /** Slots from column 0 are the rows of the rectangle. */
    lemma SlotIsPixel(x0: int, y0: int, sx: nat, i: nat)
      requires sx > 0
      ensures Slot(Index(xres, x0, y0), 0, sx, i) == Index(xres, x0 + i % sx, y0 + i / sx)
    {
    }

    lemma PixelSlot(x0: int, y0: int, sx: nat, sy: nat, u: int, v: int)
      requires x0 <= u < x0 + sx && y0 <= v < y0 + sy
      ensures var i := Index(sx, u - x0, v - y0);
        0 <= i < sx * sy && Slot(Index(xres, x0, y0), 0, sx, i) == Index(xres, u, v)
    {
      var i := Index(sx, u - x0, v - y0);
      IndexInRange(sx, sy, u - x0, v - y0);
      DivMod(i, sx, v - y0, u - x0);
      SlotIsPixel(x0, y0, sx, i);
    }

    lemma OtherSlot(x0: int, y0: int, sx: nat, sy: nat, u: int, v: int, i: nat)
      requires 0 <= x0 && x0 + sx <= xres && i < sx * sy && 0 <= u < xres
      requires Slot(Index(xres, x0, y0), 0, sx, i) == Index(xres, u, v)
      ensures x0 <= u < x0 + sx && y0 <= v < y0 + sy
    {
      var q, t := i / sx, i % sx;
      assert i == sx * q + t;
      SlotIsPixel(x0, y0, sx, i);
      IndexInjective(xres, x0 + t, y0 + q, u, v);
      if q > sy { RowGap(sx, sy, q); }
    }

    /** A window that starts in column 0 shows the picture. */
    lemma PlacedShows(after: seq<Color>, before: seq<Color>, x0: int, y0: int, sx: nat, sy: nat, pic: seq<Color>)
      requires Valid() && |before| == buffer.Length && Fitting(x0, y0, sx, sy, pic)
      requires Placed(after, before, Index(xres, x0, y0), 0, sx, pic, sx * sy)
      ensures Shows(after, before, x0, y0, sx, pic, sy, 0)
    {
      hide Screen.Slot, Index;
      var p0 := Index(xres, x0, y0);
      forall u, v | OnScreen(u, v)
        ensures PixelOf(after, u, v) ==
          if x0 <= u < x0 + sx && y0 <= v < y0 + sy && 0 <= Index(sx, u - x0, v - y0) < |pic|
          then pic[Index(sx, u - x0, v - y0)] else PixelOf(before, u, v)
      {
        IndexInRange(xres, yres, u, v);
        if x0 <= u < x0 + sx && y0 <= v < y0 + sy {
          PixelSlot(x0, y0, sx, sy, u, v);
        } else {
          forall i: nat | i < sx * sy ensures Slot(p0, 0, sx, i) != Index(xres, u, v) {
            if Slot(p0, 0, sx, i) == Index(xres, u, v) { OtherSlot(x0, y0, sx, sy, u, v, i); }
          }
        }
      }
    }

    lemma PlacedSame(after: seq<Color>, before: seq<Color>, p0: int, c: nat, sx: nat, color: seq<Color>, n: nat)
      requires n <= |color| && Placed(after, before, p0, c, sx, color, n)
      requires forall i: nat | i < n :: sx > 0 && Slot(p0, c, sx, i) == Slot(p0, 0, sx, i)
      ensures Placed(after, before, p0, 0, sx, color, n)
    {
      hide Screen.Slot;
    }

    method DrawPic32(x0: int, y0: int, sx: nat, sy: nat, pic: seq<Color>)
      requires Valid() && Fitting(x0, y0, sx, sy, pic)
      modifies buffer
      ensures Shows(buffer[..], old(buffer[..]), x0, y0, sx, pic, sy, 0)
    {
      hide Shows;
      ghost var before := buffer[..];
      ShowsNothing(before, x0, y0, sx, pic);
      var next := 0;
      for py := 0 to sy
        invariant next == Index(sx, 0, py)
        invariant Shows(buffer[..], before, x0, y0, sx, pic, py, 0)
      {
        IndexWraps(sx, 0, py);
        if sx == 0 { ShowsEmpty(buffer[..], before, x0, y0, pic, py, py + 1); }
        for px := 0 to sx
          invariant next == Index(sx, px, py)
          invariant Shows(buffer[..], before, x0, y0, sx, pic,
                          if px < sx then py else py + 1, if px < sx then px else 0)
        {
          ShowsNext(buffer[..], before, x0, y0, sx, sy, pic, py, px);
          buffer[Index(xres, px + x0, y0 + py)] := pic[next];
          next := next + 1;
        }
      }
    }
  }
}
