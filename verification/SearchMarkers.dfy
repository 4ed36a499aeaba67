/** The marker words of the ROM search: what `path`, `next` and `pos` mean in words of any
    width, how one pass leads to the next, and what a whole search returns. */
module SearchMarkers {
  import opened Words
  import opened RomOrder

  // ----- the marker words

  /** The digits of `word` are the decisions in `code`. */
  ghost predicate Encodes(word: nat, code: seq<bool>) {
    forall k: nat :: Bit(word, k) == (k < |code| && code[k])
  }

  lemma ZeroEncodes(code: seq<bool>)
    ensures Encodes(0, code) == AllFalse(code, 0)
  {
    forall k: nat ensures !Bit(0, k) { ZeroBits(k); }
    if Encodes(0, code) {
      forall k | 0 <= k < |code| ensures !code[k] { assert !Bit(0, k); }
    }
  }

  lemma EncodesZero(word: nat, code: seq<bool>)
    requires Encodes(word, code) && AllFalse(code, 0)
    ensures word == 0
  {
    forall k: nat ensures Bit(word, k) == Bit(0, k) { ZeroBits(k); }
    BitsDetermine(word, 0);
  }

  /** `pos` after c collisions in words of `width` bits: it is shifted out after the last bit. */
  function Marker(c: nat, width: nat): nat {
    if c < width then Pow2(c) else 0
  }

  /** `pos << 1` and `pos - 1` for a word `pos` of `width` bits. */
  function ShiftLeft(pos: nat, width: nat): int {
    if 2 * pos < Pow2(width) then 2 * pos else 2 * pos - Pow2(width)
  }

  function Decrement(pos: nat, width: nat): nat {
    if pos == 0 then Pow2(width) - 1 else pos - 1
  }

  lemma {:induction false} Pow2Increases(i: nat, j: nat)
    requires i < j
    ensures Pow2(i) < Pow2(j)
  {
    if i + 1 < j { Pow2Increases(i, j - 1); }
  }

  lemma ShiftMarker(c: nat, width: nat)
    ensures Marker(c, width) < Pow2(width)
    ensures ShiftLeft(Marker(c, width), width) == Marker(c + 1, width)
  {
    if c < width { Pow2Increases(c, width); }
    if c + 1 < width { Pow2Increases(c + 1, width); }
  }

  lemma DecrementBits(c: nat, width: nat, k: nat)
    ensures Bit(Decrement(Marker(c, width), width), k) == (k < c && k < width)
  {
    MaskBits(width, k);
    MaskBits(c, k);
  }

  lemma MarkerBits(c: nat, width: nat, k: nat)
    ensures Bit(Marker(c, width), k) == (c == k && c < width)
  {
    PowerBits(c, k);
    ZeroBits(k);
  }

  /** Testing the marker reads the recorded decision; beyond the word width it reads 0. */
  lemma MarkerTest(path: nat, code: seq<bool>, c: nat, width: nat)
    requires Encodes(path, code) && path < Pow2(width)
    ensures (And(Marker(c, width), path) != 0) == (c < |code| && code[c])
  {
    var w := And(Marker(c, width), path);
    forall k: nat ensures Bit(w, k) == (k == c && c < width && Bit(path, c)) {
      AndBits(Marker(c, width), path, k);
      MarkerBits(c, width, k);
    }
    if c >= width { HighBits(path, width, c); }
    if w == 0 {
      ZeroBits(c);
    } else if !Bit(path, c) {
      forall k: nat ensures Bit(w, k) == Bit(0, k) { ZeroBits(k); }
      BitsDetermine(w, 0);
    }
  }

  /** The word for the next pass, as the inner loop computes it on a collision that reads 0. */
  lemma NewBranch(path: nat, code: seq<bool>, c: nat, width: nat)
    requires Encodes(path, code) && path < Pow2(width) && c <= |code|
    ensures var next := Or(And(path, Decrement(Marker(c, width), width)), Marker(c, width));
            if c < width then Encodes(next, code[..c] + [true]) else next == path
  {
    var pos := Marker(c, width);
    var low := And(path, Decrement(pos, width));
    var next := Or(low, pos);
    forall k: nat ensures Bit(next, k) == ((k < c && k < width && Bit(path, k)) || (k == c && c < width)) {
      OrBits(low, pos, k);
      AndBits(path, Decrement(pos, width), k);
      DecrementBits(c, width, k);
      MarkerBits(c, width, k);
    }
    if c >= width {
      forall k: nat ensures Bit(next, k) == Bit(path, k) {
        if k >= width { HighBits(path, width, k); }
      }
      BitsDetermine(next, path);
    }
  }

  /** `next` after i bits of a pass that follows `path` to the ROM t. */
  ghost predicate NextWord(devices: set<Rom>, t: Rom, i: nat, path: nat, width: nat, next: nat)
    requires i <= ROM_BITS
  {
    var code := Decisions(devices, t, i);
    if |code| <= width then Encodes(next, NextCode(code)) else next == path
  }

  lemma NextCodeGrows(code: seq<bool>, b: bool)
    ensures NextCode(code + [b]) == if b then NextCode(code) else code + [true]
  {
    assert (code + [b])[..|code|] == code;
  }

  // ----- what a search returns

  /** The first device, other than the last, on whose way the marker word runs out of bits.
      `r` lists the devices in increasing order. */
  ghost function Stuck(devices: set<Rom>, r: seq<Rom>, width: nat, k: nat): (n: nat)
    requires k < |r|
    ensures k <= n < |r|
    ensures forall i | k <= i < n :: |Decisions(devices, r[i], ROM_BITS)| <= width
    ensures n < |r| - 1 ==> |Decisions(devices, r[n], ROM_BITS)| > width
    decreases |r| - k
  {
    if k == |r| - 1 || |Decisions(devices, r[k], ROM_BITS)| > width then k
    else Stuck(devices, r, width, k + 1)
  }

  /** The device found by pass c: the search repeats the device at which it is stuck. */
  ghost function Visited(devices: set<Rom>, r: seq<Rom>, width: nat, c: nat): (rom: Rom)
    requires r != []
    ensures rom in r
  {
    var k := Stuck(devices, r, width, 0);
    r[if c < k then c else k]
  }

  function Min(a: nat, b: nat): nat { if a < b then a else b }

  /** The number of passes. A search stuck at the first device stops there, since its path is 0. */
  ghost function Passes(devices: set<Rom>, r: seq<Rom>, width: nat, maxDevices: nat): nat
    requires r != []
  {
    var k := Stuck(devices, r, width, 0);
    if k == |r| - 1 then Min(|r|, maxDevices)
    else if k == 0 then Min(1, maxDevices)
    else maxDevices
  }

  ghost function SearchResult(devices: set<Rom>, r: seq<Rom>, width: nat, maxDevices: nat): seq<Rom>
    requires r != []
  {
    seq(Passes(devices, r, width, maxDevices), c requires c >= 0 => Visited(devices, r, width, c))
  }

  /** The promised result: as many devices as fit, in increasing order. */
  ghost function Promised(r: seq<Rom>, maxDevices: nat): seq<Rom> {
    r[..Min(|r|, maxDevices)]
  }

  /** No device before the last one wanted meets more collisions than a marker word has bits. */
  ghost predicate MarkersSuffice(devices: set<Rom>, r: seq<Rom>, width: nat, maxDevices: nat) {
    forall k | 0 <= k < Min(|r|, maxDevices) - 1 :: |Decisions(devices, r[k], ROM_BITS)| <= width
  }

  /** The search delivers the promised devices exactly when the marker words suffice. */
  lemma SearchExact(devices: set<Rom>, r: seq<Rom>, width: nat, maxDevices: nat)
    requires Lists(devices, r) && r != []
    ensures SearchResult(devices, r, width, maxDevices) == Promised(r, maxDevices)
            <==> MarkersSuffice(devices, r, width, maxDevices)
  {
    var k := Stuck(devices, r, width, 0);
    var n := Min(|r|, maxDevices);
    var result := SearchResult(devices, r, width, maxDevices);
    if k + 1 < n && |result| == n {
      LessIrreflexive(r[k], r[k + 1]);
      assert result[k + 1] != Promised(r, maxDevices)[k + 1];
    }
  }

  /** In particular a bus with at most width + 1 devices is searched correctly. */
  lemma SmallBusSuffices(devices: set<Rom>, r: seq<Rom>, width: nat, maxDevices: nat)
    requires Lists(devices, r) && r != [] && |devices| <= width + 1
    ensures SearchResult(devices, r, width, maxDevices) == Promised(r, maxDevices)
  {
    forall k | 0 <= k < |r| ensures |Decisions(devices, r[k], ROM_BITS)| <= width {
      assert r[k] in r;
      CollisionsBounded(devices, r[k], ROM_BITS);
    }
    SearchExact(devices, r, width, maxDevices);
  }

  /** And marker words as wide as an address suffice on every bus. */
  lemma WideWordsSuffice(devices: set<Rom>, r: seq<Rom>, width: nat, maxDevices: nat)
    requires Lists(devices, r) && r != [] && width >= ROM_BITS
    ensures SearchResult(devices, r, width, maxDevices) == Promised(r, maxDevices)
  {
    SearchExact(devices, r, width, maxDevices);
  }

  /** The ROM with only bit i set. */
  function UnitRom(i: nat): Rom
    requires i < ROM_BITS
  {
    ZeroRom()[i := true]
  }

  /** The ROM with no bit set. */
  function ZeroRom(): Rom {
    seq(64, _ => false)
  }

  /** Too many devices for the markers: each of width + 1 devices collides with ZeroRom. */
  ghost function Comb(width: nat): set<Rom>
    requires width < ROM_BITS
  {
    {ZeroRom()} + Units(width + 1)
  }

  ghost function Units(n: nat): (r: set<Rom>)
    requires n <= ROM_BITS
    ensures forall i: nat | i < n :: UnitRom(i) in r
  {
    if n == 0 then {} else Units(n - 1) + {UnitRom(n - 1)}
  }

  lemma {:induction false} CombCollides(width: nat, i: nat)
    requires i <= width + 1 <= ROM_BITS
    ensures |Decisions(Comb(width), ZeroRom(), i)| == i
  {
    if i > 0 {
      CombCollides(width, i - 1);
      var g := Group(Comb(width), ZeroRom()[..i - 1]);
      var u := UnitRom(i - 1);
      assert u[..i - 1] == ZeroRom()[..i - 1];
      assert u in g && u[i - 1];
      assert ZeroRom() in g && !ZeroRom()[i - 1];
    }
  }

  lemma {:induction false} UnitsSize(n: nat)
    requires n <= ROM_BITS
    ensures |Units(n)| == n && ZeroRom() !in Units(n)
    ensures forall i: nat | n <= i < ROM_BITS :: UnitRom(i) !in Units(n)
  {
    if n > 0 {
      UnitsSize(n - 1);
      var u := UnitRom(n - 1);
      assert u[n - 1] && !ZeroRom()[n - 1];
      forall i: nat | n <= i < ROM_BITS ensures UnitRom(i) != u {
        assert !UnitRom(i)[n - 1];
      }
    }
  }

  lemma CombSize(width: nat)
    requires width < ROM_BITS
    ensures |Comb(width)| == width + 2
  {
    UnitsSize(width + 1);
  }

  lemma CombFirst(width: nat, r: seq<Rom>)
    requires width < ROM_BITS && Lists(Comb(width), r)
    ensures |r| >= 2 && r[0] == ZeroRom()
  {
    var u := UnitRom(0);
    assert u[0] && u != ZeroRom();
    assert u in r && ZeroRom() in r;
    var k: nat :| k < |r| && r[k] == ZeroRom();
    assert !Less(r[0], ZeroRom());
  }

  lemma CombOverruns(width: nat)
    requires width < ROM_BITS
    ensures |Decisions(Comb(width), ZeroRom(), ROM_BITS)| > width
  {
    CombCollides(width, width + 1);
    DecisionsPrefix(Comb(width), ZeroRom(), width + 1, ROM_BITS);
  }

  lemma StuckAtFirst(devices: set<Rom>, r: seq<Rom>, width: nat, maxDevices: nat)
    requires |r| >= 2 && maxDevices >= 1 && |Decisions(devices, r[0], ROM_BITS)| > width
    ensures SearchResult(devices, r, width, maxDevices) == [r[0]]
  {
  }

  /** With width + 2 devices, one more than always suffices, the search can report one device and miss all
      the others. */
  lemma MarkerOverrun(width: nat, r: seq<Rom>, maxDevices: nat)
    requires 1 <= width < ROM_BITS && maxDevices >= 2 && Lists(Comb(width), r)
    ensures |Comb(width)| == width + 2
    ensures r != [] && SearchResult(Comb(width), r, width, maxDevices) == [ZeroRom()]
    ensures SearchResult(Comb(width), r, width, maxDevices) != Promised(r, maxDevices)
  {
    CombSize(width);
    CombFirst(width, r);
    CombOverruns(width);
    StuckAtFirst(Comb(width), r, width, maxDevices);
    assert |Promised(r, maxDevices)| >= 2;
  }

  /** After a pass whose collisions fit the marker word, `next` is 0 exactly when the ROM found
      is the last one in the order. */
  lemma NextZeroIffLast(devices: set<Rom>, t: Rom, path: nat, width: nat, next: nat)
    requires t in devices && |Decisions(devices, t, ROM_BITS)| <= width
    requires NextWord(devices, t, ROM_BITS, path, width, next)
    ensures next == 0 <==> forall d | d in devices :: !Less(t, d)
  {
    var code := Decisions(devices, t, ROM_BITS);
    if LastZero(code) < 0 {
      NoZeroIsLast(devices, t);
      EncodesZero(next, []);
    } else {
      var s := Successor(devices, t);
      NextEncodes(next, code, Decisions(devices, s, ROM_BITS), width);
    }
  }

  // ----- from one pass to the next

  /** Before pass c of a search, with `path` to follow. */
  ghost predicate OnTrack(devices: set<Rom>, r: seq<Rom>, width: nat, maxDevices: nat, c: nat, path: nat) {
    && Lists(devices, r) && r != []
    && c < Passes(devices, r, width, maxDevices) <= maxDevices
    && path < Pow2(width)
    && Encodes(path, Decisions(devices, Visited(devices, r, width, c), ROM_BITS))
    && (c > 0 ==> path != 0)
  }

  lemma FirstPass(devices: set<Rom>, r: seq<Rom>, width: nat, maxDevices: nat)
    requires Lists(devices, r) && r != [] && maxDevices >= 1
    ensures OnTrack(devices, r, width, maxDevices, 0, 0)
  {
    var s := Visited(devices, r, width, 0);
    assert s == r[0];
    FirstDecidesZero(devices, r);
    ZeroEncodes(Decisions(devices, s, ROM_BITS));
  }

  lemma FirstDecidesZero(devices: set<Rom>, r: seq<Rom>)
    requires Lists(devices, r) && r != []
    ensures AllFalse(Decisions(devices, r[0], ROM_BITS), 0)
  {
    assert r[0][..0] == [] && Group(devices, []) == devices;
    assert IsLeast(devices, r[0]);
    LeastDecidesZero(devices, r[0], 0, ROM_BITS);
  }

  /** Follow-up of a pass whose collisions fit the marker word: on to the successor. */
  lemma CleanPass(devices: set<Rom>, r: seq<Rom>, width: nat, maxDevices: nat, c: nat, path: nat, next: nat)
    requires OnTrack(devices, r, width, maxDevices, c, path)
    requires |Decisions(devices, Visited(devices, r, width, c), ROM_BITS)| <= width
    requires NextWord(devices, Visited(devices, r, width, c), ROM_BITS, path, width, next)
    ensures next == 0 || c + 1 == maxDevices ==> Passes(devices, r, width, maxDevices) == c + 1
    ensures next != 0 && c + 1 < maxDevices ==> OnTrack(devices, r, width, maxDevices, c + 1, next)
  {
    var k := Stuck(devices, r, width, 0);
    var t := Visited(devices, r, width, c);
    var code := Decisions(devices, t, ROM_BITS);
    assert c <= k && t == r[c];
    if LastZero(code) < 0 {
      NoZeroIsLast(devices, t);
      LastInOrder(r, c);
      EncodesZero(next, []);
    } else {
      var s := Successor(devices, t);
      NextInOrder(r, c, s);
      assert c < k;
      assert Visited(devices, r, width, c + 1) == s;
      NextEncodes(next, code, Decisions(devices, s, ROM_BITS), width);
    }
  }

  lemma NextEncodes(next: nat, code: seq<bool>, succ: seq<bool>, width: nat)
    requires |code| <= width && LastZero(code) >= 0
    requires Encodes(next, NextCode(code)) && NextCode(code) <= succ && AllFalse(succ, |NextCode(code)|)
    ensures Encodes(next, succ) && 0 < next < Pow2(width)
  {
    var n := NextCode(code);
    assert Bit(next, |n| - 1);
    ZeroBits(|n| - 1);
    forall k: nat ensures Bit(next, k) == (k < |succ| && succ[k]) {
      assert k < |n| ==> succ[k] == n[k];
    }
    BitsBound(next, width);
  }

  /** A pass that meets more collisions than the marker word has bits is the stuck one. */
  lemma OverrunIsStuck(devices: set<Rom>, r: seq<Rom>, width: nat, maxDevices: nat, c: nat, path: nat)
    requires OnTrack(devices, r, width, maxDevices, c, path)
    requires |Decisions(devices, Visited(devices, r, width, c), ROM_BITS)| > width
    ensures Stuck(devices, r, width, 0) <= c && Stuck(devices, r, width, 0) < |r| - 1
  {
    var k := Stuck(devices, r, width, 0);
    var t := Visited(devices, r, width, c);
    var code := Decisions(devices, t, ROM_BITS);
    HighBits(path, width, width);
    assert !code[width] by { assert Bit(path, width) == code[width]; }
    var s := Successor(devices, t);
    NextInOrder(r, if c < k then c else k, s);
  }

  /** Follow-up of such a pass: it is repeated, unless it followed path 0. */
  lemma OverrunPass(devices: set<Rom>, r: seq<Rom>, width: nat, maxDevices: nat, c: nat, path: nat)
    requires OnTrack(devices, r, width, maxDevices, c, path)
    requires |Decisions(devices, Visited(devices, r, width, c), ROM_BITS)| > width
    ensures path == 0 || c + 1 == maxDevices ==> Passes(devices, r, width, maxDevices) == c + 1
    ensures path != 0 && c + 1 < maxDevices ==> OnTrack(devices, r, width, maxDevices, c + 1, path)
  {
    var k := Stuck(devices, r, width, 0);
    var t := Visited(devices, r, width, c);
    var code := Decisions(devices, t, ROM_BITS);
    OverrunIsStuck(devices, r, width, maxDevices, c, path);
    assert t == r[k] && Visited(devices, r, width, c + 1) == t;
    if path == 0 {
      ZeroEncodes(code);
      ZeroDecisionsLeast(devices, t);
      OnlyFirstIsLeast(r, k);
    } else if k == 0 {
      FirstDecidesZero(devices, r);
      EncodesZero(path, code);
    }
  }

  lemma OnlyFirstIsLeast(r: seq<Rom>, k: nat)
    requires Increasing(r) && k < |r| && forall d | d in r :: d == r[k] || Less(r[k], d)
    ensures k == 0
  {
    assert r[0] in r;
    if Less(r[0], r[k]) { LessIrreflexive(r[0], r[k]); }
  }

  lemma PassAdvances(devices: set<Rom>, r: seq<Rom>, width: nat, maxDevices: nat, c: nat, path: nat, next: nat)
    requires OnTrack(devices, r, width, maxDevices, c, path)
    requires NextWord(devices, Visited(devices, r, width, c), ROM_BITS, path, width, next)
    ensures next == 0 || c + 1 == maxDevices ==> Passes(devices, r, width, maxDevices) == c + 1
    ensures next != 0 && c + 1 < maxDevices ==> OnTrack(devices, r, width, maxDevices, c + 1, next)
  {
    if |Decisions(devices, Visited(devices, r, width, c), ROM_BITS)| <= width {
      CleanPass(devices, r, width, maxDevices, c, path, next);
    } else {
      OverrunPass(devices, r, width, maxDevices, c, path);
    }
  }

  /** What holds after i bits of a pass that follows `path` to the ROM t. */
  ghost predicate Underway(devices: set<Rom>, selected: set<Rom>, t: Rom, i: nat,
                           path: nat, width: nat, next: nat, pos: nat)
  {
    && i <= ROM_BITS && t in devices
    && path < Pow2(width) && Encodes(path, Decisions(devices, t, ROM_BITS))
    && selected == Group(devices, t[..i])
    && NextWord(devices, t, i, path, width, next)
    && pos == Marker(|Decisions(devices, t, i)|, width)
  }

  lemma SelectNarrows(devices: set<Rom>, t: Rom, i: nat)
    requires i < ROM_BITS
    ensures Group(devices, t[..i + 1]) == Narrow(Group(devices, t[..i]), i, t[i])
  {
    forall d | d in devices ensures t[..i + 1] <= d <==> t[..i] <= d && d[i] == t[i] {
      assert t[..i + 1] == t[..i] + [t[i]];
    }
  }

  /** A bit on which all selected devices agree changes no marker. */
  lemma QuietBit(devices: set<Rom>, selected: set<Rom>, t: Rom, i: nat,
                 path: nat, width: nat, next: nat, pos: nat)
    requires i < ROM_BITS && Underway(devices, selected, t, i, path, width, next, pos)
    requires !Collide(selected, i)
    ensures Underway(devices, Narrow(selected, i, t[i]), t, i + 1, path, width, next, pos)
  {
    SelectNarrows(devices, t, i);
    assert Decisions(devices, t, i + 1) == Decisions(devices, t, i);
  }

  /** On a collision the marker tells which way the path goes, and a fresh 0 is recorded. */
  lemma CollisionBit(devices: set<Rom>, selected: set<Rom>, t: Rom, i: nat,
                     path: nat, width: nat, next: nat, pos: nat)
    requires i < ROM_BITS && Underway(devices, selected, t, i, path, width, next, pos)
    requires Collide(selected, i)
    ensures (And(pos, path) != 0) == t[i]
    ensures Decrement(pos, width) >= 0 && ShiftLeft(pos, width) >= 0
    ensures Underway(devices, Narrow(selected, i, t[i]), t, i + 1, path, width,
                     if t[i] then next else Or(And(path, Decrement(pos, width)), pos), ShiftLeft(pos, width))
  {
    var code, all := Decisions(devices, t, i), Decisions(devices, t, ROM_BITS);
    SelectNarrows(devices, t, i);
    DecisionsPrefix(devices, t, i + 1, ROM_BITS);
    assert code + [t[i]] <= all && all[..|code|] == code;
    MarkerTest(path, all, |code|, width);
    NewBranch(path, all, |code|, width);
    NextCodeGrows(code, t[i]);
    ShiftMarker(|code|, width);
  }
}
