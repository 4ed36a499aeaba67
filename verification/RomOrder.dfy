/** The 64-bit device addresses ("ROMs") of a 1-Wire bus, ordered as the search procedure
    visits them: lexicographically, least significant bit first. Includes the decisions a
    ROM takes at the places where it collides with another device. */
module RomOrder {

  const ROM_BITS := 64

  type Rom = s: seq<bool> | |s| == 64 witness seq(64, _ => false)

  /** The devices whose address starts with `prefix`. */
  ghost function Group(devices: set<Rom>, prefix: seq<bool>): set<Rom> {
    set d | d in devices && prefix <= d
  }

  /** The devices that stay selected when `bit` is written at depth i. */
  function Narrow(selected: set<Rom>, i: nat, bit: bool): set<Rom>
    requires i < ROM_BITS
  {
    set d | d in selected && d[i] == bit
  }

  /** Both bit values occur at depth i among `devices`. */
  predicate Collide(devices: set<Rom>, i: nat)
    requires i < ROM_BITS
  {
    (exists d | d in devices :: d[i]) && (exists d | d in devices :: !d[i])
  }

  /** The bits that `rom` takes at the collisions among its first i bits. */
  ghost function Decisions(devices: set<Rom>, rom: Rom, i: nat): (r: seq<bool>)
    requires i <= ROM_BITS
    ensures |r| <= i
  {
    if i == 0 then []
    else Decisions(devices, rom, i - 1) +
         if Collide(Group(devices, rom[..i - 1]), i - 1) then [rom[i - 1]] else []
  }

  /** Index of the last `false`, or -1. */
  function LastZero(code: seq<bool>): (r: int)
    ensures -1 <= r < |code|
    ensures r >= 0 ==> !code[r]
    ensures forall k | r < k < |code| :: code[k]
  {
    if |code| == 0 then -1
    else if !code[|code| - 1] then |code| - 1
    else LastZero(code[..|code| - 1])
  }

  /** The decisions that lead to the next branch: the last 0 becomes 1, later ones are dropped. */
  function NextCode(code: seq<bool>): seq<bool> {
    var j := LastZero(code);
    if j < 0 then [] else code[..j] + [true]
  }

  ghost predicate SplitAt(a: Rom, b: Rom, i: nat) {
    i < ROM_BITS && a[..i] == b[..i] && !a[i] && b[i]
  }

  ghost predicate Less(a: Rom, b: Rom) {
    exists i: nat :: SplitAt(a, b, i)
  }

  // ----- the order is a strict total order

  lemma LessTransitive(a: Rom, b: Rom, c: Rom)
    requires Less(a, b) && Less(b, c)
    ensures Less(a, c)
  {
    var i: nat :| SplitAt(a, b, i);
    var j: nat :| SplitAt(b, c, j);
    var k := if i < j then i else j;
    assert a[..k] == a[..i][..k] == b[..k] == b[..j][..k] == c[..k];
    if i < j { assert b[i] == b[..j][i] == c[..j][i]; }
    if j < i { assert b[j] == b[..i][j] == a[..i][j]; }
    assert SplitAt(a, c, k);
  }

  lemma LessIrreflexive(a: Rom, b: Rom)
    requires Less(a, b)
    ensures a != b && !Less(b, a)
  {
    if Less(b, a) {
      LessTransitive(a, b, a);
      assert false;
    }
  }

  /** Two different ROMs split at a first differing bit. */
  lemma {:induction false} FirstDifference(a: Rom, b: Rom, from: nat) returns (i: nat)
    requires a != b && from <= ROM_BITS && a[..from] == b[..from]
    ensures from <= i && (SplitAt(a, b, i) || SplitAt(b, a, i))
    decreases ROM_BITS - from
  {
    assert a == a[..ROM_BITS] && b == b[..ROM_BITS];
    if a[from] == b[from] {
      assert a[..from + 1] == a[..from] + [a[from]] && b[..from + 1] == b[..from] + [b[from]];
      i := FirstDifference(a, b, from + 1);
    } else {
      i := from;
    }
  }

  lemma LessTotal(a: Rom, b: Rom)
    ensures a == b || Less(a, b) || Less(b, a)
  {
    if a != b {
      assert a[..0] == b[..0];
      var i := FirstDifference(a, b, 0);
    }
  }

  ghost predicate IsLeast(devices: set<Rom>, m: Rom) {
    m in devices && forall d | d in devices :: d == m || Less(m, d)
  }

  lemma {:induction false} LeastExists(devices: set<Rom>)
    requires devices != {}
    ensures exists m :: IsLeast(devices, m)
    decreases |devices|
  {
    var x :| x in devices;
    if devices == {x} {
      assert IsLeast(devices, x);
    } else {
      var rest := devices - {x};
      assert devices == rest + {x};
      LeastExists(rest);
      var m :| IsLeast(rest, m);
      LessTotal(x, m);
      if Less(x, m) {
        forall d | d in devices ensures d == x || Less(x, d) {
          if d != x && d != m { LessTransitive(x, m, d); }
        }
        assert IsLeast(devices, x);
      } else {
        assert IsLeast(devices, m);
      }
    }
  }

  ghost function Least(devices: set<Rom>): (m: Rom)
    requires devices != {}
    ensures IsLeast(devices, m)
  {
    LeastExists(devices);
    var m :| IsLeast(devices, m);
    m
  }

  /** All devices in increasing order: the reference that the search is compared with. */
  ghost function SortedRoms(devices: set<Rom>): (r: seq<Rom>)
    ensures |r| == |devices|
    ensures forall d :: d in r <==> d in devices
    decreases |devices|
  {
    if devices == {} then []
    else
      var m := Least(devices);
      assert devices == {m} + (devices - {m});
      [m] + SortedRoms(devices - {m})
  }

  ghost predicate Increasing(r: seq<Rom>) {
    forall i, j | 0 <= i < j < |r| :: Less(r[i], r[j])
  }

  lemma {:induction false} SortedIncreasing(devices: set<Rom>)
    ensures Increasing(SortedRoms(devices))
    decreases |devices|
  {
    if devices != {} {
      var m := Least(devices);
      var rest := devices - {m};
      assert devices == {m} + rest;
      SortedIncreasing(rest);
      ConsIncreasing(m, SortedRoms(rest));
    }
  }

  lemma ConsIncreasing(m: Rom, r: seq<Rom>)
    requires Increasing(r) && forall d | d in r :: Less(m, d)
    ensures Increasing([m] + r)
  {
    assert forall k | 0 <= k < |r| :: r[k] in r;
  }

  /** In an increasing sequence, the element immediately after r[i] is r[i + 1]. */
  lemma NextInOrder(r: seq<Rom>, i: nat, s: Rom)
    requires Increasing(r) && i < |r| && s in r && Less(r[i], s)
    requires forall d | d in r && Less(r[i], d) :: d == s || Less(s, d)
    ensures i + 1 < |r| && r[i + 1] == s
  {
    var k: nat :| k < |r| && r[k] == s;
    OrderReflects(r, i, k);
    var u := r[i + 1];
    assert Less(r[i], u);
    if u != s { OrderReflects(r, k, i + 1); }
  }

  lemma OrderReflects(r: seq<Rom>, i: nat, k: nat)
    requires Increasing(r) && i < |r| && k < |r| && Less(r[i], r[k])
    ensures i < k
  {
    LessIrreflexive(r[i], r[k]);
  }

  /** If nothing follows r[i], it is the last element. */
  lemma LastInOrder(r: seq<Rom>, i: nat)
    requires Increasing(r) && i < |r|
    requires forall d | d in r :: !Less(r[i], d)
    ensures i + 1 == |r|
  {
    var u := if i + 1 < |r| then r[i + 1] else r[i];
    assert u in r;
  }

  /** `r` is the set `devices`, in increasing order. */
  ghost predicate Lists(devices: set<Rom>, r: seq<Rom>) {
    Increasing(r) && |r| == |devices| && forall d :: d in r <==> d in devices
  }

  lemma SortedLists(devices: set<Rom>)
    ensures Lists(devices, SortedRoms(devices))
  {
    SortedIncreasing(devices);
  }

  // ----- decisions

  lemma {:induction false} DecisionsPrefix(devices: set<Rom>, rom: Rom, i: nat, j: nat)
    requires i <= j <= ROM_BITS
    ensures Decisions(devices, rom, i) <= Decisions(devices, rom, j)
  {
    if i < j { DecisionsPrefix(devices, rom, i, j - 1); }
  }

  /** The decisions depend on the bits seen so far only. */
  lemma {:induction false} DecisionsShared(devices: set<Rom>, a: Rom, b: Rom, i: nat)
    requires i <= ROM_BITS && a[..i] == b[..i]
    ensures Decisions(devices, a, i) == Decisions(devices, b, i)
  {
    if i > 0 {
      assert a[..i - 1] == a[..i][..i - 1] == b[..i - 1];
      assert a[i - 1] == a[..i][i - 1] == b[i - 1];
      DecisionsShared(devices, a, b, i - 1);
    }
  }

  /** Where two devices first differ they collide, and both record their own bit. */
  lemma SplitDecides(devices: set<Rom>, a: Rom, b: Rom, i: nat)
    requires a in devices && b in devices && SplitAt(a, b, i)
    ensures Decisions(devices, a, i) == Decisions(devices, b, i)
    ensures Decisions(devices, a, i + 1) == Decisions(devices, a, i) + [false]
    ensures Decisions(devices, b, i + 1) == Decisions(devices, b, i) + [true]
    ensures |Decisions(devices, a, i)| < |Decisions(devices, a, ROM_BITS)|
    ensures |Decisions(devices, b, i)| < |Decisions(devices, b, ROM_BITS)|
    ensures !Decisions(devices, a, ROM_BITS)[|Decisions(devices, a, i)|]
    ensures Decisions(devices, b, ROM_BITS)[|Decisions(devices, b, i)|]
  {
    DecisionsShared(devices, a, b, i);
    assert a in Group(devices, a[..i]) && b in Group(devices, a[..i]);
    assert Collide(Group(devices, a[..i]), i);
    DecisionsPrefix(devices, a, i + 1, ROM_BITS);
    DecisionsPrefix(devices, b, i + 1, ROM_BITS);
  }

  /** Depth of the collision that produced decision j. */
  lemma {:induction false} DecisionDepth(devices: set<Rom>, rom: Rom, n: nat, j: nat) returns (i: nat)
    requires n <= ROM_BITS && j < |Decisions(devices, rom, n)|
    ensures i < n && Collide(Group(devices, rom[..i]), i) && |Decisions(devices, rom, i)| == j
    ensures Decisions(devices, rom, i + 1) == Decisions(devices, rom, i) + [rom[i]]
    ensures Decisions(devices, rom, n)[j] == rom[i]
  {
    if j < |Decisions(devices, rom, n - 1)| {
      i := DecisionDepth(devices, rom, n - 1, j);
    } else {
      i := n - 1;
    }
  }

  ghost predicate AllFalse(code: seq<bool>, from: nat) {
    forall k | from <= k < |code| :: !code[k]
  }

  /** Below a prefix within which it is the least device, a ROM decides 0 at every collision. */
  lemma {:induction false} LeastDecidesZero(devices: set<Rom>, s: Rom, from: nat, i: nat)
    requires from <= i <= ROM_BITS && IsLeast(Group(devices, s[..from]), s)
    ensures Decisions(devices, s, from) <= Decisions(devices, s, i)
    ensures AllFalse(Decisions(devices, s, i), |Decisions(devices, s, from)|)
  {
    if from < i {
      LeastDecidesZero(devices, s, from, i - 1);
      var g := Group(devices, s[..i - 1]);
      if Collide(g, i - 1) && s[i - 1] {
        var d :| d in g && !d[i - 1];
        assert d[..i - 1] == s[..i - 1];
        assert s[..from] == s[..i - 1][..from] == d[..from];
        assert d in Group(devices, s[..from]);
        assert SplitAt(d, s, i - 1);
        LessIrreflexive(d, s);
        assert false;
      }
    }
  }

  /** A ROM that decides 0 everywhere is the least one. */
  lemma ZeroDecisionsLeast(devices: set<Rom>, s: Rom)
    requires s in devices && AllFalse(Decisions(devices, s, ROM_BITS), 0)
    ensures IsLeast(devices, s)
  {
    forall d | d in devices ensures d == s || Less(s, d) {
      LessTotal(d, s);
      if Less(d, s) {
        var i: nat :| SplitAt(d, s, i);
        SplitDecides(devices, d, s, i);
      }
    }
  }

  /** A ROM that decides 1 everywhere has nothing after it. */
  lemma NoZeroIsLast(devices: set<Rom>, t: Rom)
    requires t in devices && LastZero(Decisions(devices, t, ROM_BITS)) < 0
    ensures forall d | d in devices :: !Less(t, d)
  {
    forall d | d in devices ensures !Less(t, d) {
      if Less(t, d) {
        var i: nat :| SplitAt(t, d, i);
        SplitDecides(devices, t, d, i);
      }
    }
  }

  /** Turning the last 0 decision of t into a 1 gives the decisions of t's immediate
      successor; after those, the successor only decides 0. */
  lemma Successor(devices: set<Rom>, t: Rom) returns (s: Rom)
    requires t in devices && LastZero(Decisions(devices, t, ROM_BITS)) >= 0
    ensures s in devices && Less(t, s)
    ensures forall d | d in devices && Less(t, d) :: d == s || Less(s, d)
    ensures NextCode(Decisions(devices, t, ROM_BITS)) <= Decisions(devices, s, ROM_BITS)
    ensures AllFalse(Decisions(devices, s, ROM_BITS), |NextCode(Decisions(devices, t, ROM_BITS))|)
  {
    var i: nat;
    s, i := BranchLeast(devices, t);
    LeastDecidesZero(devices, s, i + 1, ROM_BITS);
    forall d | d in devices && Less(t, d) ensures d == s || Less(s, d) {
      SuccessorIsNext(devices, t, s, d, i);
    }
  }

  /** The least device on the other side of the last collision where t decides 0. */
  lemma BranchLeast(devices: set<Rom>, t: Rom) returns (s: Rom, i: nat)
    requires t in devices && LastZero(Decisions(devices, t, ROM_BITS)) >= 0
    ensures s in devices && SplitAt(t, s, i) && IsLeast(Group(devices, s[..i + 1]), s)
    ensures LastZero(Decisions(devices, t, ROM_BITS)) == |Decisions(devices, t, i)|
    ensures NextCode(Decisions(devices, t, ROM_BITS)) == Decisions(devices, s, i + 1)
  {
    var code := Decisions(devices, t, ROM_BITS);
    i := DecisionDepth(devices, t, ROM_BITS, LastZero(code));
    var branch := Group(devices, t[..i] + [true]);
    var e :| e in Group(devices, t[..i]) && e[i];
    assert e[..i] == t[..i];
    assert e in branch;
    s := Least(branch);
    assert s[..i + 1] == t[..i] + [true];
    assert SplitAt(t, s, i) by {
      assert s[..i] == s[..i + 1][..i] == t[..i] && s[i] == s[..i + 1][i];
    }
    SplitDecides(devices, t, s, i);
    DecisionsPrefix(devices, t, i, ROM_BITS);
  }

  lemma NoLaterBranch(devices: set<Rom>, t: Rom, s: Rom, d: Rom, i: nat, k: nat)
    requires t in devices && s in devices && d in devices && SplitAt(t, s, i) && SplitAt(t, d, k)
    requires LastZero(Decisions(devices, t, ROM_BITS)) == |Decisions(devices, t, i)|
    ensures k <= i
  {
    SplitDecides(devices, t, d, k);
    SplitDecides(devices, t, s, i);
    if i < k { DecisionsPrefix(devices, t, i + 1, k); }
  }

  lemma SuccessorIsNext(devices: set<Rom>, t: Rom, s: Rom, d: Rom, i: nat)
    requires t in devices && d in devices && Less(t, d) && SplitAt(t, s, i)
    requires LastZero(Decisions(devices, t, ROM_BITS)) == |Decisions(devices, t, i)|
    requires IsLeast(Group(devices, s[..i + 1]), s)
    ensures d == s || Less(s, d)
  {
    var k: nat :| SplitAt(t, d, k);
    NoLaterBranch(devices, t, s, d, i, k);
    if k == i {
      assert d[..i + 1] == d[..i] + [true] == s[..i] + [true] == s[..i + 1];
      assert d in Group(devices, s[..i + 1]);
    } else {
      assert s[..k] == s[..i][..k] == t[..i][..k] == t[..k];
      assert s[k] == s[..i][k] == t[..i][k] == t[k];
      assert SplitAt(s, d, k);
    }
  }

  /** A ROM meets at most one collision per other device. */
  lemma {:induction false} CollisionsBounded(devices: set<Rom>, rom: Rom, i: nat)
    requires i <= ROM_BITS && rom in devices
    ensures |Decisions(devices, rom, i)| + |Group(devices, rom[..i])| <= |devices|
    ensures |Group(devices, rom[..i])| >= 1
  {
    var g := Group(devices, rom[..i]);
    assert rom in g;
    if i == 0 {
      assert g == devices;
    } else {
      CollisionsBounded(devices, rom, i - 1);
      var h := Group(devices, rom[..i - 1]);
      forall d | d in g ensures d in h {
        assert d[..i - 1] == d[..i][..i - 1] == rom[..i - 1];
      }
      SubsetSize(g, h);
      if Collide(h, i - 1) {
        var d :| d in h && d[i - 1] != rom[i - 1];
        assert d[..i][i - 1] != rom[..i][i - 1];
        assert d !in g;
        SubsetSize(g, h - {d});
      }
    }
  }

  lemma {:induction false} SubsetSize(a: set<Rom>, b: set<Rom>)
    requires a <= b
    ensures |a| <= |b|
    decreases |a|
  {
    if a != {} {
      var x :| x in a;
      SubsetSize(a - {x}, b - {x});
    }
  }

  lemma WholeGroup(devices: set<Rom>, rom: Rom, i: nat)
    requires rom in devices && i <= ROM_BITS
    ensures rom in Group(devices, rom[..i])
  {
  }

  /** After all 64 bits only the ROM itself is left. */
  lemma WholePrefix(devices: set<Rom>, rom: Rom)
    requires rom in devices
    ensures Group(devices, rom[..ROM_BITS]) == {rom}
  {
    assert rom[..ROM_BITS] == rom;
    forall d | d in Group(devices, rom) ensures d == rom {
      assert d[..64] == rom && d[..64] == d;
    }
  }
}
