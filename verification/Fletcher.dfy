/** fletcher32 of Common/crc.c: sums in 32-bit variables that are reduced once per 360 words. */
module Fletcher {
  import opened Bytes

  const BLOCK := 360

  /** Plain sum of the words. */
  function Sum(words: seq<u16>): nat {
    if words == [] then 0 else Sum(words[..|words| - 1]) + words[|words| - 1]
  }

  /** Each word counts once for itself and once for every word after it. */
  function Weighted(words: seq<u16>): nat {
    if words == [] then 0 else |words| * words[0] + Weighted(words[1..])
  }

  /** The running sum of the plain sums. */
  function SumOfSums(words: seq<u16>): nat {
    if words == [] then 0 else SumOfSums(words[..|words| - 1]) + Sum(words)
  }

  lemma {:induction false} SumFront(words: seq<u16>)
    requires words != []
    ensures Sum(words) == words[0] + Sum(words[1..])
  {
    var n := |words| - 1;
    if n > 0 {
      SumFront(words[..n]);
      assert words[..n][1..] == words[1..][..n - 1];
    }
  }

  lemma {:induction false} SumOfSumsFront(words: seq<u16>)
    requires words != []
    ensures SumOfSums(words) == |words| * words[0] + SumOfSums(words[1..])
  {
    hide SumOfSums, Sum;
    var n := |words| - 1;
    var init, rest := words[..n], words[1..];
    SumOfSumsBack(words);
    SumFront(words);
    Distribute(n, words[0]);
    if n == 0 {
      assert init == [] && rest == [];
      EmptySums();
    } else {
      SumOfSumsBack(rest);
      SumOfSumsFront(init);
      assert init[1..] == rest[..n - 1] && init[0] == words[0];
    }
  }

  lemma SumOfSumsBack(words: seq<u16>)
    requires words != []
    ensures SumOfSums(words) == SumOfSums(words[..|words| - 1]) + Sum(words)
  {
  }

  lemma Distribute(n: nat, w: nat)
    ensures (n + 1) * w == n * w + w
  {
  }

  /** The running sum weighs the words by position. */
  lemma {:induction false} SumOfSumsWeighted(words: seq<u16>)
    ensures SumOfSums(words) == Weighted(words)
  {
    if words != [] {
      SumOfSumsFront(words);
      SumOfSumsWeighted(words[1..]);
    }
  }

  /** (s & 0xffff) + (s >> 16). */
  function Reduce(s: u32): u32 {
    s % 0x1_0000 + s / 0x1_0000
  }

  predicate Congruent(a: int, b: int) {
    (a - b) % 0xFFFF == 0
  }

  lemma CongruentIs(a: int, b: int)
    ensures Congruent(a, b) <==> (a - b) % 65535 == 0
  {
  }

  lemma CongruentSum(a: int, b: int, c: int, d: int)
    requires Congruent(a, b) && Congruent(c, d)
    ensures Congruent(a + c, b + d)
  {
  }

  lemma ReduceCongruent(s: u32, t: int)
    requires Congruent(s, t)
    ensures Congruent(Reduce(s), t)
  {
    assert s - Reduce(s) == 0xFFFF * (s / 0x1_0000);
    assert (s - t) % 0xFFFF == 0;
    assert Reduce(s) - t == (s - t) - 0xFFFF * (s / 0x1_0000);
  }

  /** 1 + 2 + ... + n. */
  function Triangle(n: nat): nat {
    if n == 0 then 0 else Triangle(n - 1) + n
  }

  lemma {:induction false} TriangleClosed(n: nat)
    ensures 2 * Triangle(n) == n * (n + 1)
  {
    if n > 0 { TriangleClosed(n - 1); }
  }

  /** What the inner loop makes of the two sums, without a limit on their size. */
  function Run(sums: (nat, nat), words: seq<u16>): (nat, nat) {
    if words == [] then sums
    else
      var before := Run(sums, words[..|words| - 1]);
      var sum1 := before.0 + words[|words| - 1];
      (sum1, before.1 + sum1)
  }

  lemma RunNext(sums: (nat, nat), data: seq<u16>, at: nat, n: nat)
    requires at + n < |data|
    ensures var before := Run(sums, data[at..at + n]);
      Run(sums, data[at..at + n + 1]) == (before.0 + data[at + n], before.1 + before.0 + data[at + n])
  {
    assert data[at..at + n + 1][..n] == data[at..at + n];
  }

  /** n words 0xFFFF. */
  function Worst(n: nat): (words: seq<u16>)
    ensures |words| == n
  {
    if n == 0 then [] else Worst(n - 1) + [0xFFFF]
  }

  /** From the initial sums, both 0xFFFF. */
  lemma {:induction false} WorstRun(n: nat)
    ensures Run((0xFFFF, 0xFFFF), Worst(n)) == (0xFFFF * (n + 1), 0xFFFF * (1 + n + Triangle(n)))
  {
    hide Run, Worst, Triangle;
    WorstStep(n);
    if n > 0 {
      WorstRun(n - 1);
      WorstSums(n, Triangle(n - 1));
    }
  }

  lemma WorstStep(n: nat)
    ensures n == 0 ==> Triangle(n) == 0 && Run((0xFFFF, 0xFFFF), Worst(n)) == (0xFFFF, 0xFFFF)
    ensures n > 0 ==> Triangle(n) == Triangle(n - 1) + n
    ensures n > 0 ==> var before := Run((0xFFFF, 0xFFFF), Worst(n - 1));
      Run((0xFFFF, 0xFFFF), Worst(n)) == (before.0 + 0xFFFF, before.1 + before.0 + 0xFFFF)
  {
    if n > 0 { assert Worst(n)[..n - 1] == Worst(n - 1); }
  }

  lemma WorstSums(n: nat, t: nat)
    requires n > 0
    ensures 0xFFFF * (1 + (n - 1) + t) + 0xFFFF * n + 0xFFFF == 0xFFFF * (1 + n + (t + n))
  {
  }

  /** 360 is the largest block size: the first block fits 32 bits with 360 words 0xFFFF and not with 361. */
  lemma BlockIsLargest()
    ensures Run((0xFFFF, 0xFFFF), Worst(BLOCK)).1 < 0x1_0000_0000 <= Run((0xFFFF, 0xFFFF), Worst(BLOCK + 1)).1
  {
    hide Run, Worst, Triangle;
    WorstRun(BLOCK);
    WorstRun(BLOCK + 1);
    TriangleClosed(BLOCK);
    TriangleClosed(BLOCK + 1);
  }

  lemma NoTriangle()
    ensures Triangle(0) == 0
  {
  }

  lemma TriangleNext(n: nat)
    ensures Triangle(n + 1) == Triangle(n) + n + 1
  {
  }

  lemma {:induction false} TriangleGrows(n: nat, m: nat)
    requires n <= m
    ensures Triangle(n) <= Triangle(m)
    decreases m
  {
    if n < m { TriangleGrows(n, m - 1); }
  }

  lemma BlockBound(n: nat)
    requires n <= BLOCK
    ensures 131070 + n * 65896 + 0xFFFF * Triangle(n) < 0x1_0000_0000
  {
    hide Triangle;
    TriangleClosed(BLOCK);
    TriangleGrows(n, BLOCK);
  }

  lemma ReduceBounds(s: u32)
    ensures s >= 1 ==> Reduce(s) >= 1
    ensures Reduce(s) <= 131070
    ensures s <= 65896 + BLOCK * 0xFFFF ==> Reduce(s) <= 65896
    ensures s <= 131070 ==> Reduce(s) <= 0xFFFF
  {
  }

  /** One block: the inner do-while, then the reductions. */
  method Block(data: seq<u16>, at: nat, tlen0: nat, s1: u32, s2: u32) returns (sum1: u32, sum2: u32)
    requires 1 <= tlen0 <= BLOCK && at + tlen0 <= |data|
    requires 1 <= s1 <= 65896 && 1 <= s2 <= 131070
    requires Congruent(s1, Sum(data[..at])) && Congruent(s2, SumOfSums(data[..at]))
    ensures 1 <= sum1 <= 65896 && 1 <= sum2 <= 131070
    ensures Congruent(sum1, Sum(data[..at + tlen0])) && Congruent(sum2, SumOfSums(data[..at + tlen0]))
    ensures var (r1, r2) := Run((s1, s2), data[at..at + tlen0]);
      r1 < 0x1_0000_0000 && r2 < 0x1_0000_0000 && sum1 == Reduce(r1) && sum2 == Reduce(r2)
  {
    hide Congruent, Sum, SumOfSums, Reduce, Run, Triangle;
    sum1, sum2 := s1, s2;
    NoTriangle();
    RunStarts(s1, s2, data, at);
    var tlen := tlen0;
    var n := 0;
    while tlen > 0
      invariant n + tlen == tlen0
      invariant 1 <= sum1 <= s1 + n * 0xFFFF && 1 <= sum2 <= 131070 + n * 65896 + 0xFFFF * Triangle(n)
      invariant Congruent(sum1, Sum(data[..at + n])) && Congruent(sum2, SumOfSums(data[..at + n]))
      invariant Run((s1, s2), data[at..at + n]) == (sum1, sum2)
    {
      RunNext((s1, s2), data, at, n);
      TriangleNext(n);
      BlockBound(n + 1);
      WordAdded(data, at + n, sum1, sum2);
      sum1 := sum1 + data[at + n];
      sum2 := sum2 + sum1;
      tlen, n := tlen - 1, n + 1;
    }
    ReduceBounds(sum1);
    ReduceBounds(sum2);
    ReduceCongruent(sum1, Sum(data[..at + n]));
    ReduceCongruent(sum2, SumOfSums(data[..at + n]));
    sum1, sum2 := Reduce(sum1), Reduce(sum2);
  }

  /** One more word keeps both sums congruent. */
  lemma WordAdded(data: seq<u16>, k: nat, s1: int, s2: int)
    requires k < |data| && Congruent(s1, Sum(data[..k])) && Congruent(s2, SumOfSums(data[..k]))
    ensures Congruent(s1 + data[k], Sum(data[..k + 1]))
    ensures Congruent(s2 + (s1 + data[k]), SumOfSums(data[..k + 1]))
  {
    hide Congruent, Sum, SumOfSums;
    PrefixSums(data, k);
    CongruentSame(data[k]);
    CongruentSum(s1, Sum(data[..k]), data[k], data[k]);
    CongruentSum(s2, SumOfSums(data[..k]), s1 + data[k], Sum(data[..k + 1]));
  }

  lemma RunStarts(s1: nat, s2: nat, data: seq<u16>, at: nat)
    requires at <= |data|
    ensures Run((s1, s2), data[at..at]) == (s1, s2)
  {
  }

  lemma CongruentSame(a: int)
    ensures Congruent(a, a)
  {
  }

  lemma PrefixSums(data: seq<u16>, k: nat)
    requires k < |data|
    ensures Sum(data[..k + 1]) == Sum(data[..k]) + data[k]
    ensures SumOfSums(data[..k + 1]) == SumOfSums(data[..k]) + Sum(data[..k + 1])
  {
    assert data[..k + 1][..k] == data[..k];
  }

  /** No 32-bit variable overflows, and the halves of the result are the two sums modulo 65535,
      each represented in 1..65535. */
  method Fletcher32(data: seq<u16>) returns (r: u32)
    ensures 1 <= r % 0x1_0000 && 1 <= r / 0x1_0000
    ensures (r % 0x1_0000 - Sum(data)) % 65535 == 0
    ensures (r / 0x1_0000 - Weighted(data)) % 65535 == 0
  {
    hide Sum, SumOfSums, Reduce, Congruent, Weighted;
    var sum1: u32, sum2: u32 := 0xFFFF, 0xFFFF;
    var len, at := |data|, 0;
    StartCongruent(data);
    while len > 0
      invariant 0 <= len && 0 <= at && at + len == |data| && 1 <= sum1 <= 65896 && 1 <= sum2 <= 131070
      invariant Congruent(sum1, Sum(data[..at])) && Congruent(sum2, SumOfSums(data[..at]))
    {
      var tlen := if len > BLOCK then BLOCK else len;
      len := len - tlen;
      sum1, sum2 := Block(data, at, tlen, sum1, sum2);
      at := at + tlen;
    }
    assert data[..|data|] == data;
    SumOfSumsWeighted(data);
    ReduceBounds(sum1);
    ReduceBounds(sum2);
    ReduceCongruent(sum1, Sum(data));
    ReduceCongruent(sum2, Weighted(data));
    sum1, sum2 := Reduce(sum1), Reduce(sum2);
    r := Halved(sum1, sum2, Sum(data), Weighted(data));
  }

  lemma StartCongruent(data: seq<u16>)
    ensures Congruent(0xFFFF, Sum(data[..0])) && Congruent(0xFFFF, SumOfSums(data[..0]))
  {
    assert data[..0] == [];
    EmptySums();
  }

  /** The last statement: the two sums in one word. */
  method Halved(sum1: u32, sum2: u32, ghost s: nat, ghost w: nat) returns (r: u32)
    requires 1 <= sum1 <= 0xFFFF && 1 <= sum2 <= 0xFFFF && Congruent(sum1, s) && Congruent(sum2, w)
    ensures 1 <= r % 0x1_0000 && 1 <= r / 0x1_0000
    ensures (r % 0x1_0000 - s) % 65535 == 0 && (r / 0x1_0000 - w) % 65535 == 0
  {
    hide Congruent;
    Halves(sum1, sum2);
    CongruentIs(sum1, s);
    CongruentIs(sum2, w);
    r := sum2 * 0x1_0000 + sum1;
  }

  lemma EmptySums()
    ensures Sum([]) == 0 && SumOfSums([]) == 0
  {
  }

  lemma Halves(low: nat, high: nat)
    requires low <= 0xFFFF && high <= 0xFFFF
    ensures high * 0x1_0000 + low < 0x1_0000_0000
    ensures (high * 0x1_0000 + low) % 0x1_0000 == low && (high * 0x1_0000 + low) / 0x1_0000 == high
  {
  }
}
