/** MovingAverageFilter and MedianFilter of Common/filters.h: a ring buffer that has to agree with
    the last min(n, W) samples of the stream. */
module WindowFilters {

  /** The last min(n, W) samples of a stream. */
  function Window(history: seq<real>, size: nat): (w: seq<real>)
    ensures |w| == if |history| < size then |history| else size
  {
    if |history| < size then history else history[|history| - size..]
  }

  /** The first |w| cells of the ring hold the window w; its newest sample is just below index. */
  predicate Ring(cells: seq<real>, index: nat, w: seq<real>) {
    && index <= |w| <= |cells| && index < |cells|
    && (|w| < |cells| ==> index == |w|)
    && (forall i | 0 <= i < index :: cells[i] == w[|w| - index + i])
    && forall i | index <= i < |w| :: cells[i] == w[i - index]
  }

  /** Taking in one more sample: at full size the oldest one drops out. */
  function Push(w: seq<real>, x: real, size: nat): seq<real> {
    if |w| < size || w == [] then w + [x] else w[1..] + [x]
  }

  lemma WindowPush(history: seq<real>, x: real, size: nat)
    requires size > 0
    ensures Window(history + [x], size) == Push(Window(history, size), x, size)
  {
  }

  lemma NextIndex(index: nat, size: nat)
    requires index < size
    ensures (index + 1) % size == if index + 1 == size then 0 else index + 1
  {
  }

  /** Overwriting the cell at index and stepping on keeps the ring equal to the window; the cell
      that is lost held the sample that leaves a full window. */
  lemma RingStep(cells: seq<real>, index: nat, w: seq<real>, x: real)
    requires Ring(cells, index, w)
    ensures Ring(cells[index := x], (index + 1) % |cells|, Push(w, x, |cells|))
    ensures |w| == |cells| ==> cells[index] == w[0]
  {
    NextIndex(index, |cells|);
  }

  lemma RingBounds(cells: seq<real>, index: nat, w: seq<real>)
    requires Ring(cells, index, w)
    ensures index < |cells| && |w| <= |cells| && (|w| < |cells| ==> index == |w|)
  {
  }

  // ----- the moving average

  function Sum(s: seq<real>): real {
    if s == [] then 0.0 else s[0] + Sum(s[1..])
  }

  lemma {:induction false} SumAppend(s: seq<real>, x: real)
    ensures Sum(s + [x]) == Sum(s) + x
  {
    if s != [] {
      assert (s + [x])[1..] == s[1..] + [x];
      SumAppend(s[1..], x);
    }
  }

  lemma PushSize(w: seq<real>, x: real, size: nat)
    requires |w| <= size && size > 0
    ensures |Push(w, x, size)| == if |w| < size then |w| + 1 else size
  {
  }

  lemma SumPush(w: seq<real>, x: real, size: nat)
    requires |w| <= size && size > 0
    ensures Sum(Push(w, x, size)) == Sum(w) + x - if |w| < size then 0.0 else w[0]
    ensures |Push(w, x, size)| == if |w| < size then |w| + 1 else size
  {
    SumAppend(if |w| < size then w else w[1..], x);
  }

  /** m is the mean of w. */
  predicate Mean(w: seq<real>, m: real) {
    w != [] && m == Sum(w) / (|w| as real)
  }

  class MovingAverageFilter {
    const buffer: array<real>
    var sum: real
    var count: nat
    var index: nat
    ghost var history: seq<real>

    ghost predicate Valid()
      reads this, buffer
    {
      && buffer.Length > 0 && count == |Window(history, buffer.Length)|
      && Ring(buffer[..], index, Window(history, buffer.Length))
      && (forall i | count <= i < buffer.Length :: buffer[i] == 0.0)
      && sum == Sum(Window(history, buffer.Length))
    }

    constructor (windowSize: nat)
      requires windowSize > 0
      ensures Valid() && history == [] && fresh(buffer) && buffer.Length == windowSize
    {
      buffer := new real[windowSize](_ => 0.0);
      sum, count, index, history := 0.0, 0, 0, [];
    }

    method Update(newValue: real) returns (average: real)
      requires Valid()
      modifies this, buffer
      ensures Valid() && history == old(history) + [newValue]
      ensures Mean(Window(history, buffer.Length), average)
    {
      hide Sum, Window, Push, Ring;
      ghost var w := Window(history, buffer.Length);
      RingStep(buffer[..], index, w, newValue);
      WindowPush(history, newValue, buffer.Length);
      SumPush(w, newValue, buffer.Length);
      RingBounds(buffer[..], index, w);
      sum := sum - buffer[index];
      ghost var cells := buffer[..];
      buffer[index] := newValue;
      assert buffer[..] == cells[index := newValue];
      sum := sum + newValue;
      index := (index + 1) % buffer.Length;
      if count < buffer.Length {
        count := count + 1;
      }
      history := history + [newValue];
      average := sum / (count as real);
    }
  }

  /** Whatever the stream and the window size, output i is the mean of the last min(i + 1, W) samples. */
  method Averages(samples: seq<real>, windowSize: nat) returns (out: seq<real>)
    requires windowSize > 0
    ensures |out| == |samples|
    ensures forall i | 0 <= i < |out| :: Mean(Window(samples[..i + 1], windowSize), out[i])
  {
    hide Sum, Window, Ring, Mean;
    var filter := new MovingAverageFilter(windowSize);
    out := [];
    for n := 0 to |samples|
      invariant filter.Valid() && fresh(filter) && fresh(filter.buffer) && filter.buffer.Length == windowSize
      invariant |out| == n && filter.history == samples[..n]
      invariant forall i | 0 <= i < n :: Mean(Window(samples[..i + 1], windowSize), out[i])
    {
      var average := filter.Update(samples[n]);
      TakeNext(samples, n);
      out := out + [average];
    }
  }

  lemma TakeNext(samples: seq<real>, n: nat)
    requires n < |samples|
    ensures samples[..n] + [samples[n]] == samples[..n + 1]
  {
  }

  // ----- ranks and medians

  /** How many elements lie below v, or at most at v. */
  function Tally(s: seq<real>, v: real, inclusive: bool): (n: nat)
    ensures n <= |s|
  {
    if s == [] then 0
    else (if s[0] < v || (inclusive && s[0] == v) then 1 else 0) + Tally(s[1..], v, inclusive)
  }

  /** v is the element of rank k: at most k elements are smaller, more than k are not larger. */
  predicate Rank(s: seq<real>, k: nat, v: real) {
    Tally(s, v, false) <= k < Tally(s, v, true)
  }

  /** The median of s, for an even number of elements the mean of the two in the middle. */
  ghost predicate Median(s: seq<real>, m: real) {
    if |s| % 2 == 1 then Rank(s, |s| / 2, m)
    else exists lo, hi :: Middle(s, lo, hi) && m == (lo + hi) / 2.0
  }

  predicate Middle(s: seq<real>, lo: real, hi: real) {
    |s| >= 2 && Rank(s, |s| / 2 - 1, lo) && Rank(s, |s| / 2, hi)
  }

  lemma {:induction false} TallyMonotone(s: seq<real>, v: real, w: real)
    requires v < w
    ensures Tally(s, v, true) <= Tally(s, w, false)
  {
    if s != [] { TallyMonotone(s[1..], v, w); }
  }

  lemma RankUnique(s: seq<real>, k: nat, v: real, w: real)
    requires Rank(s, k, v) && Rank(s, k, w)
    ensures v == w
  {
    if v < w { TallyMonotone(s, v, w); }
    if w < v { TallyMonotone(s, w, v); }
  }

  /** A sequence has only one median. */
  lemma MedianUnique(s: seq<real>, a: real, b: real)
    requires Median(s, a) && Median(s, b)
    ensures a == b
  {
    var n := |s|;
    if n % 2 == 1 {
      RankUnique(s, n / 2, a, b);
    } else {
      var lo, hi :| Middle(s, lo, hi) && a == (lo + hi) / 2.0;
      var lo', hi' :| Middle(s, lo', hi') && b == (lo' + hi') / 2.0;
      RankUnique(s, n / 2 - 1, lo, lo');
      RankUnique(s, n / 2, hi, hi');
    }
  }

  lemma {:induction false} TallyJoin(a: seq<real>, b: seq<real>, v: real, inclusive: bool)
    ensures Tally(a + b, v, inclusive) == Tally(a, v, inclusive) + Tally(b, v, inclusive)
  {
    if a == [] {
      assert a + b == b;
    } else {
      assert (a + b)[1..] == a[1..] + b;
      TallyJoin(a[1..], b, v, inclusive);
    }
  }

  lemma {:induction false} TallyPermuted(a: seq<real>, b: seq<real>, v: real, inclusive: bool)
    requires multiset(a) == multiset(b)
    ensures Tally(a, v, inclusive) == Tally(b, v, inclusive)
    decreases |a|
  {
    hide Tally;
    assert |a| == |multiset(a)| == |multiset(b)| == |b|;
    if a == [] {
      assert b == [];
    } else {
      assert a[0] in multiset(b);
      var j :| 0 <= j < |b| && b[j] == a[0];
      assert b == b[..j] + ([b[j]] + b[j + 1..]);
      assert a == [a[0]] + a[1..];
      assert multiset(b) == multiset(b[..j] + b[j + 1..]) + multiset([a[0]]);
      assert multiset(a[1..]) == multiset(a) - multiset([a[0]]);
      TallyPermuted(a[1..], b[..j] + b[j + 1..], v, inclusive);
      TallyJoin([a[0]], a[1..], v, inclusive);
      TallyJoin(b[..j], [b[j]] + b[j + 1..], v, inclusive);
      TallyJoin([b[j]], b[j + 1..], v, inclusive);
      TallyJoin(b[..j], b[j + 1..], v, inclusive);
    }
  }

  lemma MedianPermuted(a: seq<real>, b: seq<real>, m: real)
    requires multiset(a) == multiset(b) && Median(a, m)
    ensures Median(b, m)
  {
    assert |a| == |multiset(a)| == |b|;
    if |a| % 2 == 1 {
      RankPermuted(a, b, |a| / 2, m);
    } else {
      var lo, hi :| Middle(a, lo, hi) && m == (lo + hi) / 2.0;
      RankPermuted(a, b, |a| / 2 - 1, lo);
      RankPermuted(a, b, |a| / 2, hi);
      assert Middle(b, lo, hi);
    }
  }

  lemma RankPermuted(a: seq<real>, b: seq<real>, k: nat, v: real)
    requires multiset(a) == multiset(b) && Rank(a, k, v)
    ensures Rank(b, k, v)
  {
    TallyPermuted(a, b, v, false);
    TallyPermuted(a, b, v, true);
  }

  lemma {:induction false} TallyNone(s: seq<real>, v: real)
    requires forall i | 0 <= i < |s| :: v <= s[i]
    ensures Tally(s, v, false) == 0
  {
    if s != [] { TallyNone(s[1..], v); }
  }

  lemma {:induction false} TallyAll(s: seq<real>, v: real)
    requires forall i | 0 <= i < |s| :: s[i] <= v
    ensures Tally(s, v, true) == |s|
  {
    if s != [] { TallyAll(s[1..], v); }
  }

  /** s is split at k: nothing before k is larger and nothing after k is smaller than s[k]. */
  predicate SplitAt(s: seq<real>, k: nat) {
    && k < |s|
    && (forall p | 0 <= p < k :: s[p] <= s[k])
    && forall q | k < q < |s| :: s[k] <= s[q]
  }

  lemma SplitRank(s: seq<real>, k: nat)
    requires SplitAt(s, k)
    ensures Rank(s, k, s[k])
  {
    hide Tally;
    assert s == s[..k] + s[k..] && s == s[..k + 1] + s[k + 1..];
    TallyJoin(s[..k], s[k..], s[k], false);
    TallyNone(s[k..], s[k]);
    TallyJoin(s[..k + 1], s[k + 1..], s[k], true);
    TallyAll(s[..k + 1], s[k]);
  }

  /** The largest element of the lower part has the rank just below k. */
  lemma LowerRank(s: seq<real>, k: nat, m: nat)
    requires SplitAt(s, k) && m < k
    requires forall p | 0 <= p < k :: s[p] <= s[m]
    ensures Rank(s, k - 1, s[m])
  {
    hide Tally;
    assert s == s[..k] + s[k..];
    assert s[..k] == s[..m] + ([s[m]] + s[m + 1..k]);
    TallyJoin(s[..k], s[k..], s[m], false);
    TallyNone(s[k..], s[m]);
    TallyJoin(s[..m], [s[m]] + s[m + 1..k], s[m], false);
    TallyJoin([s[m]], s[m + 1..k], s[m], false);
    TallyNone([s[m]], s[m]);
    TallyJoin(s[..k], s[k..], s[m], true);
    TallyAll(s[..k], s[m]);
  }

  // ----- the median filter

  method SmallestFrom(s: seq<real>, from: nat) returns (m: nat)
    requires from < |s|
    ensures from <= m < |s| && forall q | from <= q < |s| :: s[m] <= s[q]
  {
    m := from;
    for j := from + 1 to |s|
      invariant from <= m < |s| && forall q | from <= q < j :: s[m] <= s[q]
    {
      if s[j] < s[m] { m := j; }
    }
  }

  /** std::nth_element: some rearrangement that is split at k. */
  method NthElement(s: seq<real>, k: nat) returns (t: seq<real>)
    requires k < |s|
    ensures multiset(t) == multiset(s) && |t| == |s| && SplitAt(t, k)
  {
    t := s;
    for i := 0 to k + 1
      invariant multiset(t) == multiset(s) && |t| == |s|
      invariant forall p, q | 0 <= p < i && p < q < |t| :: t[p] <= t[q]
    {
      var m := SmallestFrom(t, i);
      t := t[i := t[m]][m := t[i]];
    }
  }

  method LargestBelow(s: seq<real>, k: nat) returns (m: nat)
    requires 0 < k <= |s|
    ensures m < k && forall p | 0 <= p < k :: s[p] <= s[m]
  {
    m := 0;
    for j := 1 to k
      invariant m < k && forall p | 0 <= p < j :: s[p] <= s[m]
    {
      if s[m] < s[j] { m := j; }
    }
  }

  class MedianFilter {
    const buffer: array<real>
    var index: nat
    var count: nat
    ghost var history: seq<real>

    ghost predicate Valid()
      reads this, buffer
    {
      && buffer.Length > 0 && count == |Window(history, buffer.Length)|
      && Ring(buffer[..], index, Window(history, buffer.Length))
    }

    constructor (windowSize: nat)
      requires windowSize > 0
      ensures Valid() && history == [] && fresh(buffer) && buffer.Length == windowSize
    {
      buffer := new real[windowSize](_ => 0.0);
      index, count, history := 0, 0, [];
    }

    method Update(value: real) returns (median: real)
      requires Valid()
      modifies this, buffer
      ensures Valid() && history == old(history) + [value]
      ensures Median(Window(history, buffer.Length), median)
    {
      hide Window, Push, Ring, Median;
      RingBounds(buffer[..], index, Window(history, buffer.Length));
      PushSize(Window(history, buffer.Length), value, buffer.Length);
      RingStep(buffer[..], index, Window(history, buffer.Length), value);
      WindowPush(history, value, buffer.Length);
      ghost var cells := buffer[..];
      buffer[index] := value;
      assert buffer[..] == cells[index := value];
      index := (index + 1) % buffer.Length;
      if count < buffer.Length {
        count := count + 1;
      }
      history := history + [value];
      ghost var w := Window(history, buffer.Length);
      RingBounds(buffer[..], index, w);
      assert buffer[..][..count] == buffer[..count];
      RingIsPermutation(buffer[..], index, w);
      median := MedianOf(buffer[..count]);
      MedianPermuted(buffer[..count], w, median);
    }
  }

  lemma RingIsPermutation(cells: seq<real>, index: nat, w: seq<real>)
    requires Ring(cells, index, w)
    ensures multiset(cells[..|w|]) == multiset(w)
  {
    var k := |w| - index;
    assert cells[..|w|] == w[k..] + w[..k];
    assert w == w[..k] + w[k..];
  }

  method MedianOf(tmp: seq<real>) returns (median: real)
    requires tmp != []
    ensures Median(tmp, median)
  {
    hide Rank;
    var mid := |tmp| / 2;
    var t := NthElement(tmp, mid);
    SplitRank(t, mid);
    if |tmp| % 2 == 1 {
      median := t[mid];
    } else {
      var m := LargestBelow(t, mid);
      LowerRank(t, mid, m);
      assert Middle(t, t[m], t[mid]);
      median := (t[m] + t[mid]) / 2.0;
    }
    MedianPermuted(t, tmp, median);
  }

  /** Whatever the stream and the window size, output i is the median of the last min(i + 1, W) samples. */
  method Medians(samples: seq<real>, windowSize: nat) returns (out: seq<real>)
    requires windowSize > 0
    ensures |out| == |samples|
    ensures forall i | 0 <= i < |out| :: Median(Window(samples[..i + 1], windowSize), out[i])
  {
    hide Median, Window, Ring;
    var filter := new MedianFilter(windowSize);
    out := [];
    for n := 0 to |samples|
      invariant filter.Valid() && fresh(filter) && fresh(filter.buffer) && filter.buffer.Length == windowSize
      invariant |out| == n && filter.history == samples[..n]
      invariant forall i | 0 <= i < n :: Median(Window(samples[..i + 1], windowSize), out[i])
    {
      var median := filter.Update(samples[n]);
      TakeNext(samples, n);
      out := out + [median];
    }
  }
}
