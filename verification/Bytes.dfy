/** Bytes, little-endian words in a byte buffer, and null-terminated strings. */
module Bytes {

  type byte = n: nat | n < 0x100
  type u16 = n: nat | n < 0x1_0000
  type u32 = n: nat | n < 0x1_0000_0000

  function Le32(b: seq<byte>, at: nat): u32
    requires at + 4 <= |b|
  {
    var b0: int, b1: int, b2: int, b3: int := b[at], b[at + 1], b[at + 2], b[at + 3];
    b0 + 0x100 * b1 + 0x1_0000 * b2 + 0x100_0000 * b3
  }

  function ToLe32(n: u32): (r: seq<byte>)
    ensures |r| == 4
  {
    [n % 0x100, n / 0x100 % 0x100, n / 0x1_0000 % 0x100, n / 0x100_0000]
  }

  lemma Le32RoundTrip(n: u32)
    ensures Le32(ToLe32(n), 0) == n
  {
    var a := n / 0x100;
    assert n / 0x1_0000 == a / 0x100 && n / 0x100_0000 == a / 0x1_0000;
    assert n / 0x100_0000 == n / 0x1_0000 / 0x100;
  }

  /** The lowest byte comes first. */
  lemma LittleEndian(b: seq<byte>, at: nat)
    requires at + 4 <= |b|
    ensures Le32(b, at) % 0x100 == b[at] && Le32(b, at) / 0x100_0000 == b[at + 3]
  {
  }

  /** Reading depends on four bytes only. */
  lemma Le32Of(b: seq<byte>, at: nat, n: u32)
    requires at + 4 <= |b| && b[at..at + 4] == ToLe32(n)
    ensures Le32(b, at) == n
  {
    Le32RoundTrip(n);
    assert b[at] == b[at..at + 4][0] && b[at + 1] == b[at..at + 4][1];
    assert b[at + 2] == b[at..at + 4][2] && b[at + 3] == b[at..at + 4][3];
  }

  /** The C string that starts at position p. */
  function StringAt(b: seq<byte>, p: nat): (s: seq<byte>)
    ensures 0 !in s
    decreases |b| - p
  {
    if p < |b| && b[p] != 0 then [b[p]] + StringAt(b, p + 1) else []
  }

  lemma {:induction false} StringThere(b: seq<byte>, p: nat, s: seq<byte>)
    requires p + |s| < |b| && b[p..p + |s|] == s && 0 !in s && b[p + |s|] == 0
    ensures StringAt(b, p) == s
    decreases |s|
  {
    if s != [] {
      assert b[p] == b[p..p + |s|][0] == s[0];
      assert b[p + 1..p + |s|] == s[1..];
      StringThere(b, p + 1, s[1..]);
    }
  }

  /** memcpy/memmove: `bytes` placed at position `at`. */
  function Put(b: seq<byte>, at: nat, bytes: seq<byte>): (r: seq<byte>)
    requires at + |bytes| <= |b|
    ensures |r| == |b|
  {
    b[..at] + bytes + b[at + |bytes|..]
  }

  lemma PutTwice(b: seq<byte>, at: nat, x: seq<byte>, y: seq<byte>)
    requires at + |x| + |y| <= |b|
    ensures Put(Put(b, at, x), at + |x|, y) == Put(b, at, x + y)
  {
  }

  method Copy(dst: array<byte>, at: nat, bytes: seq<byte>)
    requires at + |bytes| <= dst.Length
    modifies dst
    ensures dst[..] == Put(old(dst[..]), at, bytes)
  {
    forall i | 0 <= i < |bytes| {
      dst[at + i] := bytes[i];
    }
  }

  lemma SliceMiddle(b: seq<byte>, h: nat, pre: seq<byte>, mid: seq<byte>, post: seq<byte>)
    requires h + |pre + mid + post| <= |b| && b[h..h + |pre + mid + post|] == pre + mid + post
    ensures b[h + |pre|..h + |pre| + |mid|] == mid
  {
    var all := pre + mid + post;
    assert forall i | 0 <= i < |all| :: b[h + i] == b[h..h + |all|][i] == all[i];
    assert forall i | 0 <= i < |mid| :: b[h + |pre| + i] == all[|pre| + i] == mid[i];
  }

  /** Bytes placed right behind a stretch extend it. */
  lemma PutAppends(b: seq<byte>, h: nat, at: nat, e: seq<byte>, c: seq<byte>)
    requires h <= at && at + |e| <= |b| == |c| && c[h..] == Put(b, at, e)[h..]
    ensures c[h..at + |e|] == b[h..at] + e
  {
    var d, n := Put(b, at, e), at + |e|;
    assert c[h..n] == c[h..][..n - h] == d[h..][..n - h] == d[h..n];
  }
}
