/** The Dallas/Maxim CRC-8 of Common/crc.c and the scratchpad check of Common/DS18B20.cpp. */
module Crc8 {

  function BitStep(c: bv8): bv8 {
    if c & 1 == 1 then (c >> 1) ^ 0x8C else c >> 1
  }

  function BitSteps(c: bv8, n: nat): bv8 {
    if n == 0 then c else BitStep(BitSteps(c, n - 1))
  }

  function Mix(c: bv8, b: bv8): bv8 {
    c ^ b
  }

  /** One message byte. */
  function TakeByte(c: bv8, b: bv8): bv8 {
    BitSteps(Mix(c, b), 8)
  }

  function Register(c: bv8, msg: seq<bv8>): bv8 {
    if msg == [] then c else TakeByte(Register(c, msg[..|msg| - 1]), msg[|msg| - 1])
  }

  // ----- the reference: one message bit at a time

  /** The shift register of the polynomial x^8 + x^5 + x^4 + 1, which takes the lowest bit of each byte first. */
  function TakeBit(c: bv8, bit: bool): bv8 {
    if (c & 1 == 1) != bit then (c >> 1) ^ 0x8C else c >> 1
  }

  function TakeBits(c: bv8, bits: seq<bool>): bv8 {
    if bits == [] then c else TakeBit(TakeBits(c, bits[..|bits| - 1]), bits[|bits| - 1])
  }

  function Low(b: bv8): bool {
    b & 1 == 1
  }

  function Shift(b: bv8): bv8 {
    b >> 1
  }

  /** A byte shifted k times. */
  function Rest(b: bv8, k: nat): bv8 {
    if k == 0 then b else Shift(Rest(b, k - 1))
  }

  /** The bits of a byte, the lowest one first. */
  function ByteBits(b: bv8): (bits: seq<bool>)
    ensures |bits| == 8
  {
    seq(8, k requires 0 <= k < 8 => Low(Rest(b, k)))
  }

  function MessageBits(msg: seq<bv8>): seq<bool> {
    if msg == [] then [] else MessageBits(msg[..|msg| - 1]) + ByteBits(msg[|msg| - 1])
  }

  lemma {:induction false} TakeBitsJoin(c: bv8, a: seq<bool>, b: seq<bool>)
    ensures TakeBits(c, a + b) == TakeBits(TakeBits(c, a), b)
  {
    hide TakeBit;
    if b == [] {
      assert a + b == a;
    } else {
      var n := |b| - 1;
      assert (a + b)[..|a + b| - 1] == a + b[..n];
      TakeBitsJoin(c, a, b[..n]);
    }
  }

  lemma StepTakesBit(c: bv8, w: bv8)
    ensures BitStep(Mix(c, w)) == Mix(TakeBit(c, Low(w)), Shift(w))
  {
  }

  lemma RestEnds(b: bv8)
    ensures Rest(b, 8) == 0
  {
    assert Rest(b, 1) == b >> 1;
    assert Rest(b, 2) == b >> 2;
    assert Rest(b, 3) == b >> 3;
    assert Rest(b, 4) == b >> 4;
    assert Rest(b, 5) == b >> 5;
    assert Rest(b, 6) == b >> 6;
    assert Rest(b, 7) == b >> 7;
  }

  lemma {:induction false} StepsTakeBits(c: bv8, b: bv8, k: nat)
    requires k <= 8
    ensures BitSteps(Mix(c, b), k) == Mix(TakeBits(c, ByteBits(b)[..k]), Rest(b, k))
  {
    hide BitStep, TakeBit, Mix, Shift, Low;
    if k > 0 {
      StepsTakeBits(c, b, k - 1);
      StepTakesBit(TakeBits(c, ByteBits(b)[..k - 1]), Rest(b, k - 1));
      assert ByteBits(b)[..k][..k - 1] == ByteBits(b)[..k - 1];
    } else {
      assert ByteBits(b)[..0] == [];
    }
  }

  lemma ByteIsBits(c: bv8, b: bv8)
    ensures TakeByte(c, b) == TakeBits(c, ByteBits(b))
  {
    hide BitStep, TakeBits, Mix, ByteBits, Rest, BitSteps;
    StepsTakeBits(c, b, 8);
    assert ByteBits(b)[..8] == ByteBits(b);
    RestEnds(b);
    MixNothing(TakeBits(c, ByteBits(b)));
  }

  lemma MixNothing(c: bv8)
    ensures Mix(c, 0) == c
  {
  }

  lemma NoBits(c: bv8)
    ensures TakeBits(c, []) == c
  {
  }

  /** Byte by byte the register is the bit-serial one over all bits of the message. */
  lemma {:induction false} RegisterIsSerial(c: bv8, msg: seq<bv8>)
    ensures Register(c, msg) == TakeBits(c, MessageBits(msg))
  {
    hide TakeByte, TakeBits, ByteBits;
    if msg == [] {
      NoBits(c);
    } else {
      var n := |msg| - 1;
      RegisterIsSerial(c, msg[..n]);
      ByteIsBits(Register(c, msg[..n]), msg[n]);
      TakeBitsJoin(c, MessageBits(msg[..n]), ByteBits(msg[n]));
    }
  }

  method Crc8Dallas(buf: seq<bv8>) returns (crc: bv8)
    ensures crc == Register(0, buf) == TakeBits(0, MessageBits(buf))
  {
    hide BitStep, Mix, TakeBits, MessageBits;
    RegisterIsSerial(0, buf);
    crc := 0;
    for i := 0 to |buf|
      invariant crc == Register(0, buf[..i])
    {
      assert buf[..i + 1][..i] == buf[..i];
      crc := Mix(crc, buf[i]);
      ghost var mixed := crc;
      for k := 0 to 8
        invariant crc == BitSteps(mixed, k)
      {
        crc := BitStep(crc);
      }
    }
    assert buf[..|buf|] == buf;
  }

  // ----- no information is lost

  lemma BitStepInjective(a: bv8, b: bv8)
    requires BitStep(a) == BitStep(b)
    ensures a == b
  {
  }

  lemma {:induction false} BitStepsInjective(a: bv8, b: bv8, n: nat)
    requires BitSteps(a, n) == BitSteps(b, n)
    ensures a == b
  {
    hide BitStep;
    if n > 0 {
      BitStepInjective(BitSteps(a, n - 1), BitSteps(b, n - 1));
      BitStepsInjective(a, b, n - 1);
    }
  }

  lemma MixFacts(c: bv8, a: bv8, b: bv8)
    ensures Mix(c, a) == Mix(c, b) ==> a == b
    ensures Mix(a, c) == Mix(b, c) ==> a == b
    ensures Mix(c, c) == 0
  {
  }

  lemma TakeByteInjective(c: bv8, d: bv8, a: bv8, b: bv8)
    requires TakeByte(c, a) == TakeByte(d, b)
    ensures c == d ==> a == b
    ensures a == b ==> c == d
  {
    hide Mix, BitSteps;
    BitStepsInjective(Mix(c, a), Mix(d, b), 8);
    MixFacts(c, a, b);
    MixFacts(a, c, d);
  }

  /** Two messages of one length that differ in exactly one byte have different checksums. */
  lemma {:induction false} OneByteDetected(a: seq<bv8>, b: seq<bv8>, i: nat, c: bv8)
    requires |a| == |b| && i < |a| && a[i] != b[i]
    requires forall k | 0 <= k < |a| && k != i :: a[k] == b[k]
    ensures Register(c, a) != Register(c, b)
  {
    hide TakeByte;
    var n := |a| - 1;
    if Register(c, a) == Register(c, b) {
      TakeByteInjective(Register(c, a[..n]), Register(c, b[..n]), a[n], b[n]);
    }
    if i == n {
      assert a[..n] == b[..n];
    } else {
      OneByteDetected(a[..n], b[..n], i, c);
    }
  }

  lemma ZeroSteps()
    ensures BitSteps(0, 8) == 0
  {
    assert BitSteps(0, 3) == 0;
    assert BitSteps(0, 6) == 0;
  }

  /** A message followed by its own checksum has checksum 0, and no other last byte does that. */
  lemma OwnChecksum(msg: seq<bv8>, last: bv8)
    ensures Register(0, msg + [last]) == 0 <==> last == Register(0, msg)
  {
    hide Mix, BitSteps;
    assert (msg + [last])[..|msg|] == msg;
    var r := Register(0, msg);
    ZeroSteps();
    MixFacts(r, last, r);
    if Register(0, msg + [last]) == 0 {
      BitStepsInjective(Mix(r, last), 0, 8);
    }
  }

  // ----- reading the scratchpad

  datatype Reading = CrcMissmatch | NotReady | Success(raw: bv16)

  /** What ReadTemperature makes of the nine bytes it reads. */
  method ReadScratchpad(buf: seq<bv8>) returns (r: Reading)
    requires |buf| == 9
    ensures r == CrcMissmatch <==> Register(0, buf) != 0
    ensures r.Success? ==> r.raw == (buf[0] as bv16) | ((buf[1] as bv16) << 8) && r.raw != 2495
    ensures r == NotReady ==> (buf[0] as bv16) | ((buf[1] as bv16) << 8) == 2495
  {
    var crc := Crc8Dallas(buf);
    if crc != 0 {
      return CrcMissmatch;
    }
    var raw := (buf[0] as bv16) | ((buf[1] as bv16) << 8);
    return if raw == 2495 then NotReady else Success(raw);
  }

  /** Every corruption of a single byte of a valid scratchpad is noticed. */
  lemma CorruptionRejected(good: seq<bv8>, bad: seq<bv8>, i: nat)
    requires |good| == |bad| == 9 && Register(0, good) == 0
    requires i < 9 && good[i] != bad[i] && forall k | 0 <= k < 9 && k != i :: good[k] == bad[k]
    ensures Register(0, bad) != 0
  {
    hide Register;
    OneByteDetected(good, bad, i, 0);
  }
}
