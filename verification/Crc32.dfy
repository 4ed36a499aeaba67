/** CRC-32 of Common/crc.c: one table look-up per byte, against a register that takes one bit at a
    time (the reflected form of the generator polynomial of section 3.2.9 of IEEE 802.3). */
module Crc32 {

  // ----- the bit-serial register

  const POLYNOMIAL: bv32 := 0xEDB88320

  function BitStep(c: bv32): bv32 {
    if c & 1 == 1 then (c >> 1) ^ POLYNOMIAL else c >> 1
  }

  /** Eight bits shifted through the register. */
  function ByteStep(c: bv32): bv32 {
    BitStep(BitStep(BitStep(BitStep(BitStep(BitStep(BitStep(BitStep(c))))))))
  }

  function Entered(c: bv32, b: bv8): bv32 {
    c ^ (b as bv32)
  }

  /** A byte enters at the low end of the register. */
  function TakeByte(c: bv32, b: bv8): bv32 {
    ByteStep(Entered(c, b))
  }

  function Register(c: bv32, buf: seq<bv8>): bv32 {
    if buf == [] then c else TakeByte(Register(c, buf[..|buf| - 1]), buf[|buf| - 1])
  }

  // ----- the reference: one message bit at a time

  /** The register takes one message bit: it shifts, and the polynomial is added if the bit that leaves differs
      from the message bit. */
  function TakeBit(c: bv32, bit: bool): bv32 {
    if (c & 1 == 1) != bit then (c >> 1) ^ 0xEDB88320 else c >> 1
  }

  function TakeBits(c: bv32, bits: seq<bool>): bv32 {
    if bits == [] then c else TakeBit(TakeBits(c, bits[..|bits| - 1]), bits[|bits| - 1])
  }

  function Low(w: bv32): bool {
    w & 1 == 1
  }

  /** A byte shifted k times. */
  function Rest(b: bv8, k: nat): bv32 {
    if k == 0 then b as bv32 else Shift(Rest(b, k - 1))
  }

  /** The bits of a byte, the lowest one first. */
  function ByteBits(b: bv8): (bits: seq<bool>)
    ensures |bits| == 8
  {
    seq(8, k requires 0 <= k < 8 => Low(Rest(b, k)))
  }

  function MessageBits(buf: seq<bv8>): seq<bool> {
    if buf == [] then [] else MessageBits(buf[..|buf| - 1]) + ByteBits(buf[|buf| - 1])
  }

  lemma {:induction false} TakeBitsJoin(c: bv32, a: seq<bool>, b: seq<bool>)
    ensures TakeBits(c, a + b) == TakeBits(TakeBits(c, a), b)
  {
    hide TakeBit;
    if b == [] {
      assert a + b == a;
    } else {
      var n := |b| - 1;
      assert (a + b)[..|a + b| - 1] == a + b[..n];
      TakeBitsJoin(c, a, b[..n]);
    }
  }

  /** A bit step with a word added in takes the lowest bit of the word and leaves the rest of it added in. */
  lemma StepTakesBit(c: bv32, w: bv32)
    ensures BitStep(Xor(c, w)) == Xor(TakeBit(c, Low(w)), Shift(w))
  {
    hide BitStep, TakeBit, Xor, Low, Shift;
    BitStepLinear(c, w);
    TakeBitIs(c, Low(w));
    BitStepIs(w);
    XorMoves(BitStep(c), Shift(w), POLYNOMIAL);
  }

  lemma TakeBitIs(c: bv32, bit: bool)
    ensures TakeBit(c, bit) == if bit then Xor(BitStep(c), POLYNOMIAL) else BitStep(c)
  {
    hide BitStep, TakeBit, Xor, Low, Shift;
    TakeBitForm(c, bit);
    BitStepIs(c);
    XorCancels(Shift(c), POLYNOMIAL);
  }

  lemma TakeBitForm(c: bv32, bit: bool)
    ensures TakeBit(c, bit) == if Low(c) != bit then Xor(Shift(c), POLYNOMIAL) else Shift(c)
  {
  }

  lemma XorCancels(a: bv32, p: bv32)
    ensures Xor(Xor(a, p), p) == a
  {
  }

  lemma BitStepIs(w: bv32)
    ensures BitStep(w) == if Low(w) then Xor(Shift(w), POLYNOMIAL) else Shift(w)
  {
  }

  lemma XorMoves(a: bv32, s: bv32, p: bv32)
    ensures Xor(a, Xor(s, p)) == Xor(Xor(a, p), s)
  {
  }

  function Steps(c: bv32, n: nat): bv32 {
    if n == 0 then c else BitStep(Steps(c, n - 1))
  }

  lemma {:induction false} StepsTakeBits(c: bv32, b: bv8, k: nat)
    requires k <= 8
    ensures Steps(Xor(c, Rest(b, 0)), k) == Xor(TakeBits(c, ByteBits(b)[..k]), Rest(b, k))
  {
    hide BitStep, TakeBit, Xor, Shift, Low;
    if k > 0 {
      StepsTakeBits(c, b, k - 1);
      StepTakesBit(TakeBits(c, ByteBits(b)[..k - 1]), Rest(b, k - 1));
      assert ByteBits(b)[..k][..k - 1] == ByteBits(b)[..k - 1];
    } else {
      assert ByteBits(b)[..0] == [];
    }
  }

  lemma RestEnds(b: bv8)
    ensures Rest(b, 8) == 0
  {
    assert Rest(b, 1) == (b as bv32) >> 1;
    assert Rest(b, 2) == (b as bv32) >> 2;
    assert Rest(b, 3) == (b as bv32) >> 3;
    assert Rest(b, 4) == (b as bv32) >> 4;
    assert Rest(b, 5) == (b as bv32) >> 5;
    assert Rest(b, 6) == (b as bv32) >> 6;
    assert Rest(b, 7) == (b as bv32) >> 7;
  }

  /** A byte entered at once and shifted eight times is its eight bits, one after the other. */
  lemma ByteIsBits(c: bv32, b: bv8)
    ensures TakeByte(c, b) == TakeBits(c, ByteBits(b))
  {
    hide BitStep, TakeBits, Xor, ByteBits, Rest;
    StepsTakeBits(c, b, 8);
    assert ByteBits(b)[..8] == ByteBits(b);
    EightSteps(Xor(c, Rest(b, 0)));
    EnteredIs(c, b);
    RestEnds(b);
    XorZero(TakeBits(c, ByteBits(b)));
  }

  lemma EightSteps(c: bv32)
    ensures Steps(c, 8) == ByteStep(c)
  {
    hide BitStep;
    assert Steps(c, 1) == BitStep(c);
    assert Steps(c, 2) == BitStep(Steps(c, 1));
    assert Steps(c, 3) == BitStep(Steps(c, 2));
    assert Steps(c, 4) == BitStep(Steps(c, 3));
    assert Steps(c, 5) == BitStep(Steps(c, 4));
    assert Steps(c, 6) == BitStep(Steps(c, 5));
    assert Steps(c, 7) == BitStep(Steps(c, 6));
  }

  lemma EnteredIs(c: bv32, b: bv8)
    ensures Entered(c, b) == Xor(c, Rest(b, 0))
  {
  }

  lemma XorZero(a: bv32)
    ensures Xor(a, 0) == a
  {
  }

  /** The register is the bit-serial one over all bits of the message. */
  lemma {:induction false} RegisterIsSerial(c: bv32, buf: seq<bv8>)
    ensures Register(c, buf) == TakeBits(c, MessageBits(buf))
  {
    hide TakeByte, TakeBits, ByteBits;
    if buf == [] {
      NoBits(c);
    } else {
      var n := |buf| - 1;
      RegisterIsSerial(c, buf[..n]);
      ByteIsBits(Register(c, buf[..n]), buf[n]);
      TakeBitsJoin(c, MessageBits(buf[..n]), ByteBits(buf[n]));
    }
  }

  lemma NoBits(c: bv32)
    ensures TakeBits(c, []) == c
  {
  }

  // ----- no information is lost

  lemma BitStepInjective(a: bv32, b: bv32)
    requires BitStep(a) == BitStep(b)
    ensures a == b
  {
  }

  lemma {:induction false} StepsInjective(a: bv32, b: bv32, n: nat)
    requires Steps(a, n) == Steps(b, n)
    ensures a == b
  {
    hide BitStep;
    if n > 0 {
      BitStepInjective(Steps(a, n - 1), Steps(b, n - 1));
      StepsInjective(a, b, n - 1);
    }
  }

  lemma EnteredInjective(c: bv32, d: bv32, a: bv8, b: bv8)
    requires Entered(c, a) == Entered(d, b)
    ensures c == d ==> a == b
    ensures a == b ==> c == d
  {
  }

  lemma TakeByteInjective(c: bv32, d: bv32, a: bv8, b: bv8)
    requires TakeByte(c, a) == TakeByte(d, b)
    ensures c == d ==> a == b
    ensures a == b ==> c == d
  {
    hide Entered, ByteStep, Steps;
    EightSteps(Entered(c, a));
    EightSteps(Entered(d, b));
    StepsInjective(Entered(c, a), Entered(d, b), 8);
    EnteredInjective(c, d, a, b);
  }

  /** Two messages of one length that differ in exactly one byte have different checksums. */
  lemma {:induction false} OneByteDetected(a: seq<bv8>, b: seq<bv8>, i: nat, c: bv32)
    requires |a| == |b| && i < |a| && a[i] != b[i]
    requires forall k | 0 <= k < |a| && k != i :: a[k] == b[k]
    ensures Register(c, a) != Register(c, b)
  {
    hide TakeByte;
    var n := |a| - 1;
    if Register(c, a) == Register(c, b) {
      TakeByteInjective(Register(c, a[..n]), Register(c, b[..n]), a[n], b[n]);
    }
    if i == n {
      assert a[..n] == b[..n];
    } else {
      OneByteDetected(a[..n], b[..n], i, c);
    }
  }

  lemma ChecksumsDiffer(a: seq<bv8>, b: seq<bv8>, i: nat)
    requires |a| == |b| && i < |a| && a[i] != b[i]
    requires forall k | 0 <= k < |a| && k != i :: a[k] == b[k]
    ensures TakeBits(0, MessageBits(a)) ^ 0xFFFFFFFF != TakeBits(0, MessageBits(b)) ^ 0xFFFFFFFF
  {
    hide TakeBits, MessageBits, Register;
    OneByteDetected(a, b, i, 0);
    RegisterIsSerial(0, a);
    RegisterIsSerial(0, b);
    ComplementInjective(TakeBits(0, MessageBits(a)), TakeBits(0, MessageBits(b)));
  }

  lemma ComplementInjective(a: bv32, b: bv32)
    ensures a ^ 0xFFFFFFFF == b ^ 0xFFFFFFFF ==> a == b
  {
  }

  /** The register composes over concatenation. */
  lemma {:induction false} RegisterJoin(c: bv32, a: seq<bv8>, b: seq<bv8>)
    ensures Register(c, a + b) == Register(Register(c, a), b)
  {
    if b == [] {
      assert a + b == a;
    } else {
      var n := |b| - 1;
      assert (a + b)[..|a + b| - 1] == a + b[..n];
      RegisterJoin(c, a, b[..n]);
    }
  }

  // ----- the register is linear

  function Xor(a: bv32, b: bv32): bv32 {
    a ^ b
  }

  lemma XorFacts(a: bv32, b: bv32, p: bv32)
    ensures (a ^ b) >> 1 == (a >> 1) ^ (b >> 1)
    ensures ((a ^ b) & 1 == 1) == ((a & 1 == 1) != (b & 1 == 1))
    ensures (a ^ p) ^ (b ^ p) == a ^ b
    ensures (a ^ p) ^ b == (a ^ b) ^ p && a ^ (b ^ p) == (a ^ b) ^ p
  {
  }

  lemma BitStepLinear(a: bv32, b: bv32)
    ensures BitStep(Xor(a, b)) == Xor(BitStep(a), BitStep(b))
  {
    hide BitStep;
    BitStepOfXor(a, b);
  }

  lemma BitStepOfXor(a: bv32, b: bv32)
    ensures BitStep(a ^ b) == BitStep(a) ^ BitStep(b)
  {
    XorFacts(a, b, 0);
    XorFacts(a >> 1, b >> 1, POLYNOMIAL);
  }

  lemma TwoStepsLinear(a: bv32, b: bv32)
    ensures BitStep(BitStep(Xor(a, b))) == Xor(BitStep(BitStep(a)), BitStep(BitStep(b)))
  {
    hide BitStep, Xor;
    BitStepLinear(a, b);
    BitStepLinear(BitStep(a), BitStep(b));
  }

  lemma ByteStepLinear(a: bv32, b: bv32)
    ensures ByteStep(Xor(a, b)) == Xor(ByteStep(a), ByteStep(b))
  {
    hide BitStep, Xor;
    TwoStepsLinear(a, b);
    var a2, b2 := BitStep(BitStep(a)), BitStep(BitStep(b));
    TwoStepsLinear(a2, b2);
    var a4, b4 := BitStep(BitStep(a2)), BitStep(BitStep(b2));
    TwoStepsLinear(a4, b4);
    TwoStepsLinear(BitStep(BitStep(a4)), BitStep(BitStep(b4)));
  }

  function Shift(h: bv32): bv32 {
    h >> 1
  }

  function Down8(h: bv32): bv32 {
    h >> 8
  }

  predicate Even(h: bv32) {
    h & 1 == 0
  }

  predicate LowByteClear(h: bv32) {
    h & 0xFF == 0
  }

  lemma EvenStep(h: bv32)
    requires Even(h)
    ensures BitStep(h) == Shift(h)
  {
  }

  lemma EightShifts(h: bv32)
    requires LowByteClear(h)
    ensures Even(h) && Even(Shift(h)) && Even(Shift(Shift(h))) && Even(Shift(Shift(Shift(h))))
    ensures var k := Shift(Shift(Shift(Shift(h))));
      && Even(k) && Even(Shift(k)) && Even(Shift(Shift(k))) && Even(Shift(Shift(Shift(k))))
      && Shift(Shift(Shift(Shift(k)))) == Down8(h)
  {
  }

  /** With the low byte clear, eight steps only shift. */
  lemma UpperBytesShift(h: bv32)
    requires LowByteClear(h)
    ensures ByteStep(h) == Down8(h)
  {
    hide BitStep, Shift, Even, Down8, LowByteClear;
    EightShifts(h);
    var h1 := Shift(h);
    var h2 := Shift(h1);
    var h3 := Shift(h2);
    var h4 := Shift(h3);
    var h5 := Shift(h4);
    var h6 := Shift(h5);
    EvenStep(h);
    EvenStep(h1);
    EvenStep(h2);
    EvenStep(h3);
    EvenStep(h4);
    EvenStep(h5);
    EvenStep(h6);
    EvenStep(Shift(h6));
  }

  // ----- the table

  function Row0(j: bv8): bv32 {
    if j == 0 then 0x00000000 else if j == 1 then 0x77073096
    else if j == 2 then 0xee0e612c else if j == 3 then 0x990951ba
    else if j == 4 then 0x076dc419 else if j == 5 then 0x706af48f
    else if j == 6 then 0xe963a535 else if j == 7 then 0x9e6495a3
    else if j == 8 then 0x0edb8832 else if j == 9 then 0x79dcb8a4
    else if j == 10 then 0xe0d5e91e else if j == 11 then 0x97d2d988
    else if j == 12 then 0x09b64c2b else if j == 13 then 0x7eb17cbd
    else if j == 14 then 0xe7b82d07
    else 0x90bf1d91
  }

  function Row1(j: bv8): bv32 {
    if j == 0 then 0x1db71064 else if j == 1 then 0x6ab020f2
    else if j == 2 then 0xf3b97148 else if j == 3 then 0x84be41de
    else if j == 4 then 0x1adad47d else if j == 5 then 0x6ddde4eb
    else if j == 6 then 0xf4d4b551 else if j == 7 then 0x83d385c7
    else if j == 8 then 0x136c9856 else if j == 9 then 0x646ba8c0
    else if j == 10 then 0xfd62f97a else if j == 11 then 0x8a65c9ec
    else if j == 12 then 0x14015c4f else if j == 13 then 0x63066cd9
    else if j == 14 then 0xfa0f3d63
    else 0x8d080df5
  }

  function Row2(j: bv8): bv32 {
    if j == 0 then 0x3b6e20c8 else if j == 1 then 0x4c69105e
    else if j == 2 then 0xd56041e4 else if j == 3 then 0xa2677172
    else if j == 4 then 0x3c03e4d1 else if j == 5 then 0x4b04d447
    else if j == 6 then 0xd20d85fd else if j == 7 then 0xa50ab56b
    else if j == 8 then 0x35b5a8fa else if j == 9 then 0x42b2986c
    else if j == 10 then 0xdbbbc9d6 else if j == 11 then 0xacbcf940
    else if j == 12 then 0x32d86ce3 else if j == 13 then 0x45df5c75
    else if j == 14 then 0xdcd60dcf
    else 0xabd13d59
  }

  function Row3(j: bv8): bv32 {
    if j == 0 then 0x26d930ac else if j == 1 then 0x51de003a
    else if j == 2 then 0xc8d75180 else if j == 3 then 0xbfd06116
    else if j == 4 then 0x21b4f4b5 else if j == 5 then 0x56b3c423
    else if j == 6 then 0xcfba9599 else if j == 7 then 0xb8bda50f
    else if j == 8 then 0x2802b89e else if j == 9 then 0x5f058808
    else if j == 10 then 0xc60cd9b2 else if j == 11 then 0xb10be924
    else if j == 12 then 0x2f6f7c87 else if j == 13 then 0x58684c11
    else if j == 14 then 0xc1611dab
    else 0xb6662d3d
  }

  function Row4(j: bv8): bv32 {
    if j == 0 then 0x76dc4190 else if j == 1 then 0x01db7106
    else if j == 2 then 0x98d220bc else if j == 3 then 0xefd5102a
    else if j == 4 then 0x71b18589 else if j == 5 then 0x06b6b51f
    else if j == 6 then 0x9fbfe4a5 else if j == 7 then 0xe8b8d433
    else if j == 8 then 0x7807c9a2 else if j == 9 then 0x0f00f934
    else if j == 10 then 0x9609a88e else if j == 11 then 0xe10e9818
    else if j == 12 then 0x7f6a0dbb else if j == 13 then 0x086d3d2d
    else if j == 14 then 0x91646c97
    else 0xe6635c01
  }

  function Row5(j: bv8): bv32 {
    if j == 0 then 0x6b6b51f4 else if j == 1 then 0x1c6c6162
    else if j == 2 then 0x856530d8 else if j == 3 then 0xf262004e
    else if j == 4 then 0x6c0695ed else if j == 5 then 0x1b01a57b
    else if j == 6 then 0x8208f4c1 else if j == 7 then 0xf50fc457
    else if j == 8 then 0x65b0d9c6 else if j == 9 then 0x12b7e950
    else if j == 10 then 0x8bbeb8ea else if j == 11 then 0xfcb9887c
    else if j == 12 then 0x62dd1ddf else if j == 13 then 0x15da2d49
    else if j == 14 then 0x8cd37cf3
    else 0xfbd44c65
  }

  function Row6(j: bv8): bv32 {
    if j == 0 then 0x4db26158 else if j == 1 then 0x3ab551ce
    else if j == 2 then 0xa3bc0074 else if j == 3 then 0xd4bb30e2
    else if j == 4 then 0x4adfa541 else if j == 5 then 0x3dd895d7
    else if j == 6 then 0xa4d1c46d else if j == 7 then 0xd3d6f4fb
    else if j == 8 then 0x4369e96a else if j == 9 then 0x346ed9fc
    else if j == 10 then 0xad678846 else if j == 11 then 0xda60b8d0
    else if j == 12 then 0x44042d73 else if j == 13 then 0x33031de5
    else if j == 14 then 0xaa0a4c5f
    else 0xdd0d7cc9
  }

  function Row7(j: bv8): bv32 {
    if j == 0 then 0x5005713c else if j == 1 then 0x270241aa
    else if j == 2 then 0xbe0b1010 else if j == 3 then 0xc90c2086
    else if j == 4 then 0x5768b525 else if j == 5 then 0x206f85b3
    else if j == 6 then 0xb966d409 else if j == 7 then 0xce61e49f
    else if j == 8 then 0x5edef90e else if j == 9 then 0x29d9c998
    else if j == 10 then 0xb0d09822 else if j == 11 then 0xc7d7a8b4
    else if j == 12 then 0x59b33d17 else if j == 13 then 0x2eb40d81
    else if j == 14 then 0xb7bd5c3b
    else 0xc0ba6cad
  }

  function Row8(j: bv8): bv32 {
    if j == 0 then 0xedb88320 else if j == 1 then 0x9abfb3b6
    else if j == 2 then 0x03b6e20c else if j == 3 then 0x74b1d29a
    else if j == 4 then 0xead54739 else if j == 5 then 0x9dd277af
    else if j == 6 then 0x04db2615 else if j == 7 then 0x73dc1683
    else if j == 8 then 0xe3630b12 else if j == 9 then 0x94643b84
    else if j == 10 then 0x0d6d6a3e else if j == 11 then 0x7a6a5aa8
    else if j == 12 then 0xe40ecf0b else if j == 13 then 0x9309ff9d
    else if j == 14 then 0x0a00ae27
    else 0x7d079eb1
  }

  function Row9(j: bv8): bv32 {
    if j == 0 then 0xf00f9344 else if j == 1 then 0x8708a3d2
    else if j == 2 then 0x1e01f268 else if j == 3 then 0x6906c2fe
    else if j == 4 then 0xf762575d else if j == 5 then 0x806567cb
    else if j == 6 then 0x196c3671 else if j == 7 then 0x6e6b06e7
    else if j == 8 then 0xfed41b76 else if j == 9 then 0x89d32be0
    else if j == 10 then 0x10da7a5a else if j == 11 then 0x67dd4acc
    else if j == 12 then 0xf9b9df6f else if j == 13 then 0x8ebeeff9
    else if j == 14 then 0x17b7be43
    else 0x60b08ed5
  }

  function Row10(j: bv8): bv32 {
    if j == 0 then 0xd6d6a3e8 else if j == 1 then 0xa1d1937e
    else if j == 2 then 0x38d8c2c4 else if j == 3 then 0x4fdff252
    else if j == 4 then 0xd1bb67f1 else if j == 5 then 0xa6bc5767
    else if j == 6 then 0x3fb506dd else if j == 7 then 0x48b2364b
    else if j == 8 then 0xd80d2bda else if j == 9 then 0xaf0a1b4c
    else if j == 10 then 0x36034af6 else if j == 11 then 0x41047a60
    else if j == 12 then 0xdf60efc3 else if j == 13 then 0xa867df55
    else if j == 14 then 0x316e8eef
    else 0x4669be79
  }

  function Row11(j: bv8): bv32 {
    if j == 0 then 0xcb61b38c else if j == 1 then 0xbc66831a
    else if j == 2 then 0x256fd2a0 else if j == 3 then 0x5268e236
    else if j == 4 then 0xcc0c7795 else if j == 5 then 0xbb0b4703
    else if j == 6 then 0x220216b9 else if j == 7 then 0x5505262f
    else if j == 8 then 0xc5ba3bbe else if j == 9 then 0xb2bd0b28
    else if j == 10 then 0x2bb45a92 else if j == 11 then 0x5cb36a04
    else if j == 12 then 0xc2d7ffa7 else if j == 13 then 0xb5d0cf31
    else if j == 14 then 0x2cd99e8b
    else 0x5bdeae1d
  }

  function Row12(j: bv8): bv32 {
    if j == 0 then 0x9b64c2b0 else if j == 1 then 0xec63f226
    else if j == 2 then 0x756aa39c else if j == 3 then 0x026d930a
    else if j == 4 then 0x9c0906a9 else if j == 5 then 0xeb0e363f
    else if j == 6 then 0x72076785 else if j == 7 then 0x05005713
    else if j == 8 then 0x95bf4a82 else if j == 9 then 0xe2b87a14
    else if j == 10 then 0x7bb12bae else if j == 11 then 0x0cb61b38
    else if j == 12 then 0x92d28e9b else if j == 13 then 0xe5d5be0d
    else if j == 14 then 0x7cdcefb7
    else 0x0bdbdf21
  }

  function Row13(j: bv8): bv32 {
    if j == 0 then 0x86d3d2d4 else if j == 1 then 0xf1d4e242
    else if j == 2 then 0x68ddb3f8 else if j == 3 then 0x1fda836e
    else if j == 4 then 0x81be16cd else if j == 5 then 0xf6b9265b
    else if j == 6 then 0x6fb077e1 else if j == 7 then 0x18b74777
    else if j == 8 then 0x88085ae6 else if j == 9 then 0xff0f6a70
    else if j == 10 then 0x66063bca else if j == 11 then 0x11010b5c
    else if j == 12 then 0x8f659eff else if j == 13 then 0xf862ae69
    else if j == 14 then 0x616bffd3
    else 0x166ccf45
  }

  function Row14(j: bv8): bv32 {
    if j == 0 then 0xa00ae278 else if j == 1 then 0xd70dd2ee
    else if j == 2 then 0x4e048354 else if j == 3 then 0x3903b3c2
    else if j == 4 then 0xa7672661 else if j == 5 then 0xd06016f7
    else if j == 6 then 0x4969474d else if j == 7 then 0x3e6e77db
    else if j == 8 then 0xaed16a4a else if j == 9 then 0xd9d65adc
    else if j == 10 then 0x40df0b66 else if j == 11 then 0x37d83bf0
    else if j == 12 then 0xa9bcae53 else if j == 13 then 0xdebb9ec5
    else if j == 14 then 0x47b2cf7f
    else 0x30b5ffe9
  }

  function Row15(j: bv8): bv32 {
    if j == 0 then 0xbdbdf21c else if j == 1 then 0xcabac28a
    else if j == 2 then 0x53b39330 else if j == 3 then 0x24b4a3a6
    else if j == 4 then 0xbad03605 else if j == 5 then 0xcdd70693
    else if j == 6 then 0x54de5729 else if j == 7 then 0x23d967bf
    else if j == 8 then 0xb3667a2e else if j == 9 then 0xc4614ab8
    else if j == 10 then 0x5d681b02 else if j == 11 then 0x2a6f2b94
    else if j == 12 then 0xb40bbe37 else if j == 13 then 0xc30c8ea1
    else if j == 14 then 0x5a05df1b
    else 0x2d02ef8d
  }

  /** crc32_tab, in rows of sixteen. */
  function Table(i: bv8): bv32 {
    if i < 16 then Row0(i)
    else if i < 32 then Row1(i - 16)
    else if i < 48 then Row2(i - 32)
    else if i < 64 then Row3(i - 48)
    else if i < 80 then Row4(i - 64)
    else if i < 96 then Row5(i - 80)
    else if i < 112 then Row6(i - 96)
    else if i < 128 then Row7(i - 112)
    else if i < 144 then Row8(i - 128)
    else if i < 160 then Row9(i - 144)
    else if i < 176 then Row10(i - 160)
    else if i < 192 then Row11(i - 176)
    else if i < 208 then Row12(i - 192)
    else if i < 224 then Row13(i - 208)
    else if i < 240 then Row14(i - 224)
    else Row15(i - 240)
  }

  /** The entry at a power of two, if that bit of the index is set. */
  function Part(i: bv8, mask: bv8): bv32 {
    if i & mask == 0 then 0
    else if mask == 1 then 0x77073096
    else if mask == 2 then 0xee0e612c
    else if mask == 4 then 0x076dc419
    else if mask == 8 then 0x0edb8832
    else if mask == 16 then 0x1db71064
    else if mask == 32 then 0x3b6e20c8
    else if mask == 64 then 0x76dc4190
    else 0xedb88320
  }

  /** The same values from the eight entries at powers of two. */
  function Combined(i: bv8): bv32 {
    Xor(Xor(Xor(Part(i, 1), Part(i, 2)), Xor(Part(i, 4), Part(i, 8))),
        Xor(Xor(Part(i, 16), Part(i, 32)), Xor(Part(i, 64), Part(i, 128))))
  }

  lemma Quarter0(i: bv8)
    requires 0 <= i < 64
    ensures Table(i) == Combined(i)
  {
  }

  lemma Quarter1(i: bv8)
    requires 64 <= i < 128
    ensures Table(i) == Combined(i)
  {
  }

  lemma Quarter2(i: bv8)
    requires 128 <= i < 192
    ensures Table(i) == Combined(i)
  {
  }

  lemma Quarter3(i: bv8)
    requires 192 <= i
    ensures Table(i) == Combined(i)
  {
  }

  lemma TableCombined(i: bv8)
    ensures Table(i) == Combined(i)
  {
    hide Table, Combined;
    if i < 64 {
      Quarter0(i);
    } else if i < 128 {
      Quarter1(i);
    } else if i < 192 {
      Quarter2(i);
    } else {
      Quarter3(i);
    }
  }

  /** One set bit, shifted eight times. */
  lemma BitValues()
    ensures ByteStep(0) == 0
    ensures ByteStep(1) == 0x77073096
    ensures ByteStep(2) == 0xee0e612c
    ensures ByteStep(4) == 0x076dc419
    ensures ByteStep(8) == 0x0edb8832
    ensures ByteStep(16) == 0x1db71064
    ensures ByteStep(32) == 0x3b6e20c8
    ensures ByteStep(64) == 0x76dc4190
    ensures ByteStep(128) == 0xedb88320
  {
  }

  function Wide(i: bv8): bv32 {
    i as bv32
  }

  function Only(i: bv8, mask: bv8): bv32 {
    (i & mask) as bv32
  }

  /** Eight steps on one bit of the index. */
  lemma StepOneBit(i: bv8)
    ensures ByteStep(Only(i, 1)) == Part(i, 1)
    ensures ByteStep(Only(i, 2)) == Part(i, 2)
    ensures ByteStep(Only(i, 4)) == Part(i, 4)
    ensures ByteStep(Only(i, 8)) == Part(i, 8)
    ensures ByteStep(Only(i, 16)) == Part(i, 16)
    ensures ByteStep(Only(i, 32)) == Part(i, 32)
    ensures ByteStep(Only(i, 64)) == Part(i, 64)
    ensures ByteStep(Only(i, 128)) == Part(i, 128)
  {
    hide ByteStep;
    BitValues();
    BitAlone(i);
  }

  lemma BitAlone(i: bv8)
    ensures Only(i, 1) == if i & 1 != 0 then 1 else 0
    ensures Only(i, 2) == if i & 2 != 0 then 2 else 0
    ensures Only(i, 4) == if i & 4 != 0 then 4 else 0
    ensures Only(i, 8) == if i & 8 != 0 then 8 else 0
    ensures Only(i, 16) == if i & 16 != 0 then 16 else 0
    ensures Only(i, 32) == if i & 32 != 0 then 32 else 0
    ensures Only(i, 64) == if i & 64 != 0 then 64 else 0
    ensures Only(i, 128) == if i & 128 != 0 then 128 else 0
  {
  }

  lemma NibbleSplits(i: bv8)
    ensures Only(i, 15) == Xor(Xor(Only(i, 1), Only(i, 2)), Xor(Only(i, 4), Only(i, 8)))
    ensures Only(i, 240) == Xor(Xor(Only(i, 16), Only(i, 32)), Xor(Only(i, 64), Only(i, 128)))
    ensures Wide(i) == Xor(Only(i, 15), Only(i, 240))
  {
  }

  lemma FourLinear(a: bv32, b: bv32, c: bv32, d: bv32)
    ensures ByteStep(Xor(Xor(a, b), Xor(c, d)))
            == Xor(Xor(ByteStep(a), ByteStep(b)), Xor(ByteStep(c), ByteStep(d)))
  {
    hide ByteStep, Xor;
    ByteStepLinear(a, b);
    ByteStepLinear(c, d);
    ByteStepLinear(Xor(a, b), Xor(c, d));
  }

  lemma CombinedSteps(i: bv8)
    ensures Combined(i) == ByteStep(Wide(i))
  {
    hide ByteStep, Only, Part, Xor, Wide;
    NibbleSplits(i);
    FourLinear(Only(i, 1), Only(i, 2), Only(i, 4), Only(i, 8));
    FourLinear(Only(i, 16), Only(i, 32), Only(i, 64), Only(i, 128));
    ByteStepLinear(Only(i, 15), Only(i, 240));
    StepOneBit(i);
  }

  function LowByte(x: bv32): bv8 {
    (x & 0xFF) as bv8
  }

  function Upper(x: bv32): bv32 {
    x & 0xFFFFFF00
  }

  /** What crc32 does with one byte. */
  function LookupStep(c: bv32, b: bv8): bv32 {
    Xor(Table(LowByte(Entered(c, b))), Down8(c))
  }

  lemma WordSplits(c: bv32, b: bv8)
    ensures Entered(c, b) == Xor(Upper(Entered(c, b)), Wide(LowByte(Entered(c, b))))
    ensures LowByteClear(Upper(Entered(c, b))) && Down8(Upper(Entered(c, b))) == Down8(c)
  {
  }

  lemma XorSwaps(a: bv32, b: bv32)
    ensures Xor(a, b) == Xor(b, a)
  {
  }

  /** One table look-up does the work of eight bit steps. */
  lemma LookupIsEightSteps(c: bv32, b: bv8)
    ensures LookupStep(c, b) == TakeByte(c, b)
  {
    hide ByteStep, Table, Combined, LowByte, Upper, Entered, Xor, Wide, Down8, LowByteClear;
    WordSplits(c, b);
    var x := Entered(c, b);
    ByteStepLinear(Upper(x), Wide(LowByte(x)));
    UpperBytesShift(Upper(x));
    CombinedSteps(LowByte(x));
    TableCombined(LowByte(x));
    XorSwaps(Table(LowByte(x)), Down8(c));
  }

  /** The table-driven checksum is the complement of the bit-serial register, started from 0, after all bits
      of the message. */
  method Crc32(buf: seq<bv8>) returns (r: bv32)
    ensures r == TakeBits(0, MessageBits(buf)) ^ 0xFFFFFFFF
  {
    hide LookupStep, TakeByte, TakeBits, MessageBits;
    RegisterIsSerial(0, buf);
    var crc: bv32 := 0;
    for i := 0 to |buf|
      invariant crc == Register(0, buf[..i])
    {
      LookupIsEightSteps(crc, buf[i]);
      assert buf[..i + 1][..i] == buf[..i];
      crc := LookupStep(crc, buf[i]);
    }
    assert buf[..|buf|] == buf;
    r := crc ^ 0xFFFFFFFF;
  }
}
