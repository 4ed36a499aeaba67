/** The bit-banged I2C master of Common/I2C_GPIO.cpp, driving the wires of I2cWire. */
module I2cGpio {
  import opened Words
  import opened Bytes
  import opened I2cWire

  const EIO := 5
  const EBUSY := 16

  /** The bits of a byte, most significant first, as they appear on the wire. */
  function BitsOf(data: byte): (r: seq<bool>)
    ensures |r| == 8
  {
    seq(8, i requires 0 <= i < 8 => Bit(data, 7 - i))
  }

  lemma BitsDetermineByte(a: byte, b: byte)
    requires BitsOf(a) == BitsOf(b)
    ensures a == b
  {
    forall k: nat ensures Bit(a, k) == Bit(b, k) {
      if k < 8 {
        assert BitsOf(a)[7 - k] == BitsOf(b)[7 - k];
      } else {
        ByteBits(a, k);
        ByteBits(b, k);
      }
    }
    BitsDetermine(a, b);
  }

  lemma ByteBits(a: byte, k: nat)
    requires k >= 8
    ensures !Bit(a, k)
  {
    assert Pow2(4) == 16;
    HighBits(a, 8, k);
  }

  /** 0x80 >> i, for the turns of a mask loop; the loop ends when the mask is shifted out. */
  function Mask(i: nat): nat
    requires i <= 8
  {
    if i < 8 then Pow2(7 - i) else 0
  }

  lemma MaskShift(i: nat)
    requires i < 8
    ensures Mask(i) != 0 && Mask(i) / 2 == Mask(i + 1)
  {
  }

  /** `data & mask` tests one bit. */
  lemma MaskTest(data: byte, i: nat)
    requires i < 8
    ensures And(data, Mask(i)) != 0 <==> BitsOf(data)[i]
  {
    var m := And(data, Mask(i));
    forall k: nat ensures Bit(m, k) == (k == 7 - i && Bit(data, k)) {
      AndBits(data, Mask(i), k);
      PowerBits(7 - i, k);
    }
    ZeroBits(7 - i);
    if m != 0 && !Bit(data, 7 - i) {
      forall k: nat ensures Bit(m, k) == Bit(0, k) { ZeroBits(k); }
      BitsDetermine(m, 0);
    }
  }

  lemma BitsTake(data: byte, i: nat)
    requires i < 8
    ensures BitsOf(data)[..i] + [BitsOf(data)[i]] == BitsOf(data)[..i + 1]
  {
  }

  /** The bits of `data` are the first |bits| bits of a byte, then zeros. */
  ghost predicate Collected(data: nat, bits: seq<bool>) {
    |bits| <= 8 && forall k: nat :: Bit(data, k) == (8 - |bits| <= k < 8 && bits[7 - k])
  }

  lemma CollectNone()
    ensures Collected(0, [])
  {
    forall k: nat ensures !Bit(0, k) { ZeroBits(k); }
  }

  /** `data |= mask` when the sampled bit is 1. */
  lemma CollectBit(data: nat, bits: seq<bool>, bit: bool)
    requires Collected(data, bits) && |bits| < 8
    ensures Collected(if bit then Or(data, Mask(|bits|)) else data, bits + [bit])
  {
    var i := |bits|;
    if bit {
      forall k: nat ensures Bit(Or(data, Mask(i)), k) == (k == 7 - i || Bit(data, k)) {
        OrBits(data, Mask(i), k);
        PowerBits(7 - i, k);
      }
    }
  }

  lemma CollectedAll(data: nat, bits: seq<bool>)
    requires Collected(data, bits) && |bits| == 8
    ensures data < 256 && bits == BitsOf(data)
  {
    assert Pow2(4) == 16;
    BitsBound(data, 8);
  }

  // ----- what a transfer looks like on the wire

  /** The bytes as acknowledged frames up to byte n, which is the first one refused, if any. */
  ghost function Sent(bytes: seq<byte>, n: nat): seq<Event>
    requires n <= |bytes|
  {
    seq(n, i requires 0 <= i < n => Frame(BitsOf(bytes[i]), true)) +
    if n < |bytes| then [Frame(BitsOf(bytes[n]), false)] else []
  }

  lemma SentJoin(a: seq<byte>, b: seq<byte>, n: nat)
    requires n <= |b|
    ensures Sent(a, |a|) + Sent(b, n) == Sent(a + b, |a| + n)
  {
  }

  lemma SentRefused(a: seq<byte>, b: seq<byte>, n: nat)
    requires n < |a|
    ensures Sent(a, n) == Sent(a + b, n)
  {
  }

  /** The bytes read: all are acknowledged but the last one. */
  ghost function Received(bytes: seq<byte>, n: nat): seq<Event>
    requires n <= |bytes|
  {
    seq(n, i requires 0 <= i < n => Frame(BitsOf(bytes[i]), i + 1 < |bytes|))
  }

  lemma SentNone(bytes: seq<byte>)
    ensures Sent(bytes[..0], 0) == []
  {
  }

  lemma SentStep(bytes: seq<byte>, i: nat)
    requires i < |bytes|
    ensures Sent(bytes, i) == Sent(bytes[..i], i) + [Frame(BitsOf(bytes[i]), false)]
    ensures Sent(bytes[..i + 1], i + 1) == Sent(bytes[..i], i) + [Frame(BitsOf(bytes[i]), true)]
  {
  }

  lemma ReceivedStep(before: seq<byte>, after: seq<byte>, i: nat)
    requires i < |before| == |after| && after[..i] == before[..i]
    ensures Received(after, i + 1) == Received(before, i) + [Frame(BitsOf(after[i]), i + 1 < |after|)]
  {
    assert forall k | 0 <= k < i :: after[k] == after[..i][k] == before[k];
  }

  /** (device_addr << 1) | 0 and (device_addr << 1) | 1, as bytes. */
  function WriteAddressByte(address: byte): byte { 2 * address % 256 }

  function ReadAddressByte(address: byte): byte { 2 * address % 256 + 1 }

  ghost function WriteTransfer(address: byte, reg: seq<byte>, data: seq<byte>, n: nat): seq<Event>
    requires n <= 1 + |reg| + |data|
  {
    [Start] + Sent([WriteAddressByte(address)] + reg + data, n) + [Stop]
  }

  ghost function ReadPart(address: byte, acked: bool, data: seq<byte>): seq<Event> {
    [Start, Frame(BitsOf(ReadAddressByte(address)), acked)] + if acked then Received(data, |data|) else []
  }

  /** The event shows a byte with the seven address bits, most significant first, and the direction bit
      (section 3.1.10 of UM10204). */
  ghost predicate Addresses(event: Event, address: byte, read: bool) {
    && event.Frame? && |event.bits| == 8 && event.bits[7] == read
    && forall i | 0 <= i < 7 :: event.bits[i] == Bit(address, 6 - i)
  }

  lemma ShiftedBits(address: byte, k: nat, last: nat)
    requires k < 7 && last < 2
    ensures Bit(2 * address % 256 + last, k + 1) == Bit(address, k) && Bit(2 * address % 256 + last, 0) == (last == 1)
  {
    var shifted := 2 * address % 256 + last;
    assert shifted / 2 == address % 128;
    LowBits(address, k);
  }

  /** The lower seven bits do not depend on the eighth. */
  lemma LowBits(address: byte, k: nat)
    requires k < 7
    ensures Bit(address % 128, k) == Bit(address, k)
  {
    hide Pow2, Bit;
    Power7();
    if address >= 128 {
      assert address % 128 == address - 128;
      BelowBit(address - 128, 7, k);
    } else {
      assert address % 128 == address;
    }
  }

  lemma Power7()
    ensures Pow2(7) == 128
  {
    assert Pow2(4) == 16;
  }

  lemma {:induction false} BelowBit(a: nat, j: nat, k: nat)
    requires k < j
    ensures Bit(a + Pow2(j), k) == Bit(a, k)
  {
    assert Pow2(j) == 2 * Pow2(j - 1);
    if k > 0 {
      BelowBit(a / 2, j - 1, k - 1);
      assert (a + Pow2(j)) / 2 == a / 2 + Pow2(j - 1);
    }
  }

  lemma AddressBits(address: byte, ack: bool)
    ensures Addresses(Frame(BitsOf(WriteAddressByte(address)), ack), address, false)
    ensures Addresses(Frame(BitsOf(ReadAddressByte(address)), ack), address, true)
  {
    ShiftedBits(address, 0, 0);
    ShiftedBits(address, 0, 1);
    forall i | 0 <= i < 7
      ensures BitsOf(WriteAddressByte(address))[i] == Bit(address, 6 - i)
      ensures BitsOf(ReadAddressByte(address))[i] == Bit(address, 6 - i)
    {
      ShiftedBits(address, 6 - i, 0);
      ShiftedBits(address, 6 - i, 1);
    }
  }

  /** Every write transfer opens with a START and the address for writing. */
  lemma WriteOpens(address: byte, reg: seq<byte>, data: seq<byte>, n: nat)
    requires n <= 1 + |reg| + |data|
    ensures var t := WriteTransfer(address, reg, data, n);
      |t| >= 3 && t[0] == Start && Addresses(t[1], address, false) && t[1].ack == (n > 0)
  {
    AddressBits(address, n > 0);
    hide BitsOf, WriteAddressByte, Addresses;
  }

  /** So does every read transfer, which goes on with a START and the address for reading if the register bytes
      were acknowledged. */
  lemma ReadOpens(address: byte, reg: seq<byte>, n: nat, acked: bool, data: seq<byte>, released: bool)
    requires n <= 1 + |reg|
    ensures var t := ReadTransfer(address, reg, n, acked, data, released);
      && |t| >= 2 && t[0] == Start && Addresses(t[1], address, false) && t[1].ack == (n > 0)
      && (n == 1 + |reg| ==>
            && |t| >= |reg| + 4 && t[|reg| + 2] == Start
            && Addresses(t[|reg| + 3], address, true) && t[|reg| + 3].ack == acked)
  {
    AddressBits(address, n > 0);
    AddressBits(address, acked);
    hide BitsOf, WriteAddressByte, ReadAddressByte, Addresses;
  }

  /** How the events of the single steps add up. */
  lemma HeadEvents(e: seq<Event>, a: byte, reg: seq<byte>)
    ensures e + [Start] + [Frame(BitsOf(a), false)] == e + [Start] + Sent([a] + reg, 0)
    ensures forall k: nat | k <= |reg| ::
      e + [Start] + [Frame(BitsOf(a), true)] + Sent(reg, k) == e + [Start] + Sent([a] + reg, 1 + k)
  {
    assert Sent([a], 0) == [Frame(BitsOf(a), false)] && Sent([a], 1) == [Frame(BitsOf(a), true)];
    SentRefused([a], reg, 0);
    forall k: nat | k <= |reg|
      ensures e + [Start] + [Frame(BitsOf(a), true)] + Sent(reg, k) == e + [Start] + Sent([a] + reg, 1 + k)
    {
      SentJoin([a], reg, k);
    }
  }

  lemma WriteEvents(e: seq<Event>, address: byte, reg: seq<byte>, data: seq<byte>, n: nat)
    requires n <= 1 + |reg|
    ensures n < 1 + |reg| ==>
      e + [Start] + Sent([WriteAddressByte(address)] + reg, n) + [Stop]
      == e + WriteTransfer(address, reg, data, n)
    ensures forall k: nat | k <= |data| ::
      e + [Start] + Sent([WriteAddressByte(address)] + reg, 1 + |reg|) + Sent(data, k) + [Stop]
      == e + WriteTransfer(address, reg, data, k + 1 + |reg|)
  {
    var head := [WriteAddressByte(address)] + reg;
    if n < |head| {
      SentRefused(head, data, n);
    }
    forall k: nat | k <= |data|
      ensures e + [Start] + Sent(head, |head|) + Sent(data, k) + [Stop]
           == e + WriteTransfer(address, reg, data, k + 1 + |reg|)
    {
      SentJoin(head, data, k);
    }
  }

  /** A read whose register bytes were acknowledged up to byte n. The STOP appears on the wire
      only when the slave has let go of SDA. */
  ghost function ReadTransfer(address: byte, reg: seq<byte>, n: nat, acked: bool, data: seq<byte>,
                              released: bool): seq<Event>
    requires n <= 1 + |reg|
  {
    [Start] + Sent([WriteAddressByte(address)] + reg, n) +
    (if n < 1 + |reg| then [] else ReadPart(address, acked, data)) +
    if released then [Stop] else []
  }

  lemma ReadEvents(e: seq<Event>, address: byte, reg: seq<byte>, n: nat, acked: bool, data: seq<byte>)
    requires n <= 1 + |reg|
    ensures n < 1 + |reg| ==>
      e + [Start] + Sent([WriteAddressByte(address)] + reg, n) + [Stop]
      == e + ReadTransfer(address, reg, n, acked, data, true)
    ensures
      e + [Start] + Sent([WriteAddressByte(address)] + reg, 1 + |reg|) + ReadPart(address, acked, data) + [Stop]
      == e + ReadTransfer(address, reg, 1 + |reg|, acked, data, true)
    ensures
      e + [Start] + Sent([WriteAddressByte(address)] + reg, 1 + |reg|) + ReadPart(address, acked, data)
      == e + ReadTransfer(address, reg, 1 + |reg|, acked, data, false)
  {
  }

  class I2cMaster {
    const slave: Slave
    var w: Wire

    constructor (slave: Slave)
      ensures this.slave == slave && w.Free() && !w.held && Events() == []
    {
      this.slave := slave;
      w := Wire(true, true, true, false, []);
    }

    ghost function Events(): seq<Event>
      reads this
    {
      w.Seen().events
    }

    /** Whether the lines are let go by the master, between two calls. */
    ghost predicate Released()
      reads this
    {
      w.Settled() && w.sda && w.scl && w.Seen().bits == []
    }

    method SetSda(level: bool)
      modifies this
      ensures w == old(w).SetSda(slave, level)
    {
      w := w.SetSda(slave, level);
    }

    method SetScl(level: bool)
      modifies this
      ensures w == old(w).SetScl(slave, level)
    {
      w := w.SetScl(slave, level);
    }

    method StartCondition() returns (rc: int)
      requires Released()
      modifies this
      ensures rc == if old(w.drive && !w.held) then 0 else -EBUSY
      ensures rc == 0 ==> w.Low(Address, []) && w.drive && Events() == old(Events()) + [Start]
      ensures rc != 0 ==> w == old(w).(trace := w.trace) && w.Seen() == old(w.Seen())
    {
      Release(w, slave);
      SetSda(true);
      SetScl(true);
      if !w.Level().sda || !w.Level().scl {
        return -EBUSY;
      }
      MakeStart(w, slave);
      SetSda(false);
      SetScl(false);
      return 0;
    }

    method RepeatStartCondition()
      requires w.Low(Writing, []) && w.drive
      modifies this
      ensures w.Low(Address, []) && w.drive && Events() == old(Events()) + [Start]
    {
      SetSdaLow(w, slave, true, Writing, []);
      SetSda(true);
      SetSclHigh(w, slave, Writing, []);
      SetScl(true);
      MakeStart(w, slave);
      SetSda(false);
      SetScl(false);
    }

    method StopCondition(ghost phase: Phase)
      requires w.Low(phase, []) && phase != Idle
      modifies this
      ensures !w.held && w.drive == old(w.drive)
      ensures w.drive ==> w.Free() && Events() == old(Events()) + [Stop]
      ensures !w.drive ==> w.Hung() && Events() == old(Events())
    {
      MakeStop(w, slave, phase);
      SetSda(false);
      SetScl(true);
      SetSda(true);
    }

    /** One clock pulse, with the level of SDA read while SCL is high. */
    method ClockBit(ghost phase: Phase, ghost bits: seq<bool>) returns (bit: bool)
      requires w.Low(phase, bits) && phase != Idle && |bits| <= 8
      modifies this
      ensures bit == old(w.sda && w.drive) && w.sda == old(w.sda)
      ensures w.Low(Commit(old(w.Seen()), bit).phase, Commit(old(w.Seen()), bit).bits)
      ensures Events() == Commit(old(w.Seen()), bit).events
      ensures !SlaveTurn(w.Seen().phase, w.Seen().bits) ==> w.drive
      ensures SlaveTurn(w.Seen().phase, w.Seen().bits) && AlwaysPullsLow(slave) ==> !w.drive
    {
      Pulse(w, slave, phase, bits);
      SetSclHigh(w, slave, phase, bits);
      SetScl(true);
      bit := w.Level().sda;
      SetScl(false);
    }

    /** SDA is set while SCL is low. */
    method PutSda(level: bool, ghost phase: Phase, ghost bits: seq<bool>)
      requires w.Low(phase, bits)
      modifies this
      ensures w.Low(phase, bits) && w.sda == level && w.drive == old(w.drive) && Events() == old(Events())
    {
      SetSdaLow(w, slave, level, phase, bits);
      SetSda(level);
    }

    /** The mask loop of WriteByte. */
    method WriteBits(data: byte, ghost phase: Phase)
      requires w.Low(phase, []) && (phase == Address || phase == Writing) && w.drive
      modifies this
      ensures w.Low(phase, BitsOf(data)) && Events() == old(Events())
      ensures AlwaysPullsLow(slave) ==> !w.drive
    {
      var mask := 0x80;
      ghost var i := 0;
      assert Pow2(4) == 16;
      while mask != 0
        invariant 0 <= i <= 8 && mask == Mask(i)
        invariant w.Low(phase, BitsOf(data)[..i]) && Events() == old(Events())
        invariant i < 8 ==> w.drive
        invariant i == 8 && AlwaysPullsLow(slave) ==> !w.drive
        decreases 8 - i
      {
        MaskShift(i);
        MaskTest(data, i);
        BitsTake(data, i);
        PutSda(And(data, mask) != 0, phase, BitsOf(data)[..i]);
        var _ := ClockBit(phase, BitsOf(data)[..i]);
        mask, i := mask / 2, i + 1;
      }
      assert BitsOf(data)[..8] == BitsOf(data);
    }

    method WriteByte(data: byte, ghost phase: Phase) returns (ack: int)
      requires w.Low(phase, []) && (phase == Address || phase == Writing) && w.drive
      modifies this
      ensures ack == 0 || ack == 1
      ensures Events() == old(Events()) + [Frame(BitsOf(data), ack == 0)]
      ensures w.Low(PhaseAfter(phase, BitsOf(data) + [ack == 1]), [])
      ensures !(ack == 0 && phase == Address && BitsOf(data)[7]) ==> w.drive
      ensures AlwaysPullsLow(slave) ==>
        ack == 0 && (phase == Address && BitsOf(data)[7] ==> !w.drive)
    {
      WriteBits(data, phase);
      PutSda(true, phase, BitsOf(data));
      var level := ClockBit(phase, BitsOf(data));
      ack := if level then 1 else 0;
      assert (BitsOf(data) + [level])[..8] == BitsOf(data);
    }

    /** The mask loop of ReadByte. */
    method ReadBits() returns (data: byte)
      requires w.Low(Reading, []) && w.sda
      modifies this
      ensures w.Low(Reading, BitsOf(data)) && Events() == old(Events()) && w.drive
    {
      var value, mask := 0, 0x80;
      ghost var i, bits := 0, [];
      assert Pow2(4) == 16;
      CollectNone();
      while mask != 0
        invariant 0 <= i <= 8 && mask == Mask(i) && |bits| == i
        invariant w.Low(Reading, bits) && w.sda && Events() == old(Events())
        invariant Collected(value, bits)
        invariant i == 8 ==> w.drive
        decreases 8 - i
      {
        MaskShift(i);
        var bit := ClockBit(Reading, bits);
        CollectBit(value, bits, bit);
        bits := bits + [bit];
        if bit {
          value := Or(value, mask);
        }
        mask, i := mask / 2, i + 1;
      }
      CollectedAll(value, bits);
      data := value;
    }

    method ReadByte(ack: bool) returns (data: byte)
      requires w.Low(Reading, [])
      modifies this
      ensures Events() == old(Events()) + [Frame(BitsOf(data), ack)]
      ensures w.Low(if ack then Reading else Ignoring, [])
      ensures !ack ==> w.drive
    {
      PutSda(true, Reading, []);
      data := ReadBits();
      PutSda(!ack, Reading, BitsOf(data));
      var _ := ClockBit(Reading, BitsOf(data));
      assert (BitsOf(data) + [!ack])[..8] == BitsOf(data);
      PutSda(true, if ack then Reading else Ignoring, []);
    }

    /** The address byte that follows a START; rc tells whether it was acknowledged. */
    method WriteAddress(address: byte) returns (rc: int)
      requires w.Low(Address, []) && w.drive
      modifies this
      ensures rc == 0 || rc == -EIO
      ensures Events() == old(Events()) + [Frame(BitsOf(address), rc == 0)]
      ensures w.Low(if rc != 0 then Ignoring else if address % 2 == 1 then Reading else Writing, [])
      ensures rc != 0 || address % 2 == 0 ==> w.drive
      ensures AlwaysPullsLow(slave) ==> rc == 0 && (address % 2 == 1 ==> !w.drive)
    {
      assert BitsOf(address)[7] == Bit(address, 0);
      var ack := WriteByte(address, Address);
      rc := if ack != 0 then -EIO else 0;
    }

    /** Byte after byte, up to the first one refused. */
    method WriteMany(bytes: seq<byte>) returns (rc: int, ghost n: nat)
      requires w.Low(Writing, []) && w.drive
      modifies this
      ensures n <= |bytes| && rc == if n == |bytes| then 0 else -EIO
      ensures Events() == old(Events()) + Sent(bytes, n)
      ensures w.Low(if rc == 0 then Writing else Ignoring, []) && w.drive
      ensures AlwaysPullsLow(slave) ==> rc == 0
    {
      hide Wire.Low, I2cMaster.Events, BitsOf, Sent;
      SentNone(bytes);
      for i := 0 to |bytes|
        invariant w.Low(Writing, []) && w.drive
        invariant Events() == old(Events()) + Sent(bytes[..i], i)
      {
        var ack := WriteByte(bytes[i], Writing);
        SentStep(bytes, i);
        if ack != 0 {
          return -EIO, i;
        }
      }
      assert bytes[..|bytes|] == bytes;
      return 0, |bytes|;
    }

    method ReadMany(data: array<byte>)
      requires w.Low(Reading, [])
      modifies this, data
      ensures Events() == old(Events()) + Received(data[..], data.Length)
      ensures data.Length > 0 ==> w.Low(Ignoring, []) && w.drive
      ensures data.Length == 0 ==> w == old(w)
    {
      for i := 0 to data.Length
        invariant Events() == old(Events()) + Received(data[..], i)
        invariant w.Low(if i == 0 || i < data.Length then Reading else Ignoring, [])
        invariant i > 0 && i == data.Length ==> w.drive
        invariant i == 0 ==> w == old(w)
      {
        ghost var before := data[..];
        var b := ReadByte(i + 1 < data.Length);
        data[i] := b;
        ReceivedStep(before, data[..], i);
      }
    }

    /** The lines are as a call finds and leaves them. */
    ghost predicate BetweenCalls()
      reads this
    {
      w.Free() || w.Hung()
    }

    /** The first three steps of Write and Read: START, address with W, register bytes. */
    method Begin(address: byte, reg: seq<byte>) returns (rc: int, started: bool, ghost n: nat)
      requires BetweenCalls()
      modifies this
      ensures started == old(w.drive && !w.held) && (rc == -EBUSY <==> !started)
      ensures !started ==> w == old(w).(trace := w.trace) && w.Seen() == old(w.Seen())
      ensures started ==>
        && n <= 1 + |reg| && rc == (if n == 1 + |reg| then 0 else -EIO)
        && w.Low(if rc == 0 then Writing else Ignoring, []) && w.drive
        && Events() == old(Events()) + [Start] + Sent([WriteAddressByte(address)] + reg, n)
      ensures AlwaysPullsLow(slave) && started ==> rc == 0
    {
      started, n := false, 0;
      rc := StartCondition();
      if rc != 0 {
        return;
      }
      started := true;
      var a := WriteAddressByte(address);
      rc := WriteAddress(a);
      HeadEvents(old(Events()), a, reg);
      if rc != 0 {
        return;
      }
      rc, n := WriteMany(reg);
      n := n + 1;
    }

    method Write(address: byte, reg: seq<byte>, data: seq<byte>) returns (rc: int, ghost n: nat)
      requires BetweenCalls()
      modifies this
      ensures rc == -16 <==> !old(w.drive && !w.held)
      ensures rc == -16 ==> w == old(w).(trace := w.trace) && w.Seen() == old(w.Seen())
      ensures rc != -16 ==>
        && w.Free() && !w.held && n <= 1 + |reg| + |data|
        && rc == (if n == 1 + |reg| + |data| then 0 else -5)
        && Events() == old(Events()) + WriteTransfer(address, reg, data, n)
      ensures rc != -16 ==>
        && |Events()| >= |old(Events())| + 3 && Events()[|old(Events())|] == Start
        && Addresses(Events()[|old(Events())| + 1], address, false)
    {
      hide Wire.Low, Wire.Free, I2cMaster.Events, BitsOf, Sent, WriteTransfer, Addresses;
      var started;
      rc, started, n := Begin(address, reg);
      if started {
        WriteEvents(old(Events()), address, reg, data, n);
      }
      if rc == 0 {
        rc, n := WriteMany(data);
        n := n + 1 + |reg|;
      }
      if started {
        StopCondition(if rc == 0 then Writing else Ignoring);
        WriteOpens(address, reg, data, n);
      }
    }

    /** The steps of Read after the register bytes: repeated START, address with R, data. */
    method Continue(address: byte, data: array<byte>) returns (rc: int)
      requires w.Low(Writing, []) && w.drive
      modifies this, data
      ensures rc == 0 || rc == -EIO
      ensures w.Low(if rc == 0 && data.Length == 0 then Reading else Ignoring, [])
      ensures rc != 0 || data.Length > 0 ==> w.drive
      ensures rc != 0 ==> data[..] == old(data[..])
      ensures Events() == old(Events()) + ReadPart(address, rc == 0, data[..])
      ensures AlwaysPullsLow(slave) ==> rc == 0 && (data.Length == 0 ==> !w.drive)
    {
      hide Wire.Low, I2cMaster.Events, BitsOf, Received;
      RepeatStartCondition();
      rc := WriteAddress(ReadAddressByte(address));
      if rc == 0 {
        ReadMany(data);
      }
    }

    method Read(address: byte, reg: seq<byte>, data: array<byte>) returns (rc: int, ghost n: nat)
      requires BetweenCalls()
      modifies this, data
      ensures rc == -16 <==> !old(w.drive && !w.held)
      ensures rc == -16 ==> w == old(w).(trace := w.trace) && w.Seen() == old(w.Seen())
      ensures rc != 0 ==> data[..] == old(data[..])
      ensures rc != -16 ==>
        && !w.held && n <= 1 + |reg| && (n < 1 + |reg| ==> rc == -5) && (rc == 0 || rc == -5)
        && (if w.drive then w.Free() else w.Hung() && rc == 0 && data.Length == 0)
        && Events() == old(Events()) + ReadTransfer(address, reg, n, rc == 0, data[..], w.drive)
      ensures rc != -16 ==>
        && |Events()| >= |old(Events())| + 2 && Events()[|old(Events())|] == Start
        && Addresses(Events()[|old(Events())| + 1], address, false)
      ensures rc != -16 && n == 1 + |reg| ==>
        && |Events()| >= |old(Events())| + |reg| + 4 && Events()[|old(Events())| + |reg| + 2] == Start
        && Addresses(Events()[|old(Events())| + |reg| + 3], address, true)
      ensures AlwaysPullsLow(slave) && data.Length == 0 && rc != -16 ==> rc == 0 && w.Hung()
    {
      hide Wire.Low, Wire.Free, I2cMaster.Events, BitsOf, Sent, Received, ReadPart, ReadTransfer, Addresses;
      var started;
      rc, started, n := Begin(address, reg);
      if rc == 0 {
        rc := Continue(address, data);
      }
      if started {
        ReadEvents(old(Events()), address, reg, n, rc == 0, data[..]);
        ReadOpens(address, reg, n, rc == 0, data[..], true);
        ReadOpens(address, reg, n, rc == 0, data[..], false);
        StopCondition(if rc != 0 || data.Length > 0 then Ignoring else Reading);
      }
    }
  }
}
