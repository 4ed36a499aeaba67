/** The serial receiver and sender of Common/plbus.c. The checksum function is a parameter. */
module Plbus {
  import opened Wrappers
  import opened Bytes

  const TOKEN: byte := 0xA5
  const BROADCAST: byte := 0
  const HEAD := 8
  const WRAP := 0x1_0000

  type Crc16 = seq<byte> -> u16

  datatype Polled = Nothing | CrcError | Accepted(payload: seq<byte>)

  function Le16(b: seq<byte>, at: nat): u16
    requires at + 2 <= |b|
  {
    var low: int, high: int := b[at], b[at + 1];
    low + 0x100 * high
  }

  function LowByte(n: u16): byte { n % 0x100 }

  function HighByte(n: u16): byte { n / 0x100 }

  /** The newest of the bytes whose index is i, when the 16-bit index has wrapped around. */
  ghost function Latest(arrived: seq<byte>, i: nat): byte
    requires i < |arrived|
  {
    arrived[NewestIndex(|arrived|, i)]
  }

  ghost function NewestIndex(n: nat, i: nat): (j: nat)
    requires i < n
    ensures i <= j < n && (n <= WRAP ==> j == i)
  {
    i + WRAP * ((n - 1 - i) / WRAP)
  }

  lemma NewestGrows(n: nat, i: nat)
    requires i < n && i < WRAP
    ensures NewestIndex(n + 1, i) == if n % WRAP == i then n else NewestIndex(n, i)
  {
  }

  lemma NewestFresh(n: nat)
    requires n < WRAP
    ensures NewestIndex(n + 1, n) == n
  {
  }

  /** The buffer after a frame was accepted: the callback's result goes to the error field. */
  function Replied(b: seq<byte>, onReceive: Option<seq<byte> -> u16>, payload: seq<byte>): seq<byte>
    requires |b| >= HEAD
  {
    if onReceive.None? then b
    else var error := onReceive.value(payload); b[6 := LowByte(error)][7 := HighByte(error)]
  }

  class Receiver {
    const ownAddress: u16
    const rxBuffer: array<byte>
    const crc: Crc16
    var rxCnt: u16
    var inSync: bool
    var crcErr: u16
    /** Everything received since the last token that gave synchronisation, with that token. */
    ghost var arrived: seq<byte>

    constructor (ownAddress: u16, rxBuffer: array<byte>, crc: Crc16)
      requires HEAD <= rxBuffer.Length < WRAP
      ensures this.ownAddress == ownAddress && this.rxBuffer == rxBuffer && this.crc == crc
      ensures Valid() && !inSync
    {
      this.ownAddress, this.rxBuffer, this.crc := ownAddress, rxBuffer, crc;
      rxCnt, inSync, crcErr, arrived := 0, false, 0, [];
    }

    ghost predicate Valid()
      reads this, rxBuffer
    {
      && HEAD <= rxBuffer.Length < WRAP
      && (inSync ==>
            && 1 <= |arrived| && arrived[0] == TOKEN && rxCnt == |arrived| % WRAP
            && forall i | 1 <= i < rxBuffer.Length && i < |arrived| :: rxBuffer[i] == Latest(arrived, i))
    }

    lemma Bounds()
      requires Valid()
      ensures HEAD <= rxBuffer.Length < WRAP
    {
    }

    function SizeField(): u16
      requires rxBuffer.Length >= HEAD
      reads rxBuffer
    {
      Le16(rxBuffer[..], 4)
    }

    predicate AddressedToUs()
      requires rxBuffer.Length >= HEAD
      reads this, rxBuffer
    {
      rxBuffer[1] == 0 || rxBuffer[1] == ownAddress
    }

    /** What poll accepts of a complete frame. */
    predicate Deliverable()
      requires rxBuffer.Length >= HEAD && SizeField() + HEAD + 4 <= rxBuffer.Length
      reads this, rxBuffer
    {
      AddressedToUs() && crc(rxBuffer[HEAD..HEAD + SizeField() + 4]) == Le16(rxBuffer[..], 2)
    }

    /** The number of received bytes fits the size field. */
    predicate Complete()
      requires rxBuffer.Length >= HEAD
      reads this, rxBuffer
    {
      inSync && SizeField() + HEAD == rxCnt
    }

    method Put(byte: byte)
      requires Valid()
      modifies this`rxCnt, this`inSync, this`arrived, rxBuffer
      ensures Valid()
      ensures !old(inSync) && byte != 0xA5 ==> !inSync && rxBuffer[..] == old(rxBuffer[..])
      ensures !old(inSync) && byte == 0xA5 ==>
        inSync && rxCnt == 1 && arrived == [TOKEN] && rxBuffer[..] == old(rxBuffer[..])
      ensures old(inSync) ==>
        && inSync && rxCnt == (old(rxCnt) + 1) % WRAP && arrived == old(arrived) + [byte]
        && rxBuffer[..] == if old(rxCnt) < rxBuffer.Length
                           then old(rxBuffer[..])[old(rxCnt) := byte] else old(rxBuffer[..])
      ensures old(inSync) && old(rxCnt) >= HEAD ==> SizeField() == old(SizeField())
    {
      hide NewestIndex;
      if !inSync {
        if byte == TOKEN {
          inSync := true;
          rxCnt := 1;
          arrived := [TOKEN];
        }
        return;
      }
      ghost var before := arrived;
      if rxCnt < rxBuffer.Length {
        rxBuffer[rxCnt] := byte;
      }
      arrived := arrived + [byte];
      rxCnt := (rxCnt + 1) % WRAP;
      forall i | 1 <= i < rxBuffer.Length && i < |arrived| ensures rxBuffer[i] == Latest(arrived, i) {
        if i < |before| { NewestGrows(|before|, i); } else { NewestFresh(|before|); }
      }
    }

    method Poll(onReceive: Option<seq<byte> -> u16>) returns (r: Polled)
      requires Valid()
      requires Complete() && AddressedToUs() ==> SizeField() + HEAD + 4 <= rxBuffer.Length
      modifies this`inSync, this`crcErr, rxBuffer
      ensures Valid()
      ensures r.Nothing? <==> !old(Complete() && AddressedToUs())
      ensures r.Nothing? ==> SizeField() == old(SizeField())
      ensures r.Nothing? ==> inSync == old(inSync) && crcErr == old(crcErr) && rxBuffer[..] == old(rxBuffer[..])
      ensures r.CrcError? ==> inSync && crcErr == (old(crcErr) + 1) % WRAP && rxBuffer[..] == old(rxBuffer[..])
      ensures r.Accepted? ==>
        && !inSync && crcErr == old(crcErr)
        && r.payload == old(rxBuffer[HEAD..HEAD + SizeField()])
        && rxBuffer[..] == Replied(old(rxBuffer[..]), onReceive, r.payload)
        && (onReceive.Some? ==> Le16(rxBuffer[..], 6) == onReceive.value(r.payload))
        && old(crc(rxBuffer[HEAD..HEAD + SizeField() + 4]) == Le16(rxBuffer[..], 2))
      ensures r.CrcError? ==> old(crc(rxBuffer[HEAD..HEAD + SizeField() + 4]) != Le16(rxBuffer[..], 2))
    {
      if !inSync {
        return Nothing;
      }
      var size := Le16(rxBuffer[..], 4);
      if size + HEAD != rxCnt {
        return Nothing;
      }
      if rxBuffer[1] != BROADCAST && rxBuffer[1] != ownAddress {
        return Nothing;
      }
      if crc(rxBuffer[HEAD..HEAD + size + 4]) != Le16(rxBuffer[..], 2) {
        crcErr := (crcErr + 1) % WRAP;
        return CrcError;
      }
      inSync := false;
      r := Accepted(rxBuffer[HEAD..HEAD + size]);
      if onReceive.Some? {
        var error := onReceive.value(r.payload);
        rxBuffer[6], rxBuffer[7] := LowByte(error), HighByte(error);
      }
    }

    /** A frame is taken as complete on the size that came after its own token. It then has exactly
        8 + size bytes if and only if the 16-bit counter has not wrapped around. */
    lemma CompleteFrame()
      requires Valid() && Complete()
      ensures HEAD <= |arrived|
      ensures SizeField() == Latest(arrived, 4) + 0x100 * (Latest(arrived, 5) as int)
      ensures |arrived| == HEAD + SizeField() <==> |arrived| < WRAP
    {
      hide NewestIndex;
      assert rxBuffer[4] == Latest(arrived, 4) && rxBuffer[5] == Latest(arrived, 5);
    }

    /** The payload of such a frame is what followed its header. */
    lemma CompletePayload()
      requires Valid() && Complete() && |arrived| < WRAP && |arrived| <= rxBuffer.Length
      ensures HEAD <= |arrived| && rxBuffer[HEAD..HEAD + SizeField()] == arrived[HEAD..]
      ensures SizeField() == Le16(arrived, 4)
    {
      hide NewestIndex;
      CompleteFrame();
      assert rxBuffer[4] == Latest(arrived, 4) && rxBuffer[5] == Latest(arrived, 5);
    }
  }

  // ----- sending

  /** The bytes that plbus_send transmits: its buffer after filling in the frame. */
  ghost function Frame(dst: u16, sum: u16, size: u16, error: seq<byte>, data: seq<byte>): (f: seq<byte>)
    requires |error| == 2
    ensures |f| == HEAD + |data|
  {
    [TOKEN, dst % 0x100, LowByte(sum), HighByte(sum), LowByte(size), HighByte(size)] + error + data
  }

  lemma PutThenFour(b: seq<byte>, at: nat, bytes: seq<byte>)
    requires at + |bytes| + 4 <= |b|
    ensures Put(b, at, bytes)[at..at + |bytes| + 4] == bytes + b[at + |bytes|..at + |bytes| + 4]
  {
  }

  /** Fills the frame into the sender's buffer and returns the bytes handed to on_transmit. */
  method Send(buffer: array<byte>, crc: Crc16, dst: u16, data: seq<byte>) returns (bytes: seq<byte>)
    requires |data| < WRAP && HEAD + |data| + 4 <= buffer.Length
    modifies buffer
    ensures var tail := old(buffer[HEAD + |data|..HEAD + |data| + 4]);
      bytes == Frame(dst, crc(data + tail), |data|, old(buffer[6..8]), data)
    ensures |bytes| == 8 + |data| && bytes[0] == 0xA5 && bytes[1] == dst % 256
    ensures bytes[2] + 256 * (bytes[3] as int) == crc(data + old(buffer[8 + |data|..12 + |data|]))
    ensures bytes[4] + 256 * (bytes[5] as int) == |data| && bytes[6..8] == old(buffer[6..8]) && bytes[8..] == data
  {
    ghost var before := buffer[..];
    buffer[0], buffer[1] := TOKEN, dst % 0x100;
    buffer[4], buffer[5] := |data| % 0x100, |data| / 0x100;
    ghost var mid := buffer[..];
    Copy(buffer, HEAD, data);
    var sum: u16 := crc(buffer[HEAD..HEAD + |data| + 4]);
    var low: byte, high: byte := LowByte(sum), HighByte(sum);
    buffer[2], buffer[3] := low, high;
    bytes := buffer[..HEAD + |data|];
    Filled(before, mid, buffer[..], dst, sum, data);
  }

  /** The buffer of plbus_send before, with the header but for the checksum, and at the end. */
  lemma Filled(b: seq<byte>, mid: seq<byte>, c: seq<byte>, dst: u16, sum: u16, data: seq<byte>)
    requires |data| < WRAP && HEAD + |data| + 4 <= |b|
    requires mid == b[0 := TOKEN][1 := dst % 0x100][4 := |data| % 0x100][5 := |data| / 0x100]
    requires c == Put(mid, HEAD, data)[2 := LowByte(sum)][3 := HighByte(sum)]
    ensures Put(mid, HEAD, data)[HEAD..HEAD + |data| + 4] == data + b[HEAD + |data|..HEAD + |data| + 4]
    ensures c[..HEAD + |data|] == Frame(dst, sum, |data|, b[6..8], data)
  {
    var size: u16 := |data|;
    PutThenFour(mid, HEAD, data);
    assert mid[HEAD + |data|..HEAD + |data| + 4] == b[HEAD + |data|..HEAD + |data| + 4];
    var p := Put(mid, HEAD, data);
    assert p[..HEAD] == mid[..HEAD] && p[HEAD..HEAD + |data|] == data;
    assert c[..HEAD] == Frame(dst, sum, size, b[6..8], data)[..HEAD];
    assert c[HEAD..HEAD + |data|] == data;
    assert c[..HEAD + |data|] == c[..HEAD] + c[HEAD..HEAD + |data|];
  }

  /** Polls in a row of which none finds a complete frame. */
  method IdlePolls(bus: Receiver, n: nat) returns (results: seq<Polled>)
    requires bus.Valid() && !bus.Complete()
    modifies bus`inSync, bus`crcErr, bus.rxBuffer
    ensures bus.Valid() && |results| == n && forall r | r in results :: r == Nothing
    ensures bus.inSync == old(bus.inSync) && bus.crcErr == old(bus.crcErr)
    ensures bus.SizeField() == old(bus.SizeField()) && bus.rxBuffer[..] == old(bus.rxBuffer[..])
  {
    hide Receiver.Valid, Receiver.SizeField;
    bus.Bounds();
    results := [];
    for i := 0 to n
      invariant bus.Valid() && |results| == i && forall r | r in results :: r == Nothing
      invariant bus.inSync == old(bus.inSync) && bus.crcErr == old(bus.crcErr)
      invariant bus.SizeField() == old(bus.SizeField()) && bus.rxBuffer[..] == old(bus.rxBuffer[..])
    {
      var r := bus.Poll(None);
      results := results + [r];
    }
  }

  /** Feeds bytes to a receiver, polling it gaps[i] times before byte i. */
  method Feed(bus: Receiver, bytes: seq<byte>, gaps: seq<nat>) returns (results: seq<Polled>)
    requires bus.Valid() && !bus.inSync && |gaps| == |bytes|
    requires HEAD <= |bytes| <= bus.rxBuffer.Length < WRAP
    requires bytes[0] == TOKEN && |bytes| == HEAD + Le16(bytes, 4)
    modifies bus, bus.rxBuffer
    ensures bus.Valid() && bus.inSync && bus.arrived == bytes && bus.crcErr == old(bus.crcErr)
    ensures forall r | r in results :: r == Nothing
    ensures bus.rxBuffer[1..|bytes|] == bytes[1..]
    ensures bus.rxBuffer[|bytes|..] == old(bus.rxBuffer[|bytes|..])
    ensures bus.Complete()
  {
    hide Receiver.Valid, Receiver.SizeField, Le16;
    results := IdlePolls(bus, gaps[0]);
    assert bus.rxBuffer[|bytes|..] == bus.rxBuffer[..][|bytes|..];
    bus.Put(bytes[0]);
    var i := 1;
    while i < |bytes|
      invariant 1 <= i <= |bytes|
      invariant bus.Valid() && bus.inSync && bus.arrived == bytes[..i] && bus.rxCnt == i
      invariant bus.crcErr == old(bus.crcErr)
      invariant forall r | r in results :: r == Nothing
      invariant bus.rxBuffer[|bytes|..] == old(bus.rxBuffer[|bytes|..])
    {
      NotComplete(bus, bytes, i);
      var more := IdlePolls(bus, gaps[i]);
      results := results + more;
      assert bus.rxBuffer[|bytes|..] == bus.rxBuffer[..][|bytes|..];
      bus.Put(bytes[i]);
      i := i + 1;
    }
    assert bytes[..|bytes|] == bytes;
    Everything(bus, bytes);
  }

  /** Half of a frame is never taken for a whole one, whatever was in the buffer before. */
  lemma NotComplete(bus: Receiver, bytes: seq<byte>, i: nat)
    requires bus.Valid() && bus.inSync && 1 <= i < |bytes| <= bus.rxBuffer.Length && HEAD <= |bytes|
    requires |bytes| == HEAD + Le16(bytes, 4) && bus.arrived == bytes[..i] && bus.rxCnt == i
    ensures !bus.Complete()
  {
    if bus.Complete() {
      bus.CompleteFrame();
    }
  }

  lemma Everything(bus: Receiver, bytes: seq<byte>)
    requires bus.Valid() && bus.inSync && bus.arrived == bytes && bus.rxCnt == |bytes|
    requires HEAD <= |bytes| <= bus.rxBuffer.Length && |bytes| == HEAD + Le16(bytes, 4)
    ensures bus.rxBuffer[1..|bytes|] == bytes[1..]
    ensures bus.Complete()
  {
    forall i | 1 <= i < |bytes| ensures bus.rxBuffer[i] == bytes[i] {
      assert bus.rxBuffer[i] == Latest(bytes, i);
    }
  }

  /** The address byte that a destination becomes is for this receiver. */
  predicate Reaches(dst: u16, ownAddress: u16) {
    dst % 256 == 0 || dst % 256 == ownAddress
  }

  /** A frame sent to an out-of-sync receiver, polled at will on the way. It is delivered exactly when
      the address reaches the receiver and the checksum comes out the same on both sides; both sides
      include the four bytes that follow the payload in their own buffer. */
  method Transfer(buffer: array<byte>, bus: Receiver, dst: u16, data: seq<byte>, gaps: seq<nat>)
    returns (onTheWay: seq<Polled>, last: Polled)
    requires bus.Valid() && !bus.inSync && buffer != bus.rxBuffer
    requires HEAD + |data| + 4 <= buffer.Length && HEAD + |data| + 4 <= bus.rxBuffer.Length
    requires |gaps| == HEAD + |data|
    modifies buffer, bus, bus.rxBuffer
    ensures forall r | r in onTheWay :: r == Nothing
    ensures var sent := bus.crc(data + old(buffer[HEAD + |data|..HEAD + |data| + 4]));
      var received := bus.crc(data + old(bus.rxBuffer[HEAD + |data|..HEAD + |data| + 4]));
      last == if !Reaches(dst, bus.ownAddress) then Nothing
              else if sent == received then Accepted(data) else CrcError
  {
    var bytes := Send(buffer, bus.crc, dst, data);
    ghost var sum, n := Le16(bytes, 2), |data|;
    FrameFields(bytes, dst, bus.crc(data + old(buffer[HEAD + n..HEAD + n + 4])), n, old(buffer[6..8]), data);
    ghost var tail := bus.rxBuffer[HEAD + n..HEAD + n + 4];
    onTheWay := Feed(bus, bytes, gaps);
    ReceivedFields(bus, bytes, data, old(bus.rxBuffer[..]));
    last := bus.Poll(None);
  }

  lemma FrameFields(f: seq<byte>, dst: u16, sum: u16, size: u16, error: seq<byte>, data: seq<byte>)
    requires |error| == 2 && f == Frame(dst, sum, size, error, data)
    ensures f[0] == TOKEN && f[1] == dst % 0x100 && Le16(f, 2) == sum && Le16(f, 4) == size && f[HEAD..] == data
  {
  }

  lemma ReceivedFields(bus: Receiver, bytes: seq<byte>, data: seq<byte>, before: seq<byte>)
    requires HEAD <= |bytes| == HEAD + |data| && |bytes| + 4 <= bus.rxBuffer.Length == |before|
    requires bytes[HEAD..] == data && Le16(bytes, 4) == |data|
    requires bus.rxBuffer[1..|bytes|] == bytes[1..] && bus.rxBuffer[|bytes|..] == before[|bytes|..]
    ensures bus.rxBuffer[1] == bytes[1] && bus.SizeField() == |data| && Le16(bus.rxBuffer[..], 2) == Le16(bytes, 2)
    ensures bus.rxBuffer[HEAD..HEAD + |data|] == data
    ensures bus.rxBuffer[HEAD..HEAD + |data| + 4] == data + before[|bytes|..|bytes| + 4]
  {
    var b := bus.rxBuffer[..];
    assert forall i | 1 <= i < |bytes| :: b[i] == bus.rxBuffer[1..|bytes|][i - 1] == bytes[1..][i - 1] == bytes[i];
    assert forall i | 0 <= i < |data| :: b[HEAD + i] == bytes[HEAD + i] == bytes[HEAD..][i];
    assert b[HEAD..HEAD + |data|] == data;
    assert b[|bytes|..|bytes| + 4] == bus.rxBuffer[|bytes|..][..4];
    assert before[|bytes|..|bytes| + 4] == before[|bytes|..][..4];
    assert b[HEAD..HEAD + |data| + 4] == b[HEAD..HEAD + |data|] + b[|bytes|..|bytes| + 4];
  }

  // ----- losing and keeping step

  /** The payloads that a series of polls delivered. */
  function Delivered(results: seq<Polled>): seq<seq<byte>> {
    if results == [] then []
    else (if results[0].Accepted? then [results[0].payload] else []) + Delivered(results[1..])
  }

  lemma {:induction false} DeliveredJoin(a: seq<Polled>, b: seq<Polled>)
    ensures Delivered(a + b) == Delivered(a) + Delivered(b)
  {
    hide Delivered;
    if a == [] {
      assert a + b == b;
      NothingDelivered([]);
    } else {
      DeliveredJoin(a[1..], b);
      DeliveredFront(a[0], a[1..]);
      DeliveredFront(a[0], a[1..] + b);
      assert [a[0]] + a[1..] == a && [a[0]] + (a[1..] + b) == a + b;
    }
  }

  lemma {:induction false} NothingDelivered(results: seq<Polled>)
    requires forall r | r in results :: r == Nothing
    ensures Delivered(results) == []
  {
    if results != [] {
      assert results[0] in results;
      assert forall r | r in results[1..] :: r in results;
      NothingDelivered(results[1..]);
    }
  }

  lemma DeliveredFront(r: Polled, rest: seq<Polled>)
    ensures Delivered([r] + rest) == (if r.Accepted? then [r.payload] else []) + Delivered(rest)
  {
    assert ([r] + rest)[1..] == rest;
  }

  /** A receiver that has counted past the end of its frame ignores everything until the 16-bit
      counter wraps around, complete frames for this receiver included. */
  method Deaf(bus: Receiver, bytes: seq<byte>, gaps: seq<nat>) returns (results: seq<Polled>)
    requires bus.Valid() && bus.inSync && |gaps| == |bytes|
    requires bus.rxCnt > HEAD + bus.SizeField() && bus.rxCnt + |bytes| < WRAP
    modifies bus, bus.rxBuffer
    ensures bus.Valid() && bus.inSync && forall r | r in results :: r == Nothing
    ensures bus.rxCnt == old(bus.rxCnt) + |bytes| && bus.SizeField() == old(bus.SizeField())
  {
    hide Receiver.Valid, Receiver.SizeField;
    bus.Bounds();
    results := [];
    for i := 0 to |bytes|
      invariant bus.Valid() && bus.inSync && bus.rxCnt == old(bus.rxCnt) + i
      invariant bus.SizeField() == old(bus.SizeField())
      invariant forall r | r in results :: r == Nothing
    {
      var more := IdlePolls(bus, gaps[i]);
      results := results + more;
      bus.Put(bytes[i]);
    }
  }

  /** Polls in a row at a complete frame: the first one decides. */
  method FramePolls(bus: Receiver, n: nat) returns (results: seq<Polled>)
    requires bus.Valid() && bus.Complete() && bus.SizeField() + HEAD + 4 <= bus.rxBuffer.Length
    modifies bus`inSync, bus`crcErr, bus.rxBuffer
    ensures bus.Valid() && |results| == n && bus.rxBuffer[..] == old(bus.rxBuffer[..])
    ensures bus.inSync <==> n == 0 || !old(bus.Deliverable())
    ensures Delivered(results)
      == if n > 0 && old(bus.Deliverable()) then [old(bus.rxBuffer[HEAD..HEAD + bus.SizeField()])] else []
    ensures bus.SizeField() == old(bus.SizeField())
  {
    hide Receiver.Valid, Delivered;
    NothingDelivered([]);
    if n == 0 {
      return [];
    }
    var first := bus.Poll(None);
    if first.Accepted? {
      var rest := IdlePolls(bus, n - 1);
      NothingDelivered(rest);
      DeliveredFront(first, rest);
      results := [first] + rest;
    } else {
      var rest := FramePolls(bus, n - 1);
      DeliveredFront(first, rest);
      results := [first] + rest;
    }
  }

  /** A frame is complete in the buffer. The next frame arrives, with gaps[i] polls before its byte i, and
      is polled once at its end. Before the counter wraps around, this next frame is received if and only if
      the first one was polled in time and delivered; if it was for another address, or failed its checksum,
      or was not polled before the next byte, the next one is lost, whatever it is. */
  method NextFrame(bus: Receiver, bytes: seq<byte>, gaps: seq<nat>)
    returns (onTheWay: seq<Polled>, last: Polled)
    requires bus.Valid() && bus.Complete() && bus.SizeField() + HEAD + 4 <= bus.rxBuffer.Length
    requires HEAD <= |bytes| && bytes[0] == TOKEN && |bytes| == HEAD + Le16(bytes, 4)
    requires |bytes| + 4 <= bus.rxBuffer.Length && |gaps| == |bytes|
    requires bus.rxCnt + |bytes| < WRAP
    modifies bus, bus.rxBuffer
    ensures forall r | r in onTheWay :: r == Nothing
    ensures var first := gaps[0] > 0 && old(bus.Deliverable());
      var tail := old(bus.rxBuffer[|bytes|..|bytes| + 4]);
      last == if !first || !(bytes[1] == BROADCAST || bytes[1] == bus.ownAddress) then Nothing
              else if bus.crc(bytes[HEAD..] + tail) == Le16(bytes, 2) then Accepted(bytes[HEAD..]) else CrcError
  {
    hide Receiver.Valid, Le16, Receiver.Deliverable;
    ghost var before := bus.rxBuffer[..];
    assert before[|bytes|..] == bus.rxBuffer[|bytes|..];
    bus.Bounds();
    var _ := FramePolls(bus, gaps[0]);
    if bus.inSync {
      bus.Put(bytes[0]);
      onTheWay := Deaf(bus, bytes[1..], gaps[1..]);
      last := bus.Poll(None);
    } else {
      onTheWay := Feed(bus, bytes, gaps[0 := 0]);
      ReceivedFields(bus, bytes, bytes[HEAD..], before);
      last := bus.Poll(None);
    }
  }

  // ----- the counter wraps around

  /** The token and 65543 zero bytes: the counter has wrapped around to 8, which is taken for a complete
      frame without payload; it is accepted exactly if the checksum of four zero bytes is 0. */
  method WrappedFrame(bus: Receiver) returns (r: Polled)
    requires bus.Valid() && !bus.inSync && HEAD + 4 <= bus.rxBuffer.Length
    modifies bus, bus.rxBuffer
    ensures bus.Valid() && |bus.arrived| == WRAP + HEAD
    ensures r == if bus.crc([0, 0, 0, 0]) == 0 then Accepted([]) else CrcError
  {
    bus.Put(TOKEN);
    for n := 1 to WRAP + HEAD
      invariant bus.Valid() && bus.inSync && |bus.arrived| == n && bus.rxCnt == n % WRAP
      invariant forall i | 1 <= i < n && i < bus.rxBuffer.Length :: bus.rxBuffer[i] == 0
    {
      bus.Put(0);
    }
    assert bus.rxBuffer[HEAD..HEAD + 4] == [0, 0, 0, 0];
    assert bus.rxBuffer[HEAD..HEAD] == [];
    r := bus.Poll(None);
  }
}
