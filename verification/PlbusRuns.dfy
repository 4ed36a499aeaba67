/** Streams of frames that arrive at a plbus receiver. */
module PlbusRuns {
  import opened Bytes
  import opened Plbus

  predicate IsFrame(f: seq<byte>) {
    HEAD <= |f| && f[0] == TOKEN && |f| == HEAD + Le16(f, 4)
  }

  /** Frames that the buffer holds together with their checksum range; gaps[i][k] polls follow byte k of
      frame i. */
  ghost predicate Stream(length: nat, frames: seq<seq<byte>>, gaps: seq<seq<nat>>) {
    && |gaps| == |frames|
    && forall i | 0 <= i < |frames| ::
         IsFrame(frames[i]) && |frames[i]| + 4 <= length && |gaps[i]| == |frames[i]|
  }

  /** The buffer after a frame; the token is not stored. */
  function Stored(b: seq<byte>, f: seq<byte>): (c: seq<byte>)
    requires HEAD <= |f| <= |b|
    ensures |c| == |b|
  {
    b[..1] + f[1..] + b[|f|..]
  }

  /** A frame is delivered if it is polled at its end, is for this receiver, and its checksum is that of its
      payload and the four bytes that follow in the buffer. */
  predicate Good(crc: Crc16, own: u16, b: seq<byte>, f: seq<byte>, polls: nat)
    requires HEAD <= |f| && |f| + 4 <= |b|
  {
    && polls > 0 && (f[1] == BROADCAST || f[1] == own)
    && crc(f[HEAD..] + b[|f|..|f| + 4]) == Le16(f, 2)
  }

  /** The number of frames before the first one that is not delivered. */
  ghost function GoodFrames(crc: Crc16, own: u16, b: seq<byte>, frames: seq<seq<byte>>, gaps: seq<seq<nat>>): (n: nat)
    requires Stream(|b|, frames, gaps)
    ensures n <= |frames|
    decreases |frames|
  {
    if frames == [] then 0
    else
      var f, polls := frames[0], gaps[0][|gaps[0]| - 1];
      if Good(crc, own, b, f, polls) then 1 + GoodFrames(crc, own, Stored(b, f), frames[1..], gaps[1..]) else 0
  }

  function Payloads(frames: seq<seq<byte>>): seq<seq<byte>>
    requires forall i | 0 <= i < |frames| :: IsFrame(frames[i])
  {
    if frames == [] then []
    else
      assert IsFrame(frames[0]);
      [frames[0][HEAD..]] + Payloads(frames[1..])
  }

  function TotalBytes(frames: seq<seq<byte>>): nat {
    if frames == [] then 0 else |frames[0]| + TotalBytes(frames[1..])
  }

  /** One frame, and the polls at its end. */
  method FeedOne(bus: Receiver, f: seq<byte>, gaps: seq<nat>, ghost b: seq<byte>) returns (results: seq<Polled>)
    requires bus.Valid() && !bus.inSync && |b| == bus.rxBuffer.Length && bus.rxBuffer[1..] == b[1..]
    requires IsFrame(f) && |f| + 4 <= |b| && |gaps| == |f|
    modifies bus, bus.rxBuffer
    ensures bus.Valid() && bus.rxBuffer[1..] == Stored(b, f)[1..]
    ensures Delivered(results) == if Good(bus.crc, bus.ownAddress, b, f, gaps[|f| - 1]) then [f[HEAD..]] else []
    ensures bus.inSync <==> !Good(bus.crc, bus.ownAddress, b, f, gaps[|f| - 1])
    ensures bus.inSync ==> bus.rxCnt == |f| == HEAD + bus.SizeField()
  {
    hide Receiver.Valid, Le16, Delivered, Receiver.SizeField;
    bus.Bounds();
    ghost var before := bus.rxBuffer[..];
    SameTail(before, b, |f|);
    assert before[|f|..] == bus.rxBuffer[|f|..];
    results := Feed(bus, f, [0] + gaps[..|f| - 1]);
    NothingDelivered(results);
    ReceivedFields(bus, f, f[HEAD..], before);
    FrameInBuffer(bus.rxBuffer[..], b, f);
    var last := FramePolls(bus, gaps[|f| - 1]);
    DeliveredJoin(results, last);
    results := results + last;
  }

  lemma SameTail(a: seq<byte>, b: seq<byte>, n: nat)
    requires 1 <= n && n + 4 <= |b| == |a| && a[1..] == b[1..]
    ensures a[n..] == b[n..] && a[n..n + 4] == b[n..n + 4]
  {
    assert a[n..] == a[1..][n - 1..] && b[n..] == b[1..][n - 1..];
    assert a[n..n + 4] == a[n..][..4] && b[n..n + 4] == b[n..][..4];
  }

  lemma FrameInBuffer(c: seq<byte>, b: seq<byte>, f: seq<byte>)
    requires HEAD <= |f| <= |b| == |c| && c[1..|f|] == f[1..] && c[|f|..] == b[|f|..]
    ensures c[1..] == Stored(b, f)[1..]
  {
    assert c[1..] == c[1..|f|] + c[|f|..];
    assert Stored(b, f)[1..] == f[1..] + b[|f|..];
  }

  /** A receiver that is still in sync at the end of a frame hears nothing of the frames that follow. */
  method DeafTo(bus: Receiver, frames: seq<seq<byte>>, gaps: seq<seq<nat>>) returns (results: seq<Polled>)
    requires bus.Valid() && bus.inSync && bus.rxCnt >= HEAD + bus.SizeField()
    requires Stream(bus.rxBuffer.Length, frames, gaps) && bus.rxCnt + TotalBytes(frames) < WRAP
    modifies bus, bus.rxBuffer
    ensures bus.Valid() && Delivered(results) == []
    decreases |frames|
  {
    hide Receiver.Valid, Receiver.SizeField, Delivered, IsFrame;
    bus.Bounds();
    NothingDelivered([]);
    results := [];
    if frames != [] {
      var f, g := frames[0], gaps[0];
      assert HEAD <= |f| by { LongEnough(f); }
      bus.Put(f[0]);
      var onTheWay := Deaf(bus, f[1..], g[..|f| - 1]);
      var atEnd := IdlePolls(bus, g[|f| - 1]);
      var rest := DeafTo(bus, frames[1..], gaps[1..]);
      NothingDelivered(onTheWay);
      NothingDelivered(atEnd);
      DeliveredJoin(onTheWay, atEnd);
      DeliveredJoin(onTheWay + atEnd, rest);
      results := onTheWay + atEnd + rest;
    }
  }

  lemma LongEnough(f: seq<byte>)
    requires IsFrame(f)
    ensures HEAD <= |f|
  {
  }

  /** Any stream of frames to a receiver that is out of sync, polled in any way. Exactly the payloads of the
      frames before the first bad one are delivered, in order; from there on nothing is, before the counter
      wraps around. So a stream of good frames, of whatever length, is delivered completely. */
  method Receive(bus: Receiver, frames: seq<seq<byte>>, gaps: seq<seq<nat>>, ghost b: seq<byte>)
    returns (results: seq<Polled>)
    requires bus.Valid() && !bus.inSync && |b| == bus.rxBuffer.Length && bus.rxBuffer[1..] == b[1..]
    requires Stream(|b|, frames, gaps)
    requires TotalBytes(frames[GoodFrames(bus.crc, bus.ownAddress, b, frames, gaps)..]) < WRAP
    modifies bus, bus.rxBuffer
    ensures bus.Valid()
    ensures Delivered(results) == Payloads(frames[..GoodFrames(bus.crc, bus.ownAddress, b, frames, gaps)])
    decreases |frames|
  {
    hide Receiver.Valid, Receiver.SizeField, Delivered, Good, Stored, IsFrame;
    NothingDelivered([]);
    results := [];
    if frames != [] {
      LongEnough(frames[0]);
      ghost var good := GoodFrames(bus.crc, bus.ownAddress, b, frames, gaps);
      var first := FeedOne(bus, frames[0], gaps[0], b);
      var rest;
      if bus.inSync {
        assert frames[0..] == frames;
        rest := DeafTo(bus, frames[1..], gaps[1..]);
      } else {
        assert frames[1..][good - 1..] == frames[good..];
        rest := Receive(bus, frames[1..], gaps[1..], Stored(b, frames[0]));
        assert frames[..good][1..] == frames[1..][..good - 1];
      }
      DeliveredJoin(first, rest);
      results := first + rest;
    }
  }
}
