/** Whole runs of I2C calls: the transfers on the wire stay well formed, whatever the slave does. */
module I2cRuns {
  import opened Bytes
  import opened I2cWire
  import opened I2cGpio

  datatype Scan = Closed | Opened | Malformed

  /** A transfer opens with a START, may start again, and closes with one STOP. */
  function Step(s: Scan, e: Event): Scan {
    match (s, e)
    case (Closed, Start) => Opened
    case (Opened, Start) => Opened
    case (Opened, Frame(_, _)) => Opened
    case (Opened, Stop) => Closed
    case _ => Malformed
  }

  function ScanFrom(s: Scan, events: seq<Event>): Scan
    decreases events
  {
    if events == [] then s else ScanFrom(Step(s, events[0]), events[1..])
  }

  lemma {:induction false} ScanJoin(s: Scan, a: seq<Event>, b: seq<Event>)
    ensures ScanFrom(s, a + b) == ScanFrom(ScanFrom(s, a), b)
    decreases a
  {
    if a == [] {
      assert a + b == b;
    } else {
      assert (a + b)[0] == a[0] && (a + b)[1..] == a[1..] + b;
      ScanJoin(Step(s, a[0]), a[1..], b);
    }
  }

  lemma {:induction false} ScanFrames(frames: seq<Event>)
    requires forall i | 0 <= i < |frames| :: frames[i].Frame?
    ensures ScanFrom(Opened, frames) == Opened
  {
    if frames != [] { ScanFrames(frames[1..]); }
  }

  lemma ScanWriteTransfer(address: byte, reg: seq<byte>, data: seq<byte>, n: nat)
    requires n <= 1 + |reg| + |data|
    ensures ScanFrom(Closed, WriteTransfer(address, reg, data, n)) == Closed
  {
    var sent := Sent([WriteAddressByte(address)] + reg + data, n);
    ScanFrames(sent);
    ScanJoin(Closed, [Start], sent);
    ScanJoin(Closed, [Start] + sent, [Stop]);
    assert ScanFrom(Closed, [Start]) == Opened && ScanFrom(Opened, [Stop]) == Closed;
  }

  lemma ScanReadPart(address: byte, acked: bool, data: seq<byte>)
    ensures ScanFrom(Opened, ReadPart(address, acked, data)) == Opened
  {
    var frames := [Frame(BitsOf(ReadAddressByte(address)), acked)] + if acked then Received(data, |data|) else [];
    assert ReadPart(address, acked, data) == [Start] + frames;
    ScanFrames(frames);
    ScanJoin(Opened, [Start], frames);
  }

  lemma ScanReadTransfer(address: byte, reg: seq<byte>, n: nat, acked: bool, data: seq<byte>, released: bool)
    requires n <= 1 + |reg|
    ensures ScanFrom(Closed, ReadTransfer(address, reg, n, acked, data, released))
            == if released then Closed else Opened
  {
    var sent := Sent([WriteAddressByte(address)] + reg, n);
    var part := if n < 1 + |reg| then [] else ReadPart(address, acked, data);
    ScanFrames(sent);
    ScanReadPart(address, acked, data);
    ScanParts(sent, part, if released then [Stop] else []);
  }

  lemma ScanParts(sent: seq<Event>, part: seq<Event>, end: seq<Event>)
    requires ScanFrom(Opened, sent) == Opened && ScanFrom(Opened, part) == Opened
    ensures ScanFrom(Closed, [Start] + sent + part + end) == ScanFrom(Opened, end)
  {
    ScanJoin(Closed, [Start], sent);
    ScanJoin(Closed, [Start] + sent, part);
    ScanJoin(Closed, [Start] + sent + part, end);
  }

  datatype Call =
    | WriteCall(address: byte, reg: seq<byte>, data: seq<byte>)
    | ReadCall(address: byte, reg: seq<byte>, length: nat)

  predicate ZeroRead(c: Call) { c.ReadCall? && c.length == 0 }

  method RunCall(m: I2cMaster, call: Call) returns (code: int)
    requires m.BetweenCalls()
    modifies m
    ensures m.BetweenCalls()
    ensures !old(m.w.drive) ==> code == -EBUSY && !m.w.drive && m.Events() == old(m.Events())
    ensures old(m.w.drive) && !m.w.drive ==> ZeroRead(call) && code == 0
    ensures old(m.w.drive) && ScanFrom(Closed, old(m.Events())) == Closed ==>
      ScanFrom(Closed, m.Events()) == if m.w.drive then Closed else Opened
  {
    match call {
      case WriteCall(address, reg, data) =>
        ghost var n;
        code, n := m.Write(address, reg, data);
        if code != -EBUSY {
          ScanWriteTransfer(address, reg, data, n);
          ScanJoin(Closed, old(m.Events()), WriteTransfer(address, reg, data, n));
        }
      case ReadCall(address, reg, length) =>
        var data := new byte[length];
        ghost var n;
        code, n := m.Read(address, reg, data);
        if code != -EBUSY {
          ScanReadTransfer(address, reg, n, code == 0, data[..], m.w.drive);
          ScanJoin(Closed, old(m.Events()), ReadTransfer(address, reg, n, code == 0, data[..], m.w.drive));
        }
    }
  }

  /** Any client of the master, from a free bus. `hang` is the call after which the slave keeps SDA
      low, or |calls|. It can only be a read of zero bytes; without one the wire shows closed
      transfers only and is free at the end, and after one every call reports a busy bus. */
  method RunCalls(m: I2cMaster, calls: seq<Call>) returns (codes: seq<int>, ghost hang: nat)
    requires m.w.Free() && ScanFrom(Closed, m.Events()) == Closed
    modifies m
    ensures |codes| == |calls| && m.w.sda && m.w.scl && hang <= |calls|
    ensures hang < |calls| ==> ZeroRead(calls[hang]) && codes[hang] == 0
    ensures forall j | hang < j < |calls| :: codes[j] == -EBUSY
    ensures hang == |calls| ==> m.w.Free() && ScanFrom(Closed, m.Events()) == Closed
    ensures hang < |calls| ==> m.w.Hung() && ScanFrom(Closed, m.Events()) == Opened
  {
    codes, hang := [], |calls|;
    for i := 0 to |calls|
      invariant |codes| == i && m.BetweenCalls()
      invariant m.w.drive ==> hang == |calls| && ScanFrom(Closed, m.Events()) == Closed
      invariant !m.w.drive ==> hang < i && ScanFrom(Closed, m.Events()) == Opened
      invariant !m.w.drive ==> ZeroRead(calls[hang]) && codes[hang] == 0
      invariant forall j | hang < j < i :: codes[j] == -EBUSY
    {
      ghost var before := m.w.drive;
      var code := RunCall(m, calls[i]);
      codes := codes + [code];
      if before && !m.w.drive {
        hang := i;
      }
    }
  }

  /** Reading zero bytes from a slave that is about to send a 0 bit does hang the bus: the read
      reports success, and the next call finds the bus busy. */
  method ZeroReadHangs(address: byte, reg: seq<byte>) returns (first: int, second: int)
    ensures first == 0 && second == -EBUSY
  {
    var m := new I2cMaster(_ => false);
    var none := new byte[0];
    ghost var n;
    first, n := m.Read(address, reg, none);
    second, n := m.Write(address, reg, []);
  }
}
