/** What the two wires of an I2C bus show, after NXP UM10204: START and STOP are SDA edges while
    SCL is high (section 3.1.4), a bit is the SDA level that is held over one SCL pulse (3.1.3),
    nine bits make a byte with its acknowledge (3.1.5, 3.1.6), and the eighth bit of the first
    byte after a START tells the direction (3.1.10). */
module I2cWire {

  datatype Line = Line(sda: bool, scl: bool)

  /** `Broken` marks a START or STOP in the middle of a byte. */
  datatype Event = Start | Frame(bits: seq<bool>, ack: bool) | Stop | Broken

  /** Who sends the next byte. `Ignoring`: the last byte was not acknowledged. */
  datatype Phase = Idle | Address | Writing | Reading | Ignoring

  datatype Observer = Observer(line: Line, armed: bool, phase: Phase, bits: seq<bool>, events: seq<Event>)

  const PowerUp := Observer(Line(true, true), false, Idle, [], [])

  function PhaseAfter(phase: Phase, bits: seq<bool>): Phase
    requires |bits| == 9
  {
    if bits[8] then Ignoring
    else if phase == Address then (if bits[7] then Reading else Writing)
    else phase
  }

  function Commit(o: Observer, bit: bool): Observer
    requires |o.bits| <= 8
  {
    var bits := o.bits + [bit];
    if |bits| < 9 then o.(bits := bits)
    else o.(bits := [], phase := PhaseAfter(o.phase, bits), events := o.events + [Frame(bits[..8], !bits[8])])
  }

  function Condition(o: Observer, phase: Phase, event: Event): Observer {
    o.(armed := false, bits := [], phase := phase,
       events := o.events + (if o.bits == [] then [] else [Broken]) + [event])
  }

  /** The decoder: one more sample of the lines. */
  function Observe(o: Observer, l: Line): (r: Observer)
    requires |o.bits| <= 8
    ensures |r.bits| <= 8 && r.line == l
  {
    var next := o.(line := l);
    if o.line.scl && l.scl then
      if o.line.sda == l.sda then next
      else if l.sda then Condition(next, Idle, Stop)
      else Condition(next, Address, Start)
    else if l.scl then next.(armed := true)
    else if o.line.scl then
      if o.armed && o.phase != Idle then Commit(next.(armed := false), o.line.sda)
      else next.(armed := false)
    else next
  }

  function Decode(trace: seq<Line>): (o: Observer)
    ensures |o.bits| <= 8
  {
    if trace == [] then PowerUp
    else Observe(Decode(trace[..|trace| - 1]), trace[|trace| - 1])
  }

  /** The slave may hold SDA low in acknowledge slots and in the data bits it sends; what it does
      there is an arbitrary function of everything it has seen. */
  type Slave = Observer -> bool

  predicate SlaveTurn(phase: Phase, bits: seq<bool>) {
    if phase == Reading then |bits| < 8 else (phase == Address || phase == Writing) && |bits| == 8
  }

  function Drive(slave: Slave, o: Observer): bool {
    SlaveTurn(o.phase, o.bits) ==> slave(o)
  }

  ghost predicate AlwaysPullsLow(slave: Slave) {
    forall o :: !slave(o)
  }

  // ----- the wires with a master and a slave on them

  /** `sda` and `scl` are the master's outputs, `drive` is the slave's SDA output, `held` tells
      that something else keeps SCL low. The lines are the AND of their drivers. */
  datatype Wire = Wire(sda: bool, scl: bool, drive: bool, held: bool, trace: seq<Line>) {
    function Level(): Line {
      Line(sda && drive, scl && !held)
    }

    function Seen(): (o: Observer)
      ensures |o.bits| <= 8
    {
      Decode(trace)
    }

    function Sample(): Wire {
      this.(trace := trace + [Level()])
    }

    /** The lines after an output changed; the slave reacts to a falling SCL. */
    function Settle(slave: Slave): Wire {
      var w := Sample();
      if Seen().line.scl && !w.Level().scl then
        w.(drive := Drive(slave, w.Seen())).Sample()
      else w
    }

    function SetSda(slave: Slave, level: bool): Wire {
      this.(sda := level).Settle(slave)
    }

    function SetScl(slave: Slave, level: bool): Wire {
      this.(scl := level).Settle(slave)
    }

    /** The last sample shows the lines as they are. */
    ghost predicate Settled() {
      Seen().line == Level()
    }

    /** Both lines are released and no transfer is under way. */
    ghost predicate Free() {
      Settled() && sda && scl && drive && Seen().phase == Idle && Seen().bits == []
    }

    /** The master is released, but the slave keeps SDA low in the middle of a transfer. */
    ghost predicate Hung() {
      Settled() && sda && scl && !drive && Seen().bits == []
    }

    /** Within a transfer, between two clock pulses. */
    ghost predicate Low(phase: Phase, bits: seq<bool>) {
      Settled() && !scl && !held && Seen().phase == phase && Seen().bits == bits
    }
  }

  lemma SampleSeen(w: Wire)
    ensures w.Sample().Seen() == Observe(w.Seen(), w.Level())
    ensures w.Sample().Settled()
  {
    assert w.Sample().trace[..|w.trace|] == w.trace;
  }

  lemma SetSdaLow(w: Wire, slave: Slave, level: bool, phase: Phase, bits: seq<bool>)
    requires w.Low(phase, bits)
    ensures var r := w.SetSda(slave, level);
      && r.Low(phase, bits) && r.sda == level && r.drive == w.drive && r.Seen().events == w.Seen().events
  {
    SampleSeen(w.(sda := level));
  }

  lemma SetSclHigh(w: Wire, slave: Slave, phase: Phase, bits: seq<bool>)
    requires w.Low(phase, bits)
    ensures var r := w.SetScl(slave, true);
      && r.Settled() && r.Seen() == w.Seen().(line := r.Level(), armed := true)
      && r.scl && r.sda == w.sda && r.drive == w.drive && !r.held
  {
    SampleSeen(w.(scl := true));
  }

  lemma SetSclLow(w: Wire, slave: Slave)
    requires w.Settled() && w.scl && !w.held
    ensures var o := Observe(w.Seen(), Line(w.sda && w.drive, false));
      var r := w.SetScl(slave, false);
      && r.Settled() && !r.scl && r.sda == w.sda && !r.held && r.drive == Drive(slave, o)
      && r.Seen() == o.(line := r.Level())
  {
    var v := w.(scl := false);
    SampleSeen(v);
    var u := v.Sample();
    SampleSeen(u.(drive := Drive(slave, u.Seen())));
  }

  /** One clock pulse transfers the bit that is on SDA. */
  lemma Pulse(w: Wire, slave: Slave, phase: Phase, bits: seq<bool>)
    requires w.Low(phase, bits) && phase != Idle && |bits| <= 8
    ensures var bit := w.sda && w.drive;
      var r := w.SetScl(slave, true).SetScl(slave, false);
      var o := Commit(w.Seen(), bit);
      && r.Low(o.phase, o.bits) && r.sda == w.sda
      && r.Seen().events == o.events
      && (!SlaveTurn(o.phase, o.bits) ==> r.drive)
      && (SlaveTurn(o.phase, o.bits) && AlwaysPullsLow(slave) ==> !r.drive)
  {
    SetSclHigh(w, slave, phase, bits);
    var h := w.SetScl(slave, true);
    SetSclLow(h, slave);
  }

  /** SDA falls while SCL is high: a START, after which the slave waits for the address. */
  lemma MakeStart(w: Wire, slave: Slave)
    requires w.Settled() && w.sda && w.scl && w.drive && !w.held && w.Seen().bits == []
    ensures var r := w.SetSda(slave, false).SetScl(slave, false);
      r.Low(Address, []) && r.drive && r.Seen().events == w.Seen().events + [Start]
  {
    SampleSeen(w.(sda := false));
    SetSclLow(w.SetSda(slave, false), slave);
  }

  /** SDA rises while SCL is high: a STOP, provided that the slave lets it rise. */
  lemma MakeStop(w: Wire, slave: Slave, phase: Phase)
    requires w.Low(phase, []) && phase != Idle
    ensures var r := w.SetSda(slave, false).SetScl(slave, true).SetSda(slave, true);
      if w.drive then r.Free() && r.Seen().events == w.Seen().events + [Stop] && !r.held
      else r.Hung() && r.Seen().events == w.Seen().events && !r.held
  {
    SetSdaLow(w, slave, false, phase, []);
    var a := w.SetSda(slave, false);
    SetSclHigh(a, slave, phase, []);
    var b := a.SetScl(slave, true);
    SampleSeen(b.(sda := true));
  }

  /** Setting released lines high again changes nothing. */
  lemma Release(w: Wire, slave: Slave)
    requires w.Settled() && w.sda && w.scl
    ensures var r := w.SetSda(slave, true).SetScl(slave, true);
      && r == w.(trace := r.trace) && r.Seen() == w.Seen()
  {
    SampleSeen(w);
    SampleSeen(w.Sample());
    assert w.(sda := true) == w && w.(scl := true) == w;
    assert w.SetSda(slave, true) == w.Sample();
  }
}
