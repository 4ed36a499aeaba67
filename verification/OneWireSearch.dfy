/** The SEARCH ROM procedure of DS18B20_Multi::SearchSensors on a wired-AND bus
    (Maxim Application Note 187), for marker words of any width. */
module OneWireSearch {
  import opened Words
  import opened RomOrder
  import opened SearchMarkers

  datatype Result = Success | NoDevice | CrcMissmatch | NotReady | NotAllDevicesFound

  const SEARCH_ROM: bv8 := 0xF0

  // ----- storing the bits of a ROM

  /** 1 << k in a byte. */
  function Mask(k: nat): bv8
    requires k < 8
  {
    if k == 0 then 1 else Mask(k - 1) << 1
  }

  /** Byte b of a ROM after its lowest n bits have been set one at a time. */
  function PackByte(rom: Rom, b: nat, n: nat): bv8
    requires b < 8 && n <= 8
  {
    if n == 0 then 0
    else PackByte(rom, b, n - 1) | (if rom[8 * b + n - 1] then Mask(n - 1) else 0)
  }

  lemma PackNone(rom: Rom, b: nat)
    requires b < 8
    ensures PackByte(rom, b, 0) == 0
  {
  }

  function Pack(rom: Rom): (r: seq<bv8>)
    ensures |r| == 8
  {
    seq(8, b requires 0 <= b < 8 => PackByte(rom, b, 8))
  }

  lemma MaskValues()
    ensures Mask(0) == 1 && Mask(1) == 2 && Mask(2) == 4 && Mask(3) == 8
    ensures Mask(4) == 16 && Mask(5) == 32 && Mask(6) == 64 && Mask(7) == 128
  {
    assert Mask(3) == 8;
    assert Mask(5) == 32;
  }

  lemma {:induction false} PackByteBits(rom: Rom, b: nat, n: nat, k: nat)
    requires b < 8 && n <= 8 && k < 8
    ensures (PackByte(rom, b, n) & Mask(k) != 0) == (k < n && rom[8 * b + k])
  {
    if n > 0 {
      PackByteBits(rom, b, n - 1, k);
      OrThenAnd(PackByte(rom, b, n - 1), Mask(n - 1), Mask(k));
      MasksDisjoint(n - 1, k);
    }
  }

  lemma OrThenAnd(a: bv8, b: bv8, m: bv8)
    ensures (a | b) & m == (a & m) | (b & m)
    ensures a | 0 == a && (a & m) | 0 == a & m && 0 | (b & m) == b & m
  {
  }

  lemma MasksDisjoint(n: nat, k: nat)
    requires n < 8 && k < 8
    ensures Mask(n) & Mask(k) == if n == k then Mask(n) else 0
    ensures Mask(n) != 0
  {
    MaskValues();
  }

  /** The stored bytes determine the ROM. */
  lemma PackInjective(a: Rom, b: Rom)
    requires Pack(a) == Pack(b)
    ensures a == b
  {
    hide PackByte, Mask;
    forall i | 0 <= i < ROM_BITS ensures a[i] == b[i] {
      assert Pack(a)[i / 8] == Pack(b)[i / 8];
      PackByteBits(a, i / 8, 8, i % 8);
      PackByteBits(b, i / 8, 8, i % 8);
    }
  }

  // ----- the bus

  /** The level of the line while the selected devices drive bit i, or its complement. */
  predicate WiredAnd(selected: set<Rom>, i: nat, complement: bool)
    requires i < ROM_BITS
  {
    forall d | d in selected :: d[i] != complement
  }

  lemma WiredAndShows(selected: set<Rom>, i: nat, t: Rom)
    requires i < ROM_BITS && t in selected
    ensures Collide(selected, i) <==> !WiredAnd(selected, i, false) && !WiredAnd(selected, i, true)
    ensures !Collide(selected, i) ==> WiredAnd(selected, i, false) == t[i]
  {
  }

  /** Open-drain bus. Between two WriteBit calls every selected device drives its next address
      bit and then the complement of it; the line reads as the AND of all drivers. */
  class OneWireBus {
    const devices: set<Rom>
    var selected: set<Rom>
    var depth: nat
    var complement: bool
    var searching: bool

    constructor (devices: set<Rom>)
      ensures this.devices == devices && !searching
    {
      this.devices := devices;
      selected, depth, complement, searching := {}, 0, false, false;
    }

    method Reset() returns (res: Result)
      modifies this
      ensures res == if devices == {} then NoDevice else Success
      ensures selected == devices && depth == 0 && !complement && !searching
    {
      selected, depth, complement, searching := devices, 0, false, false;
      res := if devices == {} then NoDevice else Success;
    }

    method Write(command: bv8)
      modifies `searching
      ensures searching <==> command == 0xF0
    {
      searching := command == 0xF0;
    }

    method ReadBit() returns (bit: bool)
      requires searching && depth < ROM_BITS
      modifies `complement
      ensures complement == !old(complement)
      ensures bit == WiredAnd(selected, depth, old(complement))
    {
      bit := WiredAnd(selected, depth, complement);
      complement := !complement;
    }

    method WriteBit(bit: bool)
      requires searching && depth < ROM_BITS && !complement
      modifies `selected, `depth
      ensures selected == Narrow(old(selected), old(depth), bit)
      ensures depth == old(depth) + 1
    {
      selected := Narrow(selected, depth, bit);
      depth := depth + 1;
    }
  }

  // ----- the driver

  class DS18B20Multi {
    const bus: OneWireBus
    const maxDevices: nat
    const wordBits: nat
    const serialNumber: array2<bv8>

    constructor (bus: OneWireBus, maxDevices: nat, wordBits: nat)
      requires wordBits >= 1
      ensures this.bus == bus && this.maxDevices == maxDevices && this.wordBits == wordBits
      ensures Valid() && fresh(serialNumber)
    {
      this.bus, this.maxDevices, this.wordBits := bus, maxDevices, wordBits;
      serialNumber := new bv8[maxDevices, 8];
    }

    predicate Valid() {
      serialNumber.Length0 == maxDevices && serialNumber.Length1 == 8 && wordBits >= 1
    }

    /** Reads one address bit and its complement, and settles which way to go. */
    method FollowBit(path: nat, next0: nat, pos0: nat, ghost t: Rom) returns (bit: bool, next: nat, pos: nat)
      requires bus.depth < ROM_BITS && MidPass(t, path, bus.depth, next0, pos0)
      modifies bus
      ensures bit == t[old(bus.depth)]
      ensures MidPass(t, path, old(bus.depth) + 1, next, pos)
    {
      ghost var i, group := bus.depth, bus.selected;
      WholeGroup(bus.devices, t, i);
      next, pos := next0, pos0;
      bit := bus.ReadBit();
      var chk := bus.ReadBit();
      WiredAndShows(group, i, t);
      if !bit && !chk {
        CollisionBit(bus.devices, group, t, i, path, wordBits, next, pos);
        if And(pos, path) != 0 {
          bit := true;
        } else {
          next := Or(And(path, Decrement(pos, wordBits)), pos);
        }
        pos := ShiftLeft(pos, wordBits);
      } else {
        QuietBit(bus.devices, group, t, i, path, wordBits, next, pos);
      }
      bus.WriteBit(bit);
    }

    /** What holds between the bits of a pass that follows `path` to the ROM t. */
    ghost predicate MidPass(t: Rom, path: nat, i: nat, next: nat, pos: nat)
      reads bus
    {
      && bus.depth == i && (i < ROM_BITS ==> bus.searching && !bus.complement)
      && Underway(bus.devices, bus.selected, t, i, path, wordBits, next, pos)
    }

    lemma DepthOf(t: Rom, path: nat, i: nat, next: nat, pos: nat)
      requires MidPass(t, path, i, next, pos)
      ensures bus.depth == i
    {
    }

    /** Sets bit cntBit of the byte being collected, if the address bit is 1. */
    method StoreBit(row: nat, cntByte: nat, cntBit: nat, bit: bool, ghost t: Rom)
      requires Valid() && row < maxDevices && cntByte < 8 && cntBit < 8 && bit == t[8 * cntByte + cntBit]
      requires serialNumber[row, cntByte] == PackByte(t, cntByte, cntBit)
      modifies serialNumber
      ensures serialNumber[row, cntByte] == PackByte(t, cntByte, cntBit + 1)
      ensures forall k, b | 0 <= k < maxDevices && 0 <= b < 8 && (k != row || b != cntByte) ::
        serialNumber[k, b] == old(serialNumber[k, b])
    {
      OrThenAnd(serialNumber[row, cntByte], 0, 0);
      if bit {
        serialNumber[row, cntByte] := serialNumber[row, cntByte] | Mask(cntBit);
      }
    }

    /** The inner loop: collects one byte of the ROM. */
    method SearchByte(row: nat, cntByte: nat, path: nat, next0: nat, pos0: nat, ghost t: Rom)
      returns (next: nat, pos: nat)
      requires Valid() && row < maxDevices && cntByte < 8
      requires MidPass(t, path, 8 * cntByte, next0, pos0)
      modifies bus, serialNumber
      ensures MidPass(t, path, 8 * cntByte + 8, next, pos)
      ensures serialNumber[row, cntByte] == PackByte(t, cntByte, 8)
      ensures forall k, b | 0 <= k < maxDevices && 0 <= b < 8 && (k != row || b != cntByte) ::
        serialNumber[k, b] == old(serialNumber[k, b])
    {
      hide DS18B20Multi.MidPass, PackByte, Mask;
      PackNone(t, cntByte);
      DepthOf(t, path, 8 * cntByte, next0, pos0);
      next, pos := next0, pos0;
      serialNumber[row, cntByte] := 0;
      for cntBit := 0 to 8
        invariant MidPass(t, path, 8 * cntByte + cntBit, next, pos) && bus.depth == 8 * cntByte + cntBit
        invariant serialNumber[row, cntByte] == PackByte(t, cntByte, cntBit)
        invariant forall k, b | 0 <= k < maxDevices && 0 <= b < 8 && (k != row || b != cntByte) ::
          serialNumber[k, b] == old(serialNumber[k, b])
      {
        var bit;
        bit, next, pos := FollowBit(path, next, pos, t);
        DepthOf(t, path, 8 * cntByte + cntBit + 1, next, pos);
        StoreBit(row, cntByte, cntBit, bit, t);
      }
    }

    /** One pass: reset, SEARCH ROM, then the 64 address bits of the ROM stored in row `row`. */
    method SearchPass(row: nat, path: nat, ghost t: Rom) returns (res: Result, next: nat)
      requires Valid() && row < maxDevices && path < Pow2(wordBits)
      requires bus.devices != {} ==> t in bus.devices && Encodes(path, Decisions(bus.devices, t, ROM_BITS))
      modifies bus, serialNumber
      ensures res == if bus.devices == {} then NoDevice else Success
      ensures res == Success ==> bus.selected == {t} && NextWord(bus.devices, t, ROM_BITS, path, wordBits, next)
      ensures res == Success ==> forall b | 0 <= b < 8 :: serialNumber[row, b] == Pack(t)[b]
      ensures forall k, b | 0 <= k < maxDevices && 0 <= b < 8 && (res != Success || k != row) ::
        serialNumber[k, b] == old(serialNumber[k, b])
    {
      next := 0;
      res := bus.Reset();
      if res != Success {
        return;
      }
      bus.Write(SEARCH_ROM);
      var pos := 1;
      assert Group(bus.devices, t[..0]) == bus.devices;
      ZeroEncodes([]);
      for cntByte := 0 to 8
        invariant MidPass(t, path, 8 * cntByte, next, pos)
        invariant forall b | 0 <= b < cntByte :: serialNumber[row, b] == Pack(t)[b]
        invariant forall k, b | 0 <= k < maxDevices && 0 <= b < 8 && k != row ::
          serialNumber[k, b] == old(serialNumber[k, b])
      {
        next, pos := SearchByte(row, cntByte, path, next, pos, t);
      }
      WholePrefix(bus.devices, t);
    }

    /** Finds the devices on the bus. `found` is what the source stores through devices_found. */
    method SearchSensors(ghost r: seq<Rom>) returns (res: Result, found: nat)
      requires Lists(bus.devices, r)
      requires Valid() && 1 <= maxDevices <= 255
      modifies bus, serialNumber
      ensures bus.devices == {} ==> res == NoDevice && found == 0
      ensures bus.devices != {} ==>
        var result := SearchResult(bus.devices, r, wordBits, maxDevices);
        && found == |result| <= maxDevices
        && (forall k, b | 0 <= k < found && 0 <= b < 8 :: serialNumber[k, b] == Pack(result[k])[b])
        && res == (if found == maxDevices then Success else NotAllDevicesFound)
        && (result == Promised(r, maxDevices) <==> MarkersSuffice(bus.devices, r, wordBits, maxDevices))
      ensures forall k, b | found <= k < maxDevices && 0 <= b < 8 :: serialNumber[k, b] == old(serialNumber[k, b])
    {
      hide Promised, MarkersSuffice, Encodes, Decisions, Stuck, Visited, Passes, NextWord, Pow2, PackByte, Pack;
      ghost var devices := bus.devices;
      var path: nat := 0;
      found := 0;
      if bus.devices != {} {
        FirstPass(devices, r, wordBits, maxDevices);
        SearchExact(devices, r, wordBits, maxDevices);
      }
      while true
        invariant found < maxDevices && devices == bus.devices && path < Pow2(wordBits)
        invariant devices != {} ==> OnTrack(devices, r, wordBits, maxDevices, found, path)
        invariant devices != {} ==> forall k, b | 0 <= k < found && 0 <= b < 8 ::
          serialNumber[k, b] == Pack(Visited(devices, r, wordBits, k))[b]
        invariant devices == {} ==> found == 0
        invariant forall k, b | found <= k < maxDevices && 0 <= b < 8 :: serialNumber[k, b] == old(serialNumber[k, b])
        decreases maxDevices - found
      {
        var next;
        ghost var t := if devices == {} then ZeroRom() else Visited(devices, r, wordBits, found);
        res, next := SearchPass(found, path, t);
        if res != Success {
          return;
        }
        PassAdvances(devices, r, wordBits, maxDevices, found, path, next);
        path := next;
        found := found + 1;
        if found == maxDevices || path == 0 {
          break;
        }
      }
      res := if found == maxDevices then Success else NotAllDevicesFound;
    }
  }
}
