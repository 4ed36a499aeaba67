/** Whole runs of database operations refine a finite map. */
module SimpleDbRuns {
  import opened Wrappers
  import opened Bytes
  import opened DbRecords
  import opened SimpleDb

  datatype Op =
    | WriteOp(entry: Record)
    | OverwriteOp(entry: Record)
    | DeleteOp(tag: seq<byte>)

  type Model = map<seq<byte>, Record>

  /** What an operation does to the map. */
  function Apply(m: Model, op: Op): Model {
    match op
    case WriteOp(r) => if r.tag in m then m else m[r.tag := r]
    case OverwriteOp(r) => m[r.tag := r]
    case DeleteOp(tag) => m - {tag}
  }

  function ApplyAll(m: Model, ops: seq<Op>): Model {
    if ops == [] then m else Apply(ApplyAll(m, ops[..|ops| - 1]), ops[|ops| - 1])
  }

  /** The result code of an operation. */
  function Code(m: Model, op: Op): DbError {
    match op
    case WriteOp(r) => if r.tag in m then DbTagExist else DbSuccess
    case OverwriteOp(_) => DbSuccess
    case DeleteOp(tag) => if tag in m then DbSuccess else DbTagNotFound
  }

  /** An entry of whole elements that a caller can hand over with a 16-bit element count. */
  predicate Storable(r: Record) {
    WellFormed(r) && |r.data| % Width(r.kind) == 0
  }

  /** Every entry with a tag can be written; one that is to be deleted or replaced has to delete cleanly. */
  predicate Sound(m: Model, op: Op) {
    match op
    case WriteOp(r) => Storable(r) && r.tag != []
    case OverwriteOp(r) => Storable(r) && r.tag != [] && (r.tag in m ==> DeletesCleanly(m[r.tag]))
    case DeleteOp(tag) => 0 !in tag && (tag in m ==> DeletesCleanly(m[tag]))
  }

  /** Each operation of the run is sound in the map that the earlier ones leave. */
  ghost predicate SoundRun(m: Model, ops: seq<Op>) {
    forall i | 0 <= i < |ops| :: Sound(ApplyAll(m, ops[..i]), ops[i])
  }

  lemma WholeElements(r: Record)
    requires Storable(r)
    ensures Elements(r) < 0x1_0000 && ByteCount(Elements(r), r.kind) == |r.data| && r.data[..|r.data|] == r.data
    ensures |r.data| == if r.kind == 4 then 4 * Elements(r) % 65536
                        else if r.kind == 2 then 2 * Elements(r) % 65536 else Elements(r)
  {
  }

  function Room(op: Op): nat {
    if op.DeleteOp? then 0 else |op.entry.tag| + 4 + |op.entry.data|
  }

  function RoomAll(ops: seq<Op>): nat {
    if ops == [] then 0 else RoomAll(ops[..|ops| - 1]) + Room(ops[|ops| - 1])
  }

  /** The records are the map. */
  ghost predicate Refines(rs: seq<Record>, m: Model) {
    forall tag :: Lookup(rs, tag) == if tag in m then Some(m[tag]) else None
  }

  /** Every record can be found, and the records are the map. */
  ghost predicate Stores(rs: seq<Record>, m: Model) {
    Orderly(rs) && Refines(rs, m)
  }

  lemma StoresAppended(rs: seq<Record>, m: Model, r: Record)
    requires Stores(rs, m) && r.tag !in m && r.tag != []
    ensures Stores(rs + [r], m[r.tag := r])
  {
    hide IndexOf, Lookup, Distinct, Sealed;
    assert Lookup(rs, r.tag) == None;
    OrderlyAppend(rs, r);
    forall tag ensures Lookup(rs + [r], tag) == if tag in m[r.tag := r] then Some(m[r.tag := r][tag]) else None {
      LookupAppended(rs, r, tag);
    }
  }

  lemma StoresForget(rs: seq<Record>, m: Model, tag: seq<byte>)
    requires Stores(rs, m)
    ensures Stores(Forget(rs, tag), m - {tag}) && Lookup(Forget(rs, tag), tag) == None
  {
    hide IndexOf, Lookup, Orderly;
    var k := IndexOf(rs, tag);
    LookupCases(rs, tag);
    if k < |rs| {
      OrderlyWithout(rs, k);
      forall t ensures Lookup(Without(rs, k), t) == if t in m - {tag} then Some((m - {tag})[t]) else None {
        LookupRemoved(rs, k, t);
      }
    } else {
      assert tag !in m;
      assert m - {tag} == m;
    }
  }

  lemma LookupCases(rs: seq<Record>, tag: seq<byte>)
    ensures IndexOf(rs, tag) < |rs| ==> Lookup(rs, tag) == Some(rs[IndexOf(rs, tag)])
    ensures IndexOf(rs, tag) == |rs| ==> Lookup(rs, tag) == None
  {
  }

  method RunOp(d: Database, op: Op, ghost rs: seq<Record>, ghost m: Model)
    returns (err: DbError, ghost after: seq<Record>)
    requires Represents(d.db[..], rs) && Stores(rs, m) && Sound(m, op)
    requires End(d.db[..]) + Room(op) <= d.db.Length < BLANK
    modifies d.db
    ensures Represents(d.db[..], after) && Stores(after, Apply(m, op))
    ensures End(d.db[..]) <= old(End(d.db[..])) + Room(op)
    ensures err == Code(m, op)
    ensures err == DbSuccess || old(d.Checked()) ==> d.Checked()
    ensures err != DbSuccess ==> Apply(m, op) == m && d.db[..] == old(d.db[..])
  {
    hide IndexOf, Encode, EncodeAll, UsedSize, Represents, Orderly, Width, ByteCount, Elements;
    PlaceBounds(d.db[..], rs, 0);
    match op {
      case WriteOp(r) =>
        WholeElements(r);
        assert Lookup(rs, r.tag).Some? <==> r.tag in m;
        err := d.Write(r.tag, r.data, Elements(r), r.kind, rs);
        if err == DbSuccess {
          StoresAppended(rs, m, r);
          after := rs + [r];
        } else {
          after := rs;
        }
      case OverwriteOp(r) =>
        WholeElements(r);
        StoresForget(rs, m, r.tag);
        err := d.Overwrite(r.tag, r.data, Elements(r), r.kind, rs);
        StoresAppended(Forget(rs, r.tag), m - {r.tag}, r);
        assert (m - {r.tag})[r.tag := r] == m[r.tag := r];
        after := Forget(rs, r.tag) + [r];
      case DeleteOp(tag) =>
        assert Lookup(rs, tag).Some? <==> tag in m;
        err := d.Delete(tag, rs);
        StoresForget(rs, m, tag);
        assert tag !in m ==> m - {tag} == m;
        after := Forget(rs, tag);
    }
  }

  /** Any run of sound operations on a buffer with room for them: every operation reports what the map
      says, the records are the map that the operations describe, and the header is valid from the first
      successful one on. */
  method RunOps(d: Database, ops: seq<Op>, ghost rs0: seq<Record>, ghost m: Model)
    returns (codes: seq<DbError>, ghost rs: seq<Record>)
    requires Represents(d.db[..], rs0) && Stores(rs0, m) && SoundRun(m, ops)
    requires End(d.db[..]) + RoomAll(ops) <= d.db.Length < BLANK
    modifies d.db
    ensures Represents(d.db[..], rs) && Stores(rs, ApplyAll(m, ops))
    ensures |codes| == |ops|
    ensures forall i | 0 <= i < |ops| :: codes[i] == Code(ApplyAll(m, ops[..i]), ops[i])
    ensures old(d.Checked()) || DbSuccess in codes ==> d.Checked()
  {
    hide Represents, Stores, Sound, End, Code, Database.Checked, ApplyAll, RoomAll;
    PlaceBounds(d.db[..], rs0, 0);
    codes, rs := [], rs0;
    NothingApplied(m, ops);
    for i := 0 to |ops|
      invariant Represents(d.db[..], rs) && Stores(rs, ApplyAll(m, ops[..i]))
      invariant d.db.Length >= HEADER && End(d.db[..]) + RoomAll(ops) <= d.db.Length + RoomAll(ops[..i])
      invariant |codes| == i && forall k | 0 <= k < i :: codes[k] == Code(ApplyAll(m, ops[..k]), ops[k])
      invariant old(d.Checked()) || DbSuccess in codes ==> d.Checked()
    {
      NextApplied(m, ops, i);
      RoomLeft(ops, i);
      var err;
      err, rs := RunOp(d, ops[i], rs, ApplyAll(m, ops[..i]));
      codes := codes + [err];
    }
    assert ops[..|ops|] == ops;
  }

  lemma NothingApplied(m: Model, ops: seq<Op>)
    ensures ApplyAll(m, ops[..0]) == m && RoomAll(ops[..0]) == 0
  {
  }

  lemma NextApplied(m: Model, ops: seq<Op>, i: nat)
    requires i < |ops|
    ensures ApplyAll(m, ops[..i + 1]) == Apply(ApplyAll(m, ops[..i]), ops[i])
  {
    assert ops[..i + 1][..i] == ops[..i];
  }

  /** db_validate after a run in which something was stored or deleted, from whatever header. */
  method RunAndValidate(d: Database, ops: seq<Op>, ghost rs0: seq<Record>, ghost m: Model)
    returns (verdict: DbError, ghost rs: seq<Record>)
    requires Represents(d.db[..], rs0) && Stores(rs0, m) && SoundRun(m, ops)
    requires End(d.db[..]) + RoomAll(ops) <= d.db.Length < BLANK
    requires exists i | 0 <= i < |ops| :: Code(ApplyAll(m, ops[..i]), ops[i]) == DbSuccess
    modifies d.db
    ensures verdict == if d.crc.None? then DbNoCrcFunc else DbSuccess
    ensures Represents(d.db[..], rs) && Stores(rs, ApplyAll(m, ops))
  {
    hide Represents, Stores, Sound, End, Code;
    var codes;
    codes, rs := RunOps(d, ops, rs0, m);
    ghost var i :| 0 <= i < |ops| && Code(ApplyAll(m, ops[..i]), ops[i]) == DbSuccess;
    assert codes[i] == DbSuccess;
    verdict := d.Validate();
  }

  lemma {:induction false} RoomLeft(ops: seq<Op>, i: nat)
    requires i < |ops|
    ensures RoomAll(ops[..i]) + Room(ops[i]) == RoomAll(ops[..i + 1]) <= RoomAll(ops)
    decreases |ops| - i
  {
    assert ops[..i + 1][..i] == ops[..i];
    if i + 1 < |ops| {
      RoomLeft(ops, i + 1);
    } else {
      assert ops[..i + 1] == ops;
    }
  }

  /** An entry of `count` elements can be read back after it was written exactly if no empty tag was there
      before it; it is reported with as many elements exactly if its bytes can be counted in 16 bits. */
  method WriteThenRead(d: Database, tag: seq<byte>, kind: byte, data: seq<byte>, count: u16, ghost rs: seq<Record>)
    returns (back: seq<byte>, size: nat)
    requires Represents(d.db[..], rs) && Lookup(rs, tag) == None && |tag| < 0x1_0000 && 0 !in tag
    requires ByteCount(count, kind) <= |data|
    requires End(d.db[..]) + |tag| + 4 + ByteCount(count, kind) <= d.db.Length < BLANK
    modifies d.db
    ensures d.Checked()
    ensures !Sealed(rs) ==>
      var bytes := if kind == 4 then 4 * count else if kind == 2 then 2 * count else count;
      && bytes % 65536 <= |data| && back == data[..bytes % 65536]
      && (size == count <==> bytes < 65536)
    ensures Sealed(rs) ==> back == [] && size == 0
  {
    hide Represents, EncodeAll, Encode, UsedSize, End, IndexOf, Lookup, Sealed, Width, ByteCount;
    ByteCountIs(count, kind);
    PlaceBounds(d.db[..], rs, 0);
    ghost var r := Record(tag, kind, data[..ByteCount(count, kind)]);
    LookupAppended(rs, r, tag);
    var _ := d.Write(tag, data, count, kind, rs);
    back, size := d.Read(tag, rs + [r]);
    CountKept(count, kind);
  }

  lemma CountKept(count: u16, kind: byte)
    ensures var bytes := if kind == 4 then 4 * count else if kind == 2 then 2 * count else count;
      var n := bytes % 65536;
      (if kind == 4 then n / 4 else if kind == 2 then n / 2 else n) == count <==> bytes < 65536
  {
  }

  /** Deleting an entry right after it was written gives all its bytes back exactly when it deletes
      cleanly: one 16-bit value under a one-letter tag leaves a stray byte behind. */
  method WriteThenDelete(d: Database, r: Record, ghost rs: seq<Record>)
    requires Represents(d.db[..], rs) && !Sealed(rs) && Lookup(rs, r.tag) == None && Storable(r)
    requires End(d.db[..]) + |r.tag| + 4 + |r.data| <= d.db.Length < BLANK
    modifies d.db
    ensures d.Checked() && End(d.db[..]) >= old(End(d.db[..]))
    ensures Represents(d.db[..], rs) <==> DeletesCleanly(r)
    ensures End(d.db[..]) == old(End(d.db[..])) <==> DeletesCleanly(r)
    ensures r == Record([0x61], DB_16B, [1, 0]) ==> End(d.db[..]) == old(End(d.db[..])) + 1
  {
    hide Represents, EncodeAll, Encode, UsedSize, End, IndexOf, Lookup, Sealed, Width, ByteCount, Elements;
    hide DeletedBytes, DeletesCleanly;
    PlaceBounds(d.db[..], rs, 0);
    WholeElements(r);
    DeletedBytesExact(r);
    OneShort(r);
    var _ := d.Write(r.tag, r.data, Elements(r), r.kind, rs);
    PlaceBounds(d.db[..], rs + [r], 0);
    LastRecord(rs, r);
    var _ := d.Delete(r.tag, rs + [r]);
  }

  lemma OneShort(r: Record)
    ensures r == Record([0x61], DB_16B, [1, 0]) ==> DeletedBytes(r) == 6
  {
  }

  lemma LastRecord(rs: seq<Record>, r: Record)
    requires !Sealed(rs) && Lookup(rs, r.tag) == None
    ensures IndexOf(rs + [r], r.tag) == |rs| && Lookup(rs + [r], r.tag) == Some(r)
    ensures Without(rs + [r], |rs|) == rs
  {
    LookupAppended(rs, r, r.tag);
    FindsFirst(rs, r.tag);
  }
}
