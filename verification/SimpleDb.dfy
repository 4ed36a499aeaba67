/** The tagged database of Common/simple_db.c, working in place on a byte buffer. */
module SimpleDb {
  import opened Wrappers
  import opened Bytes
  import opened DbRecords

  datatype DbError = DbSuccess | DbWrongCrc | DbTagNotFound | DbTagExist | DbNoCrcFunc

  const DB_16B: byte := 2
  const DB_32B: byte := 4
  const DB_TYPE_ERROR: byte := 5

  /** Bytes per element of a type. */
  function Width(kind: byte): nat {
    if kind == DB_16B then 2 else if kind == DB_32B then 4 else 1
  }

  /** `datasize * width` in a 16-bit variable. */
  function ByteCount(count: u16, kind: byte): u16 {
    count * Width(kind) % 0x1_0000
  }

  lemma ByteCountIs(count: u16, kind: byte)
    ensures ByteCount(count, kind)
      == if kind == 4 then 4 * count % 65536 else if kind == 2 then 2 * count % 65536 else count
  {
  }

  ghost function Without(rs: seq<Record>, k: nat): seq<Record>
    requires k < |rs|
  {
    rs[..k] + rs[k + 1..]
  }

  /** The header is rewritten; everything after it stays. */
  ghost predicate HeaderUpdated(after: seq<byte>, before: seq<byte>, size: nat) {
    |after| == |before| >= HEADER && after[HEADER..] == before[HEADER..] && Le32(after, 0) == size
  }

  // ----- what the operations do to the records

  lemma EndUpdated(after: seq<byte>, before: seq<byte>, size: nat)
    requires HeaderUpdated(after, before, size) && HEADER <= size < BLANK
    ensures End(after) == size
  {
  }

  lemma Appended(b: seq<byte>, rs: seq<Record>, r: Record, c: seq<byte>)
    requires Represents(b, rs) && WellFormed(r)
    requires End(b) + |Encode(r)| <= |b| && End(b) + |Encode(r)| < BLANK
    requires HeaderUpdated(c, Put(b, End(b), Encode(r)), End(b) + |Encode(r)|)
    ensures Represents(c, rs + [r])
  {
    hide Encode, EncodeAll, WellFormed, UsedSize;
    EncodeAllJoin(rs, [r]);
    EncodeOne(r);
    EndUpdated(c, Put(b, End(b), Encode(r)), End(b) + |Encode(r)|);
    PutAppends(b, HEADER, End(b), Encode(r), c);
  }

  /** Removing exactly the bytes of record k removes the record. */
  lemma Removed(b: seq<byte>, rs: seq<Record>, k: nat, c: seq<byte>)
    requires Represents(b, rs) && k < |rs|
    requires Place(rs, k) <= Place(rs, k + 1) <= End(b) <= |b|
    requires HeaderUpdated(c, Put(b, Place(rs, k), b[Place(rs, k + 1)..End(b)]), End(b) - |Encode(rs[k])|)
    requires End(b) < BLANK
    ensures Represents(c, Without(rs, k))
  {
    hide Encode, EncodeAll, WellFormed, UsedSize;
    SplitAtRecord(rs, k);
    EncodeAllJoin(rs[..k], rs[k + 1..]);
    var p, q, size := Place(rs, k), Place(rs, k + 1), End(b);
    EndUpdated(c, Put(b, p, b[q..size]), size - |Encode(rs[k])|);
    RemovedBytes(b, p, q, size, c);
    SlicesOf(b, size, EncodeAll(rs[..k]), Encode(rs[k]), EncodeAll(rs[k + 1..]));
  }

  lemma SlicesOf(b: seq<byte>, size: nat, pre: seq<byte>, mid: seq<byte>, post: seq<byte>)
    requires HEADER <= size <= |b| && b[HEADER..size] == pre + mid + post
    ensures b[HEADER..HEADER + |pre|] == pre
    ensures b[HEADER + |pre| + |mid|..size] == post
  {
    var all := b[HEADER..size];
    assert b[HEADER..HEADER + |pre|] == all[..|pre|];
    assert b[HEADER + |pre| + |mid|..size] == all[|pre| + |mid|..];
  }

  lemma RemovedBytes(b: seq<byte>, p: nat, q: nat, size: nat, c: seq<byte>)
    requires HEADER <= p <= q <= size <= |b|
    requires HeaderUpdated(c, Put(b, p, b[q..size]), size - (q - p))
    ensures c[HEADER..size - (q - p)] == b[HEADER..p] + b[q..size]
  {
    var d, n := Put(b, p, b[q..size]), size - (q - p);
    assert c[HEADER..n] == c[HEADER..][..n - HEADER] == d[HEADER..][..n - HEADER] == d[HEADER..n];
  }

  // ----- the records as a map from tags

  /** What a search for the tag finds. */
  ghost function Lookup(rs: seq<Record>, tag: seq<byte>): Option<Record> {
    if IndexOf(rs, tag) < |rs| then Some(rs[IndexOf(rs, tag)]) else None
  }

  lemma LookupFront(rs: seq<Record>, tag: seq<byte>)
    ensures rs == [] ==> Lookup(rs, tag) == None
    ensures rs != [] ==>
      Lookup(rs, tag) == if rs[0].tag == tag then Some(rs[0])
                         else if rs[0].tag == [] then None else Lookup(rs[1..], tag)
  {
  }

  lemma SealedFront(rs: seq<Record>)
    requires rs != []
    ensures Sealed(rs) <==> rs[0].tag == [] || Sealed(rs[1..])
  {
    if Sealed(rs[1..]) {
      var i :| 0 <= i < |rs[1..]| && rs[1..][i].tag == [];
      assert rs[i + 1].tag == [];
    }
    if Sealed(rs) && rs[0].tag != [] {
      var i :| 0 <= i < |rs| && rs[i].tag == [];
      assert rs[1..][i - 1].tag == [];
    }
  }

  /** A record with a new tag is found from now on exactly if no empty tag comes before it; no other
      tag is affected. */
  lemma {:induction false} LookupAppended(rs: seq<Record>, r: Record, tag: seq<byte>)
    requires Lookup(rs, r.tag) == None
    ensures Lookup(rs + [r], tag) == if tag == r.tag && !Sealed(rs) then Some(r) else Lookup(rs, tag)
  {
    hide IndexOf, Lookup, Sealed;
    var all := rs + [r];
    LookupFront(all, tag);
    LookupFront(rs, tag);
    LookupFront(rs, r.tag);
    if rs == [] {
      assert all[1..] == [] && !Sealed(rs) by { NothingSealed(); }
      LookupFront([], tag);
    } else {
      SealedFront(rs);
      assert all[1..] == rs[1..] + [r] && all[0] == rs[0];
      if rs[0].tag != [] {
        LookupAppended(rs[1..], r, tag);
      }
    }
  }

  lemma NothingSealed()
    ensures !Sealed([])
  {
  }

  lemma LookupNone(rs: seq<Record>, tag: seq<byte>)
    requires forall i | 0 <= i < |rs| :: rs[i].tag != tag
    ensures Lookup(rs, tag) == None
  {
  }

  lemma OrderlyRest(rs: seq<Record>)
    requires Orderly(rs) && rs != []
    ensures Orderly(rs[1..]) && rs[0].tag != []
  {
    SealedFront(rs);
  }

  /** Removing a record changes its tag only. */
  lemma {:induction false} LookupRemoved(rs: seq<Record>, k: nat, tag: seq<byte>)
    requires Orderly(rs) && k < |rs|
    ensures Lookup(Without(rs, k), tag) == if tag == rs[k].tag then None else Lookup(rs, tag)
  {
    hide IndexOf, Lookup, Sealed;
    var rest := Without(rs, k);
    OrderlyRest(rs);
    LookupFront(rs, tag);
    LookupFront(rest, tag);
    if k == 0 {
      assert rest == rs[1..];
      if tag == rs[0].tag { LookupNone(rest, tag); }
    } else {
      assert rest[0] == rs[0] && rest[1..] == Without(rs[1..], k - 1) && rs[k] == rs[1..][k - 1];
      LookupRemoved(rs[1..], k - 1, tag);
    }
  }

  lemma OrderlyAppend(rs: seq<Record>, r: Record)
    requires Orderly(rs) && Lookup(rs, r.tag) == None && r.tag != []
    ensures Orderly(rs + [r])
  {
    FindsFirst(rs, r.tag);
  }

  lemma OrderlyWithout(rs: seq<Record>, k: nat)
    requires Orderly(rs) && k < |rs|
    ensures Orderly(Without(rs, k))
  {
  }

  // ----- deletion

  /** The 16-bit number of bytes that deletion takes out: it counts elements, not bytes. */
  function DeletedBytes(r: Record): u16 {
    (|r.data| / Width(r.kind) + |r.tag| + 4) % 0x1_0000
  }

  lemma DeletedBytesIs(r: Record)
    ensures DeletedBytes(r) == ((if r.kind == 4 then |r.data| / 4 else if r.kind == 2 then |r.data| / 2 else |r.data|)
                                + |r.tag| + 4) % 0x1_0000
  {
  }

  predicate DeletesCleanly(r: Record) {
    (Width(r.kind) == 1 || r.data == []) && |r.data| + |r.tag| + 4 < 0x1_0000
  }

  lemma DeletedBytesExact(r: Record)
    requires WellFormed(r)
    ensures DeletedBytes(r) <= |Encode(r)|
    ensures DeletedBytes(r) == |Encode(r)| <==> DeletesCleanly(r)
  {
    hide Encode;
    var n, w, d := |r.data|, Width(r.kind), |r.data| / Width(r.kind);
    assert d <= n && (d == n <==> w == 1 || n == 0);
    var sum := d + |r.tag| + 4;
    assert sum % 0x1_0000 <= sum;
    assert sum >= 0x1_0000 ==> sum % 0x1_0000 < sum;
  }

  type Crc = seq<byte> -> u32

  class Database {
    const db: array<byte>
    const crc: Option<Crc>

    constructor (db: array<byte>, crc: Option<Crc>)
      ensures this.db == db && this.crc == crc
    {
      this.db, this.crc := db, crc;
    }

    /** The header holds a used size, and the checksum in it is that of the records. */
    ghost predicate Checked()
      reads db
    {
      && db.Length >= 8 && 8 <= UsedSize(db[..]) <= db.Length
      && (crc.Some? ==> Le32(db[..], 4) == crc.value(db[8..UsedSize(db[..])]))
    }

    method UpdateDb(size: u32)
      requires HEADER <= size <= db.Length && size < BLANK
      modifies db
      ensures HeaderUpdated(db[..], old(db[..]), size) && Checked() && End(db[..]) == size
    {
      ghost var before := db[..];
      Copy(db, 0, ToLe32(size));
      ghost var sized := db[..];
      assert sized[0..4] == ToLe32(size);
      Le32Of(sized, 0, size);
      assert sized[HEADER..] == before[HEADER..];
      if crc.Some? {
        var sum := crc.value(db[HEADER..size]);
        Copy(db, 4, ToLe32(sum));
        assert db[..][4..8] == ToLe32(sum);
        Le32Of(db[..], 4, sum);
        assert db[..][0..4] == ToLe32(size);
        Le32Of(db[..], 0, size);
        assert db[..][HEADER..] == sized[HEADER..];
        assert db[HEADER..size] == sized[HEADER..size];
      }
      EndUpdated(db[..], before, size);
    }

    /** The position of the record with this tag, or 0, and the number of records looked at. */
    method FindData(tag: seq<byte>, ghost rs: seq<Record>) returns (pointer: nat, tags: nat)
      requires 0 !in tag && Represents(db[..], rs)
      ensures pointer == Found(rs, tag)
      ensures tags == Looked(rs, tag)
    {
      hide Represents, Encode, EncodeAll, UsedSize, StringAt, Place, End, IndexOf, Looked;
      PlaceBounds(db[..], rs, 0);
      SearchEnds(rs, tag);
      var dbsize := UsedSize(db[..]);
      pointer, tags := HEADER, 0;
      if dbsize <= pointer {
        return 0, 0;
      }
      ghost var k := 0;
      while true
        invariant 0 <= k < |rs| && pointer == Place(rs, k) && tags == k
        invariant IndexOf(rs, tag) == k + IndexOf(rs[k..], tag)
        invariant Looked(rs, tag) == k + Looked(rs[k..], tag)
        decreases |rs| - k
      {
        tags := tags + 1;
        NextRecord(db[..], rs, k);
        PlaceBounds(db[..], rs, k + 1);
        SearchStep(rs, tag, k);
        if tag == StringAt(db[..], pointer) {
          return;
        }
        var tagSize := |StringAt(db[..], pointer)| % 0x1_0000;
        pointer := pointer + tagSize + 2;
        var low: int := db[pointer];
        pointer := pointer + 1;
        var high: int := db[pointer];
        pointer := pointer + 1;
        pointer := pointer + low + 0x100 * high;
        k := k + 1;
        if tagSize == 0 || pointer >= dbsize {
          return 0, tags;
        }
      }
    }

    /** Where the record with this tag is, and its type and size in bytes. */
    method Locate(tag: seq<byte>, ghost rs: seq<Record>) returns (pointer: nat, kind: byte, size: u16)
      requires 0 !in tag && Represents(db[..], rs)
      ensures pointer == Found(rs, tag)
      ensures pointer != 0 <==> IndexOf(rs, tag) < |rs|
      ensures pointer != 0 ==> kind == rs[IndexOf(rs, tag)].kind && size == |rs[IndexOf(rs, tag)].data|
    {
      hide Represents, Encode, EncodeAll, UsedSize, StringAt, Place, End, IndexOf;
      var found, _ := FindData(tag, rs);
      pointer := found;
      PlaceBounds(db[..], rs, 0);
      kind, size := 0, 0;
      if IndexOf(rs, tag) < |rs| { FoundRecord(db[..], rs, IndexOf(rs, tag)); }
      if pointer != 0 {
        var p := pointer + |tag| + 1;
        kind := db[p];
        var low: int, high: int := db[p + 1], db[p + 2];
        size := low + 0x100 * high;
      }
    }

    /** The bytes stored under a tag, and their number in elements; 0 when there is none. */
    method Read(tag: seq<byte>, ghost rs: seq<Record>) returns (data: seq<byte>, size: nat)
      requires 0 !in tag && Represents(db[..], rs)
      ensures Lookup(rs, tag) == None ==> data == [] && size == 0
      ensures Lookup(rs, tag).Some? ==>
        var r := Lookup(rs, tag).value;
        && data == r.data
        && size == if r.kind == 4 then |r.data| / 4 else if r.kind == 2 then |r.data| / 2 else |r.data|
    {
      hide Represents, Encode, EncodeAll, UsedSize, StringAt, Place, End, IndexOf;
      var pointer, kind, n := Locate(tag, rs);
      if pointer == 0 {
        return [], 0;
      }
      PlaceBounds(db[..], rs, 0);
      FoundRecord(db[..], rs, IndexOf(rs, tag));
      data := db[pointer + |tag| + 4..pointer + |tag| + 4 + n];
      size := n / Width(kind);
    }

    method GetType(tag: seq<byte>, ghost rs: seq<Record>) returns (kind: byte)
      requires 0 !in tag && Represents(db[..], rs)
      ensures kind == if Lookup(rs, tag).Some? then Lookup(rs, tag).value.kind else 5
    {
      var pointer, k, n := Locate(tag, rs);
      kind := if pointer == 0 then DB_TYPE_ERROR else k;
    }

    method GetEntrySize(tag: seq<byte>, ghost rs: seq<Record>) returns (size: nat)
      requires 0 !in tag && Represents(db[..], rs)
      ensures Lookup(rs, tag) == None ==> size == 0
      ensures Lookup(rs, tag).Some? ==>
        var r := Lookup(rs, tag).value;
        size == if r.kind == 4 then |r.data| / 4 else if r.kind == 2 then |r.data| / 2 else |r.data|
    {
      var pointer, kind, n := Locate(tag, rs);
      size := if pointer == 0 then 0 else n / Width(kind);
    }

    /** The tag count; it stops at a record with an empty tag or with the probe tag "DEADBEEF". */
    method GetNofTags(ghost rs: seq<Record>) returns (tags: u16)
      requires Represents(db[..], rs)
      ensures tags == Looked(rs, [0x44, 0x45, 0x41, 0x44, 0x42, 0x45, 0x45, 0x46]) % 0x1_0000
    {
      var _, n := FindData(PROBE, rs);
      tags := n % 0x1_0000;
    }

    method Validate() returns (err: DbError)
      requires crc.Some? ==> db.Length >= HEADER && HEADER <= UsedSize(db[..]) <= db.Length
      ensures err == DbNoCrcFunc <==> crc.None?
      ensures err == DbSuccess <==> crc.Some? && Checked()
      ensures err == DbWrongCrc <==> crc.Some? && !Checked()
    {
      if crc.None? {
        return DbNoCrcFunc;
      }
      return if Le32(db[..], 4) == crc.value(db[HEADER..UsedSize(db[..])]) then DbSuccess else DbWrongCrc;
    }

    /** Copies one more piece behind what was written from position `at` on. */
    method CopyNext(pointer: nat, piece: seq<byte>, ghost b: seq<byte>, ghost at: nat, ghost written: seq<byte>)
      requires pointer == at + |written| && pointer + |piece| <= db.Length == |b|
      requires db[..] == Put(b, at, written)
      modifies db
      ensures db[..] == Put(b, at, written + piece)
    {
      PutTwice(b, at, written, piece);
      Copy(db, pointer, piece);
    }

    /** Places the bytes of a record, piece by piece. */
    method StoreRecord(at: nat, r: Record)
      requires WellFormed(r) && at + |Encode(r)| <= db.Length
      modifies db
      ensures db[..] == Put(old(db[..]), at, Encode(r))
    {
      ghost var b := db[..];
      var pointer := at;
      assert db[..] == Put(b, at, []);
      hide Put;
      CopyNext(pointer, r.tag, b, at, []);
      assert [] + r.tag == r.tag;
      pointer := pointer + |r.tag|;
      CopyNext(pointer, [0], b, at, r.tag);
      pointer := pointer + 1;
      CopyNext(pointer, [r.kind], b, at, r.tag + [0]);
      pointer := pointer + 1;
      CopyNext(pointer, [|r.data| % 0x100], b, at, r.tag + [0] + [r.kind]);
      pointer := pointer + 1;
      CopyNext(pointer, [|r.data| / 0x100], b, at, r.tag + [0] + [r.kind] + [|r.data| % 0x100]);
      pointer := pointer + 1;
      HeadPieces(r);
      CopyNext(pointer, r.data, b, at, r.tag + Head(r));
    }

    method Write(tag: seq<byte>, data: seq<byte>, datasize: u16, kind: byte, ghost rs: seq<Record>)
      returns (err: DbError)
      requires |tag| < 0x1_0000 && 0 !in tag && ByteCount(datasize, kind) <= |data|
      requires Represents(db[..], rs)
      requires Lookup(rs, tag) == None ==>
        End(db[..]) + |tag| + 4 + ByteCount(datasize, kind) <= db.Length < BLANK
      modifies db
      ensures err == if Lookup(rs, tag) == None then DbSuccess else DbTagExist
      ensures err == DbTagExist ==> db[..] == old(db[..])
      ensures err == DbSuccess ==>
        var n := if kind == 4 then 4 * datasize % 65536 else if kind == 2 then 2 * datasize % 65536 else datasize;
        && n <= |data| && Represents(db[..], rs + [Record(tag, kind, data[..n])]) && Checked()
        && End(db[..]) == old(End(db[..])) + |tag| + 4 + n
    {
      hide Encode, EncodeAll, Le32, StringAt, Place, Width, ByteCount;
      ByteCountIs(datasize, kind);
      PlaceBounds(db[..], rs, 0);
      var found, _ := FindData(tag, rs);
      assert found != 0 <==> Lookup(rs, tag).Some? by {
        if IndexOf(rs, tag) < |rs| { PlaceBounds(db[..], rs, IndexOf(rs, tag)); }
      }
      if found != 0 {
        return DbTagExist;
      }
      ghost var before := db[..];
      var size := UsedSize(db[..]);
      var pointer := if size <= HEADER || size == BLANK then HEADER else size;
      var r := Record(tag, kind, data[..ByteCount(datasize, kind)]);
      StoreRecord(pointer, r);
      UpdateDb(pointer + |tag| + 4 + |r.data|);
      Appended(before, rs, r, db[..]);
      return DbSuccess;
    }

    method Delete(tag: seq<byte>, ghost rs: seq<Record>) returns (err: DbError)
      requires 0 !in tag && Represents(db[..], rs) && End(db[..]) < BLANK
      modifies db
      ensures err == if Lookup(rs, tag) == None then DbTagNotFound else DbSuccess
      ensures err == DbTagNotFound ==> db[..] == old(db[..])
      ensures err == DbSuccess ==>
        && Checked() && End(db[..]) == old(End(db[..])) - DeletedBytes(Lookup(rs, tag).value)
        && (Represents(db[..], Without(rs, IndexOf(rs, tag))) <==> DeletesCleanly(Lookup(rs, tag).value))
    {
      hide Represents, Encode, EncodeAll, UsedSize, End, StringAt, Place, Put, DeletesCleanly, HeaderUpdated;
      hide Width, DeletedBytes;
      PlaceBounds(db[..], rs, 0);
      var pointer, _ := FindData(tag, rs);
      ghost var k := IndexOf(rs, tag);
      if k < |rs| { PlaceBounds(db[..], rs, k); }
      if pointer == 0 {
        return DbTagNotFound;
      }
      DeleteBounds(db[..], rs, k);
      DeletedBytesIs(rs[k]);
      var dbsize := UsedSize(db[..]);
      var elements := GetEntrySize(tag, rs);
      var entrySize := (elements + |tag| + 4) % 0x1_0000;
      ghost var before := db[..];
      Copy(db, pointer, db[pointer + entrySize..dbsize]);
      UpdateDb(dbsize - entrySize);
      DeleteOutcome(before, rs, k, db[..]);
      return DbSuccess;
    }

    /** Replaces a record, provided that the old one is deleted cleanly. The write is refused when the
        delete brings a second record with the tag to light, which an empty tag had hidden. */
    method Overwrite(tag: seq<byte>, data: seq<byte>, datasize: u16, kind: byte, ghost rs: seq<Record>)
      returns (err: DbError)
      requires |tag| < 0x1_0000 && 0 !in tag && ByteCount(datasize, kind) <= |data|
      requires Represents(db[..], rs)
      requires Lookup(rs, tag).Some? ==> DeletesCleanly(Lookup(rs, tag).value)
      requires End(db[..]) + |tag| + 4 + ByteCount(datasize, kind) <= db.Length < BLANK
      modifies db
      ensures err == if Lookup(Forget(rs, tag), tag) == None then DbSuccess else DbTagExist
      ensures Checked() && End(db[..]) <= old(End(db[..])) + |tag| + 4 + ByteCount(datasize, kind)
      ensures err == DbSuccess ==>
        var n := if kind == 4 then 4 * datasize % 65536 else if kind == 2 then 2 * datasize % 65536 else datasize;
        n <= |data| && Represents(db[..], Forget(rs, tag) + [Record(tag, kind, data[..n])])
      ensures err == DbTagExist ==> Represents(db[..], Forget(rs, tag))
    {
      hide Encode, EncodeAll, Le32, StringAt, Place, Represents, Width, ByteCount;
      ByteCountIs(datasize, kind);
      PlaceBounds(db[..], rs, 0);
      var found, _ := FindData(tag, rs);
      ghost var k := IndexOf(rs, tag);
      if k < |rs| { PlaceBounds(db[..], rs, k); }
      ghost var rest := Forget(rs, tag);
      if found != 0 {
        var _ := Delete(tag, rs);
      }
      err := Write(tag, data, datasize, kind, rest);
    }
  }

  /** The records without the one that has this tag. */
  ghost function Forget(rs: seq<Record>, tag: seq<byte>): seq<Record> {
    if IndexOf(rs, tag) < |rs| then Without(rs, IndexOf(rs, tag)) else rs
  }

  /** The stored record in element units, as db_read and db_get_entry_size report it. */
  function Elements(r: Record): nat {
    |r.data| / Width(r.kind)
  }

  /** What the fields of the record at p say. */
  lemma FoundRecord(b: seq<byte>, rs: seq<Record>, k: nat)
    requires Represents(b, rs) && k < |rs|
    ensures var p, r := Place(rs, k), rs[k];
      && p >= HEADER && p + |r.tag| + 4 + |r.data| == Place(rs, k + 1) <= End(b) <= |b|
      && b[p + |r.tag| + 1] == r.kind
      && b[p + |r.tag| + 2] + 0x100 * (b[p + |r.tag| + 3] as int) == |r.data| < 0x1_0000
      && b[p + |r.tag| + 4..p + |r.tag| + 4 + |r.data|] == r.data
  {
    hide Encode, EncodeAll, UsedSize, StringAt;
    RecordFields(b, rs, k);
  }

  ghost function Found(rs: seq<Record>, tag: seq<byte>): nat
    requires AllWellFormed(rs)
  {
    if IndexOf(rs, tag) < |rs| then Place(rs, IndexOf(rs, tag)) else 0
  }

  lemma HeadPieces(r: Record)
    requires WellFormed(r)
    ensures r.tag + [0] + [r.kind] + [|r.data| % 0x100] + [|r.data| / 0x100] == r.tag + Head(r)
  {
  }

  const PROBE: seq<byte> := [0x44, 0x45, 0x41, 0x44, 0x42, 0x45, 0x45, 0x46]

  /** With too few bytes taken out, the used size is not that of the remaining records. */
  lemma WrongSize(b: seq<byte>, rs: seq<Record>, k: nat, c: seq<byte>)
    requires Represents(b, rs) && k < |rs| && |c| >= HEADER
    requires End(c) > End(b) - |Encode(rs[k])|
    ensures !Represents(c, Without(rs, k))
  {
    hide Encode, WellFormed, UsedSize;
    SplitAtRecord(rs, k);
    EncodeAllJoin(rs[..k], rs[k + 1..]);
  }

  lemma DeleteBounds(b: seq<byte>, rs: seq<Record>, k: nat)
    requires Represents(b, rs) && k < |rs|
    ensures HEADER <= Place(rs, k) && Place(rs, k) + DeletedBytes(rs[k]) <= End(b) <= |b|
    ensures UsedSize(b) == End(b)
  {
    hide Encode, EncodeAll, StringAt, DeletedBytes;
    FoundRecord(b, rs, k);
    DeletedBytesExact(rs[k]);
  }

  /** Deletion removes the record and nothing else exactly when it deletes cleanly. */
  lemma DeleteOutcome(b: seq<byte>, rs: seq<Record>, k: nat, c: seq<byte>)
    requires Represents(b, rs) && k < |rs| && End(b) < BLANK
    requires Place(rs, k) + DeletedBytes(rs[k]) <= End(b) <= |b|
    requires HeaderUpdated(c, Put(b, Place(rs, k), b[Place(rs, k) + DeletedBytes(rs[k])..End(b)]),
                           End(b) - DeletedBytes(rs[k]))
    ensures Represents(c, Without(rs, k)) <==> DeletesCleanly(rs[k])
  {
    hide Represents, Encode, EncodeAll, UsedSize, StringAt, Put, DeletesCleanly, DeletedBytes;
    PlaceBounds(b, rs, k);
    FoundRecord(b, rs, k);
    DeletedBytesExact(rs[k]);
    EndUpdated(c, Put(b, Place(rs, k), b[Place(rs, k) + DeletedBytes(rs[k])..End(b)]),
               End(b) - DeletedBytes(rs[k]));
    if DeletesCleanly(rs[k]) {
      Removed(b, rs, k, c);
    } else {
      WrongSize(b, rs, k, c);
    }
  }

  /** From one record to the next, as find_data computes it. */
  lemma NextRecord(b: seq<byte>, rs: seq<Record>, k: nat)
    requires Represents(b, rs) && k < |rs|
    ensures var p, n := Place(rs, k), |rs[k].tag|;
      && StringAt(b, p) == rs[k].tag && n < 0x1_0000
      && p + n + 4 <= |b|
      && p + n + 4 + b[p + n + 2] + 0x100 * (b[p + n + 3] as int) == Place(rs, k + 1)
  {
    hide Encode, EncodeAll, UsedSize, StringAt;
    RecordFields(b, rs, k);
  }

  lemma PlaceBounds(b: seq<byte>, rs: seq<Record>, k: nat)
    requires Represents(b, rs) && k <= |rs|
    ensures AllWellFormed(rs) && |b| >= HEADER && End(b) <= |b|
    ensures HEADER <= Place(rs, k) <= End(b) && (Place(rs, k) == End(b) <==> k == |rs|)
    ensures rs == [] <==> UsedSize(b) <= HEADER
    ensures rs != [] ==> UsedSize(b) == End(b)
    ensures k == 0 ==> Place(rs, k) == HEADER
  {
    assert rs[..|rs|] == rs;
    if k < |rs| { SplitAtRecord(rs, k); }
    if rs != [] { SplitAtRecord(rs, 0); }
  }
}
