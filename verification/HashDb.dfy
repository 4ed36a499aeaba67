/** The hash-keyed database of Common/hash_db.cpp: a header with a name and the used size, then a
    chain of entries that each carry their key, their size and their data. */
module HashDb {
  import opened Wrappers
  import opened Bytes

  const HEADER := 8
  const ENOENT := 2
  const EINVAL := 22
  const ENOSPC := 28

  datatype Entry = Entry(hash: u32, data: seq<byte>)

  predicate WellFormed(e: Entry) {
    |e.data| < 0x1_0000_0000
  }

  function Encode(e: Entry): (r: seq<byte>)
    requires WellFormed(e)
    ensures |r| == HEADER + |e.data|
  {
    ToLe32(e.hash) + ToLe32(|e.data|) + e.data
  }

  ghost predicate AllWellFormed(es: seq<Entry>) {
    forall i | 0 <= i < |es| :: WellFormed(es[i])
  }

  ghost function Chain(es: seq<Entry>): seq<byte>
    requires AllWellFormed(es)
  {
    if es == [] then [] else Chain(es[..|es| - 1]) + Encode(es[|es| - 1])
  }

  /** Position of entry k, or of the end of the chain for k == |es|. */
  ghost function Place(es: seq<Entry>, k: nat): nat
    requires AllWellFormed(es) && k <= |es|
  {
    HEADER + |Chain(es[..k])|
  }

  ghost predicate Distinct(es: seq<Entry>) {
    forall i, j | 0 <= i < j < |es| :: es[i].hash != es[j].hash
  }

  function UsedSize(b: seq<byte>): u32
    requires |b| >= HEADER
  {
    Le32(b, 4)
  }

  /** The chain of entries ends exactly at the used size, and its keys are distinct. */
  ghost predicate Represents(b: seq<byte>, es: seq<Entry>) {
    && |b| >= HEADER && AllWellFormed(es) && Distinct(es)
    && UsedSize(b) == HEADER + |Chain(es)| <= |b|
    && b[HEADER..UsedSize(b)] == Chain(es)
  }

  ghost function IndexOf(es: seq<Entry>, hash: u32): (k: nat)
    ensures k <= |es| && (k < |es| ==> es[k].hash == hash)
    ensures forall i | 0 <= i < k :: es[i].hash != hash
  {
    if es == [] then 0
    else if es[0].hash == hash then 0
    else 1 + IndexOf(es[1..], hash)
  }

  lemma {:induction false} ChainJoin(a: seq<Entry>, b: seq<Entry>)
    requires AllWellFormed(a) && AllWellFormed(b)
    ensures AllWellFormed(a + b) && Chain(a + b) == Chain(a) + Chain(b)
  {
    hide Encode, WellFormed, Chain;
    if b == [] {
      assert a + b == a;
      ChainNone();
    } else {
      var n := |b| - 1;
      ChainJoin(a, b[..n]);
      JoinBack(a, b);
      ChainBack(b);
      ChainBack(a + b);
    }
  }

  lemma ChainNone()
    ensures Chain([]) == []
  {
  }

  lemma JoinBack(a: seq<Entry>, b: seq<Entry>)
    requires b != []
    ensures (a + b)[..|a + b| - 1] == a + b[..|b| - 1] && (a + b)[|a + b| - 1] == b[|b| - 1]
  {
  }

  lemma ChainOne(e: Entry)
    requires WellFormed(e)
    ensures Chain([e]) == Encode(e)
  {
    assert [e][..0] == [];
  }

  /** The bytes before, of, and after entry k. */
  lemma SplitAtEntry(es: seq<Entry>, k: nat)
    requires AllWellFormed(es) && k < |es|
    ensures Chain(es) == Chain(es[..k]) + Encode(es[k]) + Chain(es[k + 1..])
    ensures Place(es, k + 1) == Place(es, k) + |Encode(es[k])| <= HEADER + |Chain(es)|
  {
    hide Encode, Chain, WellFormed;
    Cut(es, k);
    ChainBack(es[..k + 1]);
    ChainJoin(es[..k + 1], es[k + 1..]);
  }

  lemma Cut(es: seq<Entry>, k: nat)
    requires k < |es|
    ensures es[..k + 1][..k] == es[..k] && es[..k + 1] + es[k + 1..] == es
  {
  }

  lemma ChainBack(es: seq<Entry>)
    requires AllWellFormed(es) && es != []
    ensures Chain(es) == Chain(es[..|es| - 1]) + Encode(es[|es| - 1])
  {
  }

  /** Replacing entry k leaves the chain before and after it alone. */
  lemma ChainReplaced(es: seq<Entry>, k: nat, e: Entry)
    requires AllWellFormed(es) && k < |es| && WellFormed(e)
    ensures AllWellFormed(es[k := e])
    ensures Chain(es[k := e]) == Chain(es[..k]) + Encode(e) + Chain(es[k + 1..])
  {
    hide Encode, Chain, WellFormed;
    assert es[k := e][..k] == es[..k] && es[k := e][k + 1..] == es[k + 1..];
    SplitAtEntry(es[k := e], k);
  }

  /** What the functions read at the place of an entry. */
  lemma EntryFields(b: seq<byte>, p: nat, e: Entry)
    requires WellFormed(e) && p + |Encode(e)| <= |b| && b[p..p + |Encode(e)|] == Encode(e)
    ensures Le32(b, p) == e.hash && Le32(b, p + 4) == |e.data|
    ensures b[p + HEADER..p + HEADER + |e.data|] == e.data
  {
    hide Le32, ToLe32;
    var h, s := ToLe32(e.hash), ToLe32(|e.data|);
    assert Encode(e) == [] + h + (s + e.data) && Encode(e) == h + s + e.data + [];
    SliceMiddle(b, p, [], h, s + e.data);
    SliceMiddle(b, p, h, s, e.data);
    SliceMiddle(b, p, h + s, e.data, []);
    Le32Of(b, p, e.hash);
    Le32Of(b, p + 4, |e.data|);
  }

  lemma EntryThere(b: seq<byte>, es: seq<Entry>, k: nat)
    requires Represents(b, es) && k < |es|
    ensures var p, e := Place(es, k), es[k];
      && HEADER <= p && p + HEADER + |e.data| == Place(es, k + 1) <= UsedSize(b) <= |b|
      && Le32(b, p) == e.hash && Le32(b, p + 4) == |e.data|
      && b[p + HEADER..p + HEADER + |e.data|] == e.data
  {
    hide Encode, Chain, Le32, WellFormed, Distinct;
    SplitAtEntry(es, k);
    SliceMiddle(b, HEADER, Chain(es[..k]), Encode(es[k]), Chain(es[k + 1..]));
    EntryFields(b, Place(es, k), es[k]);
  }

  /** Bounds of the places, for the loops that walk the chain. */
  lemma PlaceBounds(b: seq<byte>, es: seq<Entry>, k: nat)
    requires Represents(b, es) && k <= |es|
    ensures |b| >= HEADER && AllWellFormed(es) && Distinct(es)
    ensures HEADER <= Place(es, k) <= UsedSize(b) <= |b|
    ensures Place(es, k) == UsedSize(b) <==> k == |es|
    ensures k == 0 ==> Place(es, k) == HEADER
  {
    hide Le32;
    assert es[..|es|] == es;
    if k < |es| { SplitAtEntry(es, k); }
  }

  // ----- what a write does to the chain

  lemma Appended(b: seq<byte>, es: seq<Entry>, e: Entry, c: seq<byte>)
    requires Represents(b, es) && WellFormed(e) && IndexOf(es, e.hash) == |es|
    requires UsedSize(b) + |Encode(e)| <= |b| == |c|
    requires UsedSize(c) == UsedSize(b) + |Encode(e)|
    requires c[HEADER..] == Put(b, UsedSize(b), Encode(e))[HEADER..]
    ensures Represents(c, es + [e])
  {
    hide Encode, Chain, Le32, IndexOf, WellFormed, Put;
    ChainOne(e);
    ChainJoin(es, [e]);
    PutAppends(b, HEADER, UsedSize(b), Encode(e), c);
    DistinctAppend(es, e);
  }

  lemma DistinctAppend(es: seq<Entry>, e: Entry)
    requires Distinct(es) && IndexOf(es, e.hash) == |es|
    ensures Distinct(es + [e])
  {
  }

  /** Rewriting entry k in place keeps the chain exactly when the size stays the same. */
  lemma Replaced(b: seq<byte>, es: seq<Entry>, k: nat, e: Entry, c: seq<byte>)
    requires Represents(b, es) && k < |es| && WellFormed(e) && e.hash == es[k].hash
    requires Place(es, k) + |Encode(e)| <= |b| && c == Put(b, Place(es, k), Encode(e))
    ensures Represents(c, es[k := e]) <==> |e.data| == |es[k].data|
  {
    hide Encode, Chain, WellFormed, Put, UsedSize, Distinct;
    PlaceBounds(b, es, k);
    SplitAtEntry(es, k);
    ChainReplaced(es, k, e);
    PutKeepsName(b, Place(es, k), Encode(e));
    DistinctReplaced(es, k, e);
    if |e.data| == |es[k].data| {
      PutMiddle(b, HEADER, Chain(es[..k]), Encode(es[k]), Chain(es[k + 1..]), Encode(e));
    }
  }

  lemma DistinctReplaced(es: seq<Entry>, k: nat, e: Entry)
    requires Distinct(es) && k < |es| && e.hash == es[k].hash
    ensures Distinct(es[k := e])
  {
  }

  /** Replacing bytes by as many others. */
  lemma PutMiddle(b: seq<byte>, h: nat, pre: seq<byte>, mid: seq<byte>, post: seq<byte>, e: seq<byte>)
    requires h + |pre + mid + post| <= |b| && b[h..h + |pre + mid + post|] == pre + mid + post && |e| == |mid|
    ensures Put(b, h + |pre|, e)[h..h + |pre + mid + post|] == pre + e + post
  {
    SlicesAround(b, h, pre, mid, post);
    var c, end := Put(b, h + |pre|, e), h + |pre + mid + post|;
    assert c[h..end] == b[h..h + |pre|] + e + b[h + |pre| + |mid|..end];
  }

  lemma SlicesAround(b: seq<byte>, h: nat, pre: seq<byte>, mid: seq<byte>, post: seq<byte>)
    requires h + |pre + mid + post| <= |b| && b[h..h + |pre + mid + post|] == pre + mid + post
    ensures b[h..h + |pre|] == pre
    ensures b[h + |pre| + |mid|..h + |pre + mid + post|] == post
  {
    SliceMiddle(b, h, [], pre, mid + post);
    SliceMiddle(b, h, pre + mid, post, []);
    assert [] + pre + (mid + post) == pre + mid + post == pre + mid + post + [];
  }

  // ----- the chain as a map from keys

  ghost function Lookup(es: seq<Entry>, hash: u32): Option<seq<byte>> {
    if IndexOf(es, hash) < |es| then Some(es[IndexOf(es, hash)].data) else None
  }

  lemma LookupIs(es: seq<Entry>, k: nat)
    requires Distinct(es) && k < |es|
    ensures Lookup(es, es[k].hash) == Some(es[k].data)
  {
    assert IndexOf(es, es[k].hash) == k;
  }

  lemma LookupNone(es: seq<Entry>, hash: u32)
    requires forall i | 0 <= i < |es| :: es[i].hash != hash
    ensures Lookup(es, hash) == None
  {
  }

  lemma LookupAppended(es: seq<Entry>, e: Entry, hash: u32)
    requires Distinct(es) && Lookup(es, e.hash) == None
    ensures Lookup(es + [e], hash) == if hash == e.hash then Some(e.data) else Lookup(es, hash)
  {
    DistinctAppend(es, e);
    var k := IndexOf(es, hash);
    if hash == e.hash {
      LookupIs(es + [e], |es|);
    } else if k < |es| {
      LookupIs(es + [e], k);
    } else {
      LookupNone(es + [e], hash);
    }
  }

  lemma LookupReplaced(es: seq<Entry>, k: nat, e: Entry, hash: u32)
    requires Distinct(es) && k < |es| && es[k].hash == e.hash
    ensures Lookup(es[k := e], hash) == if hash == e.hash then Some(e.data) else Lookup(es, hash)
  {
    assert Distinct(es[k := e]);
    var j := IndexOf(es, hash);
    if hash == e.hash {
      LookupIs(es[k := e], k);
    } else if j < |es| {
      LookupIs(es[k := e], j);
    } else {
      LookupNone(es[k := e], hash);
    }
  }

  class HashDB {
    const location: array<byte>

    /** The name and an empty chain. */
    constructor (location: array<byte>, nameHash: u32)
      requires location.Length >= HEADER && location.Length < 0x1_0000_0000
      modifies location
      ensures this.location == location && Represents(location[..], []) && Le32(location[..], 0) == nameHash
      ensures UsedSize(location[..]) == Le32(location[..], 4) == 8
    {
      this.location := location;
      new;
      Copy(location, 0, ToLe32(nameHash));
      assert location[..][0..4] == ToLe32(nameHash);
      Copy(location, 4, ToLe32(HEADER));
      assert location[..][4..8] == ToLe32(HEADER) && location[..][0..4] == ToLe32(nameHash);
      Le32Of(location[..], 0, nameHash);
      Le32Of(location[..], 4, HEADER);
    }

    /** The walk that both operations make: the offset of the key, or the end of the chain. */
    method Walk(hash: u32, ghost es: seq<Entry>) returns (offset: nat, found: bool)
      requires Represents(location[..], es)
      ensures IndexOf(es, hash) <= |es| && AllWellFormed(es) && offset == Place(es, IndexOf(es, hash))
      ensures found <==> IndexOf(es, hash) < |es|
    {
      hide Represents, Encode, Chain, UsedSize, Place;
      PlaceBounds(location[..], es, 0);
      offset, found := HEADER, false;
      ghost var k := 0;
      while offset < UsedSize(location[..])
        invariant 0 <= k <= |es| && offset == Place(es, k) && !found
        invariant forall i | 0 <= i < k :: es[i].hash != hash
        decreases |es| - k
      {
        PlaceBounds(location[..], es, k);
        EntryThere(location[..], es, k);
        PlaceBounds(location[..], es, k + 1);
        if Le32(location[..], offset) == hash {
          return offset, true;
        }
        offset := offset + HEADER + Le32(location[..], offset + 4);
        k := k + 1;
      }
      PlaceBounds(location[..], es, k);
    }

    method Write(hash: u32, data: seq<byte>, ghost es: seq<Entry>) returns (rc: int)
      requires |data| < 0x1_0000_0000 && Represents(location[..], es) && location.Length < 0x1_0000_0000
      modifies location
      ensures rc == if old(UsedSize(location[..])) + HEADER + |data| > location.Length then 28 else 0
      ensures rc == 28 ==> location[..] == old(location[..])
      ensures rc == 0 && IndexOf(es, hash) == |es| ==> Represents(location[..], es + [Entry(hash, data)])
      ensures rc == 0 && IndexOf(es, hash) < |es| ==>
        (Represents(location[..], es[IndexOf(es, hash) := Entry(hash, data)])
         <==> |data| == |es[IndexOf(es, hash)].data|)
      ensures rc == 0 ==> location[..][..4] == old(location[..][..4])
      ensures rc == 0 ==>
        UsedSize(location[..]) == old(UsedSize(location[..])) + if IndexOf(es, hash) < |es| then 0 else HEADER + |data|
    {
      hide Represents, Encode, Chain, UsedSize, Place, Put, ToLe32, IndexOf;
      var offset, found := Walk(hash, es);
      ghost var b, k := location[..], IndexOf(es, hash);
      var e := Entry(hash, data);
      PlaceBounds(b, es, k);
      var used := UsedSize(location[..]);
      if used + HEADER + |data| > location.Length {
        return ENOSPC;
      }
      StoreEntry(offset, e);
      PutKeepsName(b, offset, Encode(e));
      if !found {
        ghost var d := location[..];
        Copy(location, 4, ToLe32(used + HEADER + |data|));
        HeaderWritten(d, used + HEADER + |data|, location[..]);
        Appended(b, es, e, location[..]);
      } else {
        Replaced(b, es, k, e, location[..]);
      }
      return 0;
    }

    method StoreEntry(offset: nat, e: Entry)
      requires WellFormed(e) && offset + |Encode(e)| <= location.Length
      modifies location
      ensures location[..] == Put(old(location[..]), offset, Encode(e))
    {
      ghost var b := location[..];
      Copy(location, offset, ToLe32(e.hash));
      Copy(location, offset + 4, ToLe32(|e.data|));
      PutTwice(b, offset, ToLe32(e.hash), ToLe32(|e.data|));
      Copy(location, offset + HEADER, e.data);
      PutTwice(b, offset, ToLe32(e.hash) + ToLe32(|e.data|), e.data);
    }

    method Read(hash: u32, size: u32, ghost es: seq<Entry>) returns (rc: int, data: seq<byte>)
      requires Represents(location[..], es)
      ensures rc == 2 <==> IndexOf(es, hash) == |es|
      ensures rc == 22 <==> IndexOf(es, hash) < |es| && |es[IndexOf(es, hash)].data| != size
      ensures rc == 0 || rc == 22 || rc == 2
      ensures rc == 0 ==> Lookup(es, hash) == Some(data) && |data| == size
    {
      hide Represents, Encode, Chain, UsedSize, Place;
      var offset, found := Walk(hash, es);
      data := [];
      if !found {
        return ENOENT, data;
      }
      PlaceBounds(location[..], es, 0);
      EntryThere(location[..], es, IndexOf(es, hash));
      if Le32(location[..], offset + 4) != size {
        return EINVAL, data;
      }
      return 0, location[offset + HEADER..offset + HEADER + size];
    }
  }

  lemma PutKeepsName(b: seq<byte>, at: nat, e: seq<byte>)
    requires HEADER <= at && at + |e| <= |b|
    ensures Put(b, at, e)[..4] == b[..4] && UsedSize(Put(b, at, e)) == UsedSize(b)
  {
  }

  lemma HeaderWritten(d: seq<byte>, n: u32, c: seq<byte>)
    requires |d| >= HEADER && c == Put(d, 4, ToLe32(n))
    ensures UsedSize(c) == n && c[HEADER..] == d[HEADER..] && c[..4] == d[..4]
  {
    assert c[4..8] == ToLe32(n);
    Le32Of(c, 4, n);
  }

  // ----- runs

  datatype WriteOp = WriteOp(hash: u32, data: seq<byte>)

  type Model = map<u32, seq<byte>>

  /** The map together with the used size. */
  datatype Store = Store(m: Model, used: nat)

  /** The result of a write: even a rewrite needs room for another entry. */
  function Code(s: Store, op: WriteOp, max: nat): int {
    if s.used + 8 + |op.data| > max then 28 else 0
  }

  function Apply(s: Store, op: WriteOp, max: nat): Store {
    if Code(s, op, max) != 0 then s
    else Store(s.m[op.hash := op.data], s.used + if op.hash in s.m then 0 else 8 + |op.data|)
  }

  function ApplyAll(s: Store, ops: seq<WriteOp>, max: nat): Store {
    if ops == [] then s else Apply(ApplyAll(s, ops[..|ops| - 1], max), ops[|ops| - 1], max)
  }

  lemma NextApplied(s: Store, ops: seq<WriteOp>, max: nat, i: nat)
    requires i < |ops|
    ensures ApplyAll(s, ops[..i + 1], max) == Apply(ApplyAll(s, ops[..i], max), ops[i], max)
  {
    assert ops[..i + 1][..i] == ops[..i];
  }

  lemma NothingApplied(s: Store, ops: seq<WriteOp>, max: nat)
    ensures ApplyAll(s, ops[..0], max) == s
  {
  }

  ghost predicate Refines(es: seq<Entry>, m: Model) {
    forall hash: u32 :: Lookup(es, hash) == if hash in m then Some(m[hash]) else None
  }

  /** Every key has one size. */
  ghost predicate Sized(es: seq<Entry>, size: u32 -> nat) {
    forall i | 0 <= i < |es| :: |es[i].data| == size(es[i].hash)
  }

  /** The chain in the memory is the map, and it is as long as the used size. */
  ghost predicate Holds(b: seq<byte>, es: seq<Entry>, s: Store) {
    Represents(b, es) && Refines(es, s.m) && UsedSize(b) == s.used
  }

  method RunWrite(d: HashDB, op: WriteOp, ghost size: u32 -> nat, ghost es: seq<Entry>, ghost s: Store)
    returns (rc: int, ghost after: seq<Entry>)
    requires Holds(d.location[..], es, s) && d.location.Length < 0x1_0000_0000
    requires Sized(es, size) && |op.data| == size(op.hash) < 0x1_0000_0000
    modifies d.location
    ensures Holds(d.location[..], after, Apply(s, op, d.location.Length)) && Sized(after, size)
    ensures rc == Code(s, op, d.location.Length)
    ensures rc != 0 ==> d.location[..] == old(d.location[..])
  {
    hide Represents, UsedSize, IndexOf, Refines;
    PlaceBounds(d.location[..], es, 0);
    InMap(es, s.m, op.hash);
    rc := d.Write(op.hash, op.data, es);
    after := es;
    if rc == 0 {
      after := Stored(es, Entry(op.hash, op.data));
      StoredRefines(es, s.m, Entry(op.hash, op.data), size);
    }
  }

  lemma InMap(es: seq<Entry>, m: Model, hash: u32)
    requires Refines(es, m)
    ensures IndexOf(es, hash) < |es| <==> hash in m
  {
    hide IndexOf;
    assert Lookup(es, hash).Some? <==> hash in m;
  }

  /** The entries after a successful write. */
  ghost function Stored(es: seq<Entry>, e: Entry): seq<Entry> {
    var k := IndexOf(es, e.hash);
    if k < |es| then es[k := e] else es + [e]
  }

  lemma StoredRefines(es: seq<Entry>, m: Model, e: Entry, size: u32 -> nat)
    requires Refines(es, m) && Distinct(es) && Sized(es, size) && |e.data| == size(e.hash)
    ensures Refines(Stored(es, e), m[e.hash := e.data]) && Sized(Stored(es, e), size)
  {
    hide IndexOf, Distinct;
    var k := IndexOf(es, e.hash);
    forall hash: u32
      ensures Lookup(Stored(es, e), hash) == if hash == e.hash then Some(e.data) else Lookup(es, hash)
    {
      if k < |es| { LookupReplaced(es, k, e, hash); } else { LookupAppended(es, e, hash); }
    }
  }

  /** Any run of writes with one size per key: the chain stays well formed within the memory and holds the
      last data written under each key. Which writes are refused is determined by the used size, which grows
      with every new key. */
  method RunWrites(d: HashDB, ops: seq<WriteOp>, ghost size: u32 -> nat, ghost es0: seq<Entry>, ghost s: Store)
    returns (codes: seq<int>, ghost es: seq<Entry>)
    requires Holds(d.location[..], es0, s) && d.location.Length < 0x1_0000_0000 && Sized(es0, size)
    requires forall i | 0 <= i < |ops| :: |ops[i].data| == size(ops[i].hash) < 0x1_0000_0000
    modifies d.location
    ensures Holds(d.location[..], es, ApplyAll(s, ops, d.location.Length))
    ensures |codes| == |ops|
    ensures forall i | 0 <= i < |ops| ::
      codes[i] == Code(ApplyAll(s, ops[..i], d.location.Length), ops[i], d.location.Length)
  {
    hide Holds, Sized, ApplyAll, Code;
    var max := d.location.Length;
    NothingApplied(s, ops, max);
    codes, es := [], es0;
    for i := 0 to |ops|
      invariant |codes| == i && Sized(es, size) && Holds(d.location[..], es, ApplyAll(s, ops[..i], max))
      invariant forall k | 0 <= k < i :: codes[k] == Code(ApplyAll(s, ops[..k], max), ops[k], max)
    {
      NextApplied(s, ops, max, i);
      var rc;
      rc, es := RunWrite(d, ops[i], size, es, ApplyAll(s, ops[..i], max));
      codes := codes + [rc];
    }
    assert ops[..|ops|] == ops;
  }
}
