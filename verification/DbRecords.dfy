/** The layout of a simple_db buffer: an 8-byte header with the used size and a checksum, then
    records of tag, type, size and data one after the other. */
module DbRecords {
  import opened Bytes

  const HEADER := 8
  const BLANK: u32 := 0xFFFF_FFFF

  datatype Record = Record(tag: seq<byte>, kind: byte, data: seq<byte>)

  predicate WellFormed(r: Record) {
    |r.tag| < 0x1_0000 && 0 !in r.tag && |r.data| < 0x1_0000
  }

  /** End of the tag, type, and data size. */
  function Head(r: Record): (h: seq<byte>)
    requires WellFormed(r)
    ensures |h| == 4
  {
    [0, r.kind, |r.data| % 0x100, |r.data| / 0x100]
  }

  function Encode(r: Record): (e: seq<byte>)
    requires WellFormed(r)
    ensures |e| == |r.tag| + 4 + |r.data|
  {
    r.tag + Head(r) + r.data
  }

  ghost predicate AllWellFormed(rs: seq<Record>) {
    forall i | 0 <= i < |rs| :: WellFormed(rs[i])
  }

  ghost function EncodeAll(rs: seq<Record>): seq<byte>
    requires AllWellFormed(rs)
  {
    if rs == [] then [] else EncodeAll(rs[..|rs| - 1]) + Encode(rs[|rs| - 1])
  }

  /** Position of record k, or of the end for k == |rs|. */
  ghost function Place(rs: seq<Record>, k: nat): nat
    requires AllWellFormed(rs) && k <= |rs|
  {
    HEADER + |EncodeAll(rs[..k])|
  }

  /** The used size as the functions read it. */
  function UsedSize(b: seq<byte>): u32
    requires |b| >= HEADER
  {
    if Le32(b, 0) == BLANK then 0 else Le32(b, 0)
  }

  /** Where the next record goes. */
  function End(b: seq<byte>): nat
    requires |b| >= HEADER
  {
    if UsedSize(b) <= HEADER then HEADER else UsedSize(b)
  }

  /** `b` holds exactly the records rs. A buffer with a zero or erased header holds none. */
  ghost predicate Represents(b: seq<byte>, rs: seq<Record>) {
    && |b| >= HEADER && AllWellFormed(rs)
    && End(b) == HEADER + |EncodeAll(rs)| <= |b|
    && b[HEADER..End(b)] == EncodeAll(rs)
  }

  /** A buffer of zeros and an erased one hold no record; the first one goes behind the header. */
  lemma FreshBuffer(b: seq<byte>)
    requires |b| >= 8
    requires (forall i | 0 <= i < |b| :: b[i] == 0) || (forall i | 0 <= i < |b| :: b[i] == 0xFF)
    ensures Represents(b, []) && End(b) == 8 && UsedSize(b) == 0
  {
  }

  // ----- finding records

  /** The index of the record that a search for the tag finds, or |rs|. A search does not go past a
      record whose tag is empty. */
  ghost function IndexOf(rs: seq<Record>, tag: seq<byte>): (k: nat)
    ensures k <= |rs| && (k < |rs| ==> rs[k].tag == tag)
  {
    if rs == [] || rs[0].tag == tag then 0
    else if rs[0].tag == [] then |rs|
    else 1 + IndexOf(rs[1..], tag)
  }

  /** The number of records that the search looks at. */
  ghost function Looked(rs: seq<Record>, tag: seq<byte>): (n: nat)
    ensures n <= |rs|
  {
    if rs == [] then 0
    else if rs[0].tag == tag || rs[0].tag == [] then 1
    else 1 + Looked(rs[1..], tag)
  }

  /** An empty tag hides the records behind it. */
  ghost predicate Sealed(rs: seq<Record>) {
    exists i | 0 <= i < |rs| :: rs[i].tag == []
  }

  ghost predicate Distinct(rs: seq<Record>) {
    forall i, j | 0 <= i < j < |rs| :: rs[i].tag != rs[j].tag
  }

  /** Where every record can be found. */
  ghost predicate Orderly(rs: seq<Record>) {
    Distinct(rs) && !Sealed(rs)
  }

  /** One more step of the search. */
  lemma SearchStep(rs: seq<Record>, tag: seq<byte>, k: nat)
    requires k < |rs|
    ensures rs[k].tag == tag ==> IndexOf(rs[k..], tag) == 0 && Looked(rs[k..], tag) == 1
    ensures rs[k].tag != tag && rs[k].tag == [] ==>
      IndexOf(rs[k..], tag) == |rs| - k && Looked(rs[k..], tag) == 1
    ensures rs[k].tag != tag && rs[k].tag != [] ==>
      && IndexOf(rs[k..], tag) == 1 + IndexOf(rs[k + 1..], tag)
      && Looked(rs[k..], tag) == 1 + Looked(rs[k + 1..], tag)
  {
    assert rs[k..][1..] == rs[k + 1..];
  }

  lemma SearchEnds(rs: seq<Record>, tag: seq<byte>)
    ensures rs[|rs|..] == [] && IndexOf([], tag) == 0 && Looked([], tag) == 0 && rs[0..] == rs
  {
  }

  /** Without empty tags a search finds the first record with the tag, if there is one. */
  lemma {:induction false} FindsFirst(rs: seq<Record>, tag: seq<byte>)
    requires !Sealed(rs)
    ensures forall i | 0 <= i < IndexOf(rs, tag) :: rs[i].tag != tag
    ensures Looked(rs, tag) == if IndexOf(rs, tag) < |rs| then IndexOf(rs, tag) + 1 else |rs|
  {
    if rs != [] {
      var rest := rs[1..];
      assert rs[0].tag != [];
      FindsFirst(rest, tag);
      forall i | 0 <= i < IndexOf(rs, tag) ensures rs[i].tag != tag {
        if i > 0 { assert rs[i] == rest[i - 1]; }
      }
    }
  }

  // ----- the layout

  lemma {:induction false} EncodeAllJoin(a: seq<Record>, b: seq<Record>)
    requires AllWellFormed(a) && AllWellFormed(b)
    ensures AllWellFormed(a + b) && EncodeAll(a + b) == EncodeAll(a) + EncodeAll(b)
  {
    hide Encode, WellFormed, EncodeAll;
    if b == [] {
      assert a + b == a;
      EncodeNone();
    } else {
      var n := |b| - 1;
      EncodeAllJoin(a, b[..n]);
      JoinBack(a, b);
      EncodeAllBack(b);
      EncodeAllBack(a + b);
    }
  }

  lemma EncodeNone()
    ensures EncodeAll([]) == []
  {
  }

  lemma JoinBack(a: seq<Record>, b: seq<Record>)
    requires b != []
    ensures (a + b)[..|a + b| - 1] == a + b[..|b| - 1] && (a + b)[|a + b| - 1] == b[|b| - 1]
  {
  }

  /** The bytes before, of, and after record k. */
  lemma SplitAtRecord(rs: seq<Record>, k: nat)
    requires AllWellFormed(rs) && k < |rs|
    ensures EncodeAll(rs) == EncodeAll(rs[..k]) + Encode(rs[k]) + EncodeAll(rs[k + 1..])
    ensures EncodeAll(rs[..k + 1]) == EncodeAll(rs[..k]) + Encode(rs[k])
    ensures Place(rs, k + 1) == Place(rs, k) + |Encode(rs[k])| <= Place(rs, |rs|)
  {
    hide Encode, EncodeAll, WellFormed;
    Cut(rs, k);
    EncodeAllBack(rs[..k + 1]);
    EncodeAllJoin(rs[..k + 1], rs[k + 1..]);
  }

  lemma Cut(rs: seq<Record>, k: nat)
    requires k < |rs|
    ensures rs[..k + 1][..k] == rs[..k] && rs[..k + 1] + rs[k + 1..] == rs && rs[..|rs|] == rs
  {
  }

  lemma EncodeAllBack(rs: seq<Record>)
    requires AllWellFormed(rs) && rs != []
    ensures EncodeAll(rs) == EncodeAll(rs[..|rs| - 1]) + Encode(rs[|rs| - 1])
  {
  }

  lemma EncodeOne(r: Record)
    requires WellFormed(r)
    ensures EncodeAll([r]) == Encode(r)
  {
    assert [r][..0] == [];
  }

  /** Record k lies in the buffer at its place. */
  lemma RecordThere(b: seq<byte>, rs: seq<Record>, k: nat)
    requires Represents(b, rs) && k < |rs|
    ensures Place(rs, k) + |Encode(rs[k])| == Place(rs, k + 1) <= End(b) <= |b|
    ensures b[Place(rs, k)..Place(rs, k) + |Encode(rs[k])|] == Encode(rs[k])
  {
    hide Encode, EncodeAll, Le32;
    SplitAtRecord(rs, k);
    assert rs[..|rs|] == rs;
    hide End;
    SliceMiddle(b, HEADER, EncodeAll(rs[..k]), Encode(rs[k]), EncodeAll(rs[k + 1..]));
  }

  /** What the functions read where record r is stored. */
  ghost predicate Fields(b: seq<byte>, p: nat, r: Record) {
    && p + |r.tag| + 4 + |r.data| <= |b|
    && StringAt(b, p) == r.tag
    && b[p + |r.tag| + 1] == r.kind
    && b[p + |r.tag| + 2] == |r.data| % 0x100 && b[p + |r.tag| + 3] == |r.data| / 0x100
    && b[p + |r.tag| + 4..p + |r.tag| + 4 + |r.data|] == r.data
  }

  lemma EncodedFields(b: seq<byte>, p: nat, r: Record)
    requires WellFormed(r) && p + |Encode(r)| <= |b| && b[p..p + |Encode(r)|] == Encode(r)
    ensures Fields(b, p, r)
  {
    hide StringAt;
    EncodedSlices(b, p, r);
    StringThere(b, p, r.tag);
  }

  lemma EncodedSlices(b: seq<byte>, p: nat, r: Record)
    requires WellFormed(r) && p + |Encode(r)| <= |b| && b[p..p + |Encode(r)|] == Encode(r)
    ensures b[p..p + |r.tag|] == r.tag
    ensures b[p + |r.tag|] == 0 && b[p + |r.tag| + 1] == r.kind
    ensures b[p + |r.tag| + 2] == |r.data| % 0x100 && b[p + |r.tag| + 3] == |r.data| / 0x100
    ensures b[p + |r.tag| + 4..p + |r.tag| + 4 + |r.data|] == r.data
  {
    hide WellFormed, Encode;
    var head := Head(r);
    EncodePieces(r);
    SliceMiddle(b, p, [], r.tag, head + r.data);
    SliceMiddle(b, p, r.tag, head, r.data);
    SliceMiddle(b, p, r.tag + head, r.data, []);
    HeadBytes(b, p + |r.tag|, head);
  }

  lemma EncodePieces(r: Record)
    requires WellFormed(r)
    ensures Encode(r) == [] + r.tag + (Head(r) + r.data)
    ensures Encode(r) == r.tag + Head(r) + r.data && Encode(r) == (r.tag + Head(r)) + r.data + []
  {
    hide Head, WellFormed;
  }

  lemma HeadBytes(b: seq<byte>, p: nat, head: seq<byte>)
    requires |head| == 4 && p + 4 <= |b| && b[p..p + 4] == head
    ensures b[p] == head[0] && b[p + 1] == head[1] && b[p + 2] == head[2] && b[p + 3] == head[3]
  {
  }

  lemma RecordFields(b: seq<byte>, rs: seq<Record>, k: nat)
    requires Represents(b, rs) && k < |rs|
    ensures Place(rs, k) + |Encode(rs[k])| == Place(rs, k + 1) <= End(b) <= |b|
    ensures Fields(b, Place(rs, k), rs[k])
  {
    hide Encode, EncodeAll, Le32, StringAt, Fields;
    RecordThere(b, rs, k);
    EncodedFields(b, Place(rs, k), rs[k]);
  }
}
