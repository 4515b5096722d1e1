/** Resource packs: a header, an index sorted by resource id, and the data. */
module DataPacks {
  import opened Prelude
  import opened PackBytes

  type Id = x: int | 0 <= x < 0x1_0000_0000

  type Resources = map<Id, seq<Byte>>

  const FILE_FORMAT_VERSION: nat := 1
  const HEADER_LENGTH: nat := 8
  const ENTRY_LENGTH: nat := 12

  // ---------- The file format ----------

  function EntryBytes(id: nat, offset: nat, length: nat): (b: seq<Byte>)
    ensures |b| == ENTRY_LENGTH
  {
    Word(id) + Word(offset) + Word(length)
  }

  /** The data of these resources, one after the other. */
  function DataOf(ids: seq<Id>, m: Resources): seq<Byte>
    requires forall id :: id in ids ==> id in m
  {
    if ids == [] then []
    else
      var n := |ids| - 1;
      DataOf(ids[..n], m) + m[ids[n]]
  }

  /** The index of these resources, whose data begins at `base`. */
  function IndexOf(ids: seq<Id>, m: Resources, base: nat): (b: seq<Byte>)
    requires forall id :: id in ids ==> id in m
    ensures |b| == ENTRY_LENGTH * |ids|
  {
    if ids == [] then []
    else
      var n := |ids| - 1;
      IndexOf(ids[..n], m, base) + EntryBytes(ids[n], base + |DataOf(ids[..n], m)|, |m[ids[n]]|)
  }

  function Header(count: nat): (b: seq<Byte>)
    ensures |b| == HEADER_LENGTH
  {
    Word(FILE_FORMAT_VERSION) + Word(count)
  }

  function Encode(ids: seq<Id>, m: Resources): seq<Byte>
    requires forall id :: id in ids ==> id in m
  {
    Header(|ids|) + IndexOf(ids, m, HEADER_LENGTH + ENTRY_LENGTH * |ids|) + DataOf(ids, m)
  }

  ghost predicate Increasing(ids: seq<Id>) {
    forall i, j :: 0 <= i < j < |ids| ==> ids[i] < ids[j]
  }

  /** The order in which a sorted container yields its keys. */
  ghost predicate IsOrderOf(ids: seq<Id>, keys: set<Id>) {
    Increasing(ids) && forall id :: id in ids <==> id in keys
  }

  lemma {:induction false} OrderLength(ids: seq<Id>, keys: set<Id>)
    requires IsOrderOf(ids, keys)
    ensures |ids| == |keys|
    decreases |ids|
  {
    if ids == [] {
      assert keys == {};
    } else {
      OrderWithoutLast(ids, keys);
      OrderLength(ids[..|ids| - 1], keys - {ids[|ids| - 1]});
    }
  }

  lemma {:induction false} OrderIsUnique(a: seq<Id>, b: seq<Id>, keys: set<Id>)
    requires IsOrderOf(a, keys) && IsOrderOf(b, keys)
    ensures a == b
    decreases |a|
  {
    hide Increasing, IsOrderOf;
    OrderLength(a, keys);
    OrderLength(b, keys);
    if a != [] {
      var m, n := |a| - 1, |b| - 1;
      LastIsLargest(a, keys);
      LastIsLargest(b, keys);
      OrderWithoutLast(a, keys);
      OrderWithoutLast(b, keys);
      OrderIsUnique(a[..m], b[..n], keys - {a[m]});
      assert a == a[..m] + [a[m]] && b == b[..n] + [b[n]];
    }
  }

  lemma LastIsLargest(ids: seq<Id>, keys: set<Id>)
    requires IsOrderOf(ids, keys) && ids != []
    ensures ids[|ids| - 1] in keys && forall id :: id in keys ==> id <= ids[|ids| - 1]
  {
  }

  lemma OrderWithoutLast(ids: seq<Id>, keys: set<Id>)
    requires IsOrderOf(ids, keys) && ids != []
    ensures IsOrderOf(ids[..|ids| - 1], keys - {ids[|ids| - 1]})
  {
    var n := |ids| - 1;
    assert ids == ids[..n] + [ids[n]];
  }

  // ---------- Reading entries ----------

  /** Where the entry with this number begins. */
  function EntryAt(i: nat): nat {
    HEADER_LENGTH + ENTRY_LENGTH * i
  }

  predicate HasEntries(file: seq<Byte>, count: nat) {
    EntryAt(count) <= |file|
  }

  function IdAt(file: seq<Byte>, i: nat): (id: Id)
    requires HasEntries(file, i + 1)
  {
    ReadWord(file, EntryAt(i))
  }

  function OffsetAt(file: seq<Byte>, i: nat): nat
    requires HasEntries(file, i + 1)
  {
    ReadWord(file, EntryAt(i) + WORD)
  }

  function LengthAt(file: seq<Byte>, i: nat): nat
    requires HasEntries(file, i + 1)
  {
    ReadWord(file, EntryAt(i) + 2 * WORD)
  }

  /** What Load checks: the bounds are added in 32 bits. */
  predicate Accepted(file: seq<Byte>)
    requires |file| >= HEADER_LENGTH
  {
    var count := ReadWord(file, WORD);
    && ReadWord(file, 0) == FILE_FORMAT_VERSION && HasEntries(file, count)
    && forall i :: 0 <= i < count ==> (OffsetAt(file, i) + LengthAt(file, i)) % UINT32_RANGE <= |file|
  }

  /** The entries lie in the file, and so do the bytes they point to. */
  ghost predicate InBounds(file: seq<Byte>, count: nat) {
    HasEntries(file, count) && forall i :: 0 <= i < count ==> OffsetAt(file, i) + LengthAt(file, i) <= |file|
  }

  ghost predicate SortedById(file: seq<Byte>, count: nat)
    requires HasEntries(file, count)
  {
    forall i, j :: 0 <= i < j < count ==> IdAt(file, i) < IdAt(file, j)
  }

  function PieceAt(file: seq<Byte>, i: nat): seq<Byte>
    requires HasEntries(file, i + 1) && OffsetAt(file, i) + LengthAt(file, i) <= |file|
  {
    file[OffsetAt(file, i)..OffsetAt(file, i) + LengthAt(file, i)]
  }

  /** An accepted file is in bounds if no sum of an offset and a length wraps around; and
      below four gigabytes, only then. */
  lemma AcceptedInBounds(file: seq<Byte>)
    requires |file| >= HEADER_LENGTH && Accepted(file)
    ensures var count := ReadWord(file, WORD);
            && HasEntries(file, count)
            && (NothingWraps(file, count) ==> InBounds(file, count))
            && (|file| < UINT32_RANGE ==> (InBounds(file, count) <==> NothingWraps(file, count)))
  {
    hide ReadWord, OffsetAt, LengthAt;
    var count := ReadWord(file, WORD);
    forall i | 0 <= i < count && OffsetAt(file, i) + LengthAt(file, i) < UINT32_RANGE
      ensures OffsetAt(file, i) + LengthAt(file, i) <= |file|
    {
      SmallModulo(OffsetAt(file, i) + LengthAt(file, i));
    }
  }

  predicate NothingWraps(file: seq<Byte>, count: nat)
    requires HasEntries(file, count)
  {
    forall i :: 0 <= i < count ==> OffsetAt(file, i) + LengthAt(file, i) < UINT32_RANGE
  }

  lemma SmallModulo(x: nat)
    requires x < UINT32_RANGE
    ensures x % UINT32_RANGE == x
  {
  }

  /** One entry with the offset 2^32 - 1 and the length 1: the sum wraps around to zero, so
      the file is accepted, and the entry points outside of it. */
  lemma WrappedEntryIsAccepted(id: Id)
    ensures var file := Header(1) + EntryBytes(id, UINT32_RANGE - 1, 1);
            |file| >= HEADER_LENGTH && Accepted(file) && !InBounds(file, ReadWord(file, WORD))
  {
    hide Word, ReadWord, EntryBytes, Header, OffsetAt, LengthAt, IdAt;
    var file := Header(1) + EntryBytes(id, UINT32_RANGE - 1, 1);
    HeaderReads(1, EntryBytes(id, UINT32_RANGE - 1, 1));
    assert file[EntryAt(0)..EntryAt(1)] == EntryBytes(id, UINT32_RANGE - 1, 1);
    EntryReads(file, 0, id, UINT32_RANGE - 1, 1);
    assert OffsetAt(file, 0) + LengthAt(file, 0) == UINT32_RANGE;
  }

  lemma HeaderReads(count: nat, rest: seq<Byte>)
    requires count < UINT32_RANGE
    ensures ReadWord(Header(count) + rest, 0) == FILE_FORMAT_VERSION && ReadWord(Header(count) + rest, WORD) == count
  {
    hide Word, ReadWord;
    var file := Header(count) + rest;
    assert file[0..0 + WORD] == Word(FILE_FORMAT_VERSION) && file[WORD..WORD + WORD] == Word(count);
    ReadWordInside(file, 0, FILE_FORMAT_VERSION);
    ReadWordInside(file, WORD, count);
  }

  // ---------- The round trip ----------

  lemma {:induction false} IndexEntry(ids: seq<Id>, m: Resources, base: nat, i: nat)
    requires (forall id :: id in ids ==> id in m) && i < |ids|
    ensures IndexOf(ids, m, base)[ENTRY_LENGTH * i..ENTRY_LENGTH * (i + 1)] ==
            EntryBytes(ids[i], base + |DataOf(ids[..i], m)|, |m[ids[i]]|)
    decreases |ids|
  {
    hide EntryBytes, IndexOf, DataOf;
    var n := |ids| - 1;
    var before := IndexOf(ids[..n], m, base);
    var entry := EntryBytes(ids[n], base + |DataOf(ids[..n], m)|, |m[ids[n]]|);
    IndexOneMore(ids, m, base, n);
    assert ids[..n + 1] == ids;
    if i < n {
      IndexEntry(ids[..n], m, base, i);
      assert ids[..n][..i] == ids[..i];
      SliceOfFirst(before, entry, ENTRY_LENGTH * i, ENTRY_LENGTH * (i + 1));
    } else {
      SliceOfSecond(before, entry);
    }
  }

  lemma SliceOfFirst(a: seq<Byte>, b: seq<Byte>, from: nat, to: nat)
    requires from <= to <= |a|
    ensures (a + b)[from..to] == a[from..to]
  {
  }

  lemma SliceOfSecond(a: seq<Byte>, b: seq<Byte>)
    ensures (a + b)[|a|..|a| + |b|] == b
  {
  }

  lemma {:induction false} DataPiece(ids: seq<Id>, m: Resources, i: nat)
    requires (forall id :: id in ids ==> id in m) && i < |ids|
    ensures var from := |DataOf(ids[..i], m)|;
            && from + |m[ids[i]]| <= |DataOf(ids, m)|
            && DataOf(ids, m)[from..from + |m[ids[i]]|] == m[ids[i]]
    decreases |ids|
  {
    var n := |ids| - 1;
    if i < n {
      DataPiece(ids[..n], m, i);
      assert ids[..n][..i] == ids[..i];
    }
  }

  lemma EncodedHeader(ids: seq<Id>, m: Resources)
    requires (forall id :: id in ids ==> id in m) && |ids| < UINT32_RANGE
    ensures |Encode(ids, m)| == EntryAt(|ids|) + |DataOf(ids, m)|
    ensures ReadWord(Encode(ids, m), 0) == FILE_FORMAT_VERSION && ReadWord(Encode(ids, m), WORD) == |ids|
  {
    hide Word, ReadWord, IndexOf, DataOf;
    var file := Encode(ids, m);
    assert file[..WORD] == Word(FILE_FORMAT_VERSION) && file[WORD..WORD + WORD] == Word(|ids|);
    ReadWordInside(file, 0, FILE_FORMAT_VERSION);
    ReadWordInside(file, WORD, |ids|);
  }

  lemma EntryReads(file: seq<Byte>, i: nat, id: nat, offset: nat, length: nat)
    requires HasEntries(file, i + 1) && id < UINT32_RANGE && offset < UINT32_RANGE && length < UINT32_RANGE
    requires file[EntryAt(i)..EntryAt(i + 1)] == EntryBytes(id, offset, length)
    ensures IdAt(file, i) == id && OffsetAt(file, i) == offset && LengthAt(file, i) == length
  {
    hide Word, ReadWord;
    var at := EntryAt(i);
    EntryParts(id, offset, length);
    SliceOfSlice(file, at, at + ENTRY_LENGTH, 0, WORD);
    SliceOfSlice(file, at, at + ENTRY_LENGTH, WORD, 2 * WORD);
    SliceOfSlice(file, at, at + ENTRY_LENGTH, 2 * WORD, 3 * WORD);
    ReadWordInside(file, at, id);
    ReadWordInside(file, at + WORD, offset);
    ReadWordInside(file, at + 2 * WORD, length);
  }

  lemma EntryParts(id: nat, offset: nat, length: nat)
    ensures EntryBytes(id, offset, length)[0..WORD] == Word(id)
    ensures EntryBytes(id, offset, length)[WORD..2 * WORD] == Word(offset)
    ensures EntryBytes(id, offset, length)[2 * WORD..3 * WORD] == Word(length)
  {
    hide Word;
  }

  /** Each entry of a written pack leads to its resource. */
  lemma EncodedEntry(ids: seq<Id>, m: Resources, i: nat)
    requires (forall id :: id in ids ==> id in m) && i < |ids| && |Encode(ids, m)| < UINT32_RANGE
    ensures HasEntries(Encode(ids, m), i + 1) && IdAt(Encode(ids, m), i) == ids[i]
    ensures OffsetAt(Encode(ids, m), i) + LengthAt(Encode(ids, m), i) <= |Encode(ids, m)|
    ensures PieceAt(Encode(ids, m), i) == m[ids[i]]
  {
    hide IndexOf, DataOf, Header, EntryBytes, IdAt, OffsetAt, LengthAt;
    var base := HEADER_LENGTH + ENTRY_LENGTH * |ids|;
    var header, index, data := Header(|ids|), IndexOf(ids, m, base), DataOf(ids, m);
    var file := Encode(ids, m);
    IndexEntry(ids, m, base, i);
    DataPiece(ids, m, i);
    var offset, length := |DataOf(ids[..i], m)|, |m[ids[i]]|;
    assert file[EntryAt(i)..EntryAt(i + 1)] == index[ENTRY_LENGTH * i..ENTRY_LENGTH * (i + 1)];
    EntryReads(file, i, ids[i], base + offset, length);
    assert file[base + offset..base + offset + length] == data[offset..offset + length];
  }

  /** A pack of less than four gigabytes is accepted, can be searched, and holds exactly
      its resources. */
  lemma PackedIsFound(ids: seq<Id>, m: Resources)
    requires IsOrderOf(ids, m.Keys) && |Encode(ids, m)| < UINT32_RANGE
    ensures var file := Encode(ids, m);
            && |file| >= HEADER_LENGTH && ReadWord(file, WORD) == |ids|
            && Accepted(file) && InBounds(file, |ids|) && SortedById(file, |ids|)
            && (forall i :: 0 <= i < |ids| ==> IdAt(file, i) in m && PieceAt(file, i) == m[IdAt(file, i)])
            && (forall id :: id in m ==> exists i :: 0 <= i < |ids| && IdAt(file, i) == id)
  {
    hide Encode, ReadWord, IdAt, OffsetAt, LengthAt, PieceAt;
    var file := Encode(ids, m);
    EncodedSize(ids, m);
    EncodedHeader(ids, m);
    forall i | 0 <= i < |ids|
      ensures HasEntries(file, i + 1) && IdAt(file, i) == ids[i]
      ensures OffsetAt(file, i) + LengthAt(file, i) <= |file| && PieceAt(file, i) == m[ids[i]]
    {
      EncodedEntry(ids, m, i);
    }
    forall id | id in m
      ensures exists i :: 0 <= i < |ids| && IdAt(file, i) == id
    {
      var i :| 0 <= i < |ids| && ids[i] == id;
      assert IdAt(file, i) == id;
    }
  }

  lemma EncodedSize(ids: seq<Id>, m: Resources)
    requires forall id :: id in ids ==> id in m
    ensures |Encode(ids, m)| >= EntryAt(|ids|)
  {
  }

  // ---------- Writing ----------

  /** The keys of a sorted container, in order. */
  method KeysInOrder(m: Resources) returns (ids: seq<Id>)
    ensures IsOrderOf(ids, m.Keys)
  {
    ids := [];
    var rest := m.Keys;
    while rest != {}
      invariant rest <= m.Keys && IsOrderOf(ids, m.Keys - rest)
      decreases rest
    {
      var id :| id in rest;
      ids := Inserted(ids, id, m.Keys - rest);
      rest := rest - {id};
      assert m.Keys - rest == m.Keys - (rest + {id}) + {id};
    }
  }

  method Inserted(ids: seq<Id>, id: Id, ghost keys: set<Id>) returns (more: seq<Id>)
    requires IsOrderOf(ids, keys) && id !in keys
    ensures IsOrderOf(more, keys + {id})
  {
    var k: nat := |ids|;
    while k > 0 && id < ids[k - 1]
      invariant k <= |ids| && forall j :: k <= j < |ids| ==> id < ids[j]
    {
      k := k - 1;
    }
    more := ids[..k] + [id] + ids[k..];
    InsertedInOrder(ids, id, k, keys);
  }

  lemma InsertedInOrder(ids: seq<Id>, id: Id, k: nat, keys: set<Id>)
    requires IsOrderOf(ids, keys) && id !in keys && k <= |ids|
    requires (forall j :: k <= j < |ids| ==> id < ids[j]) && (k > 0 ==> ids[k - 1] <= id)
    ensures IsOrderOf(ids[..k] + [id] + ids[k..], keys + {id})
  {
    assert forall j :: 0 <= j < |ids| ==> ids[j] in ids && ids[j] != id;
    assert forall i :: 0 <= i < k ==> ids[i] <= ids[k - 1];
    InsertedIncreasing(ids, id, k);
    InsertedMembers(ids, id, k);
  }

  lemma InsertedMembers(ids: seq<Id>, id: Id, k: nat)
    requires k <= |ids|
    ensures forall x :: x in ids[..k] + [id] + ids[k..] <==> x in ids || x == id
  {
    assert ids == ids[..k] + ids[k..];
    assert forall x :: x in ids <==> x in ids[..k] || x in ids[k..];
  }

  lemma InsertedIncreasing(ids: seq<Id>, id: Id, k: nat)
    requires Increasing(ids) && k <= |ids|
    requires (forall i :: 0 <= i < k ==> ids[i] < id) && (forall i :: k <= i < |ids| ==> id < ids[i])
    ensures Increasing(ids[..k] + [id] + ids[k..])
  {
    var more := ids[..k] + [id] + ids[k..];
    assert |more| == |ids| + 1 && more[k] == id;
    assert forall i :: 0 <= i < k ==> more[i] == ids[i];
    assert forall i :: k < i < |more| ==> more[i] == ids[i - 1];
  }

  lemma IndexOneMore(ids: seq<Id>, m: Resources, base: nat, i: nat)
    requires (forall id :: id in ids ==> id in m) && i < |ids|
    ensures IndexOf(ids[..i + 1], m, base) == IndexOf(ids[..i], m, base) +
              EntryBytes(ids[i], base + |DataOf(ids[..i], m)|, |m[ids[i]]|)
    ensures DataOf(ids[..i + 1], m) == DataOf(ids[..i], m) + m[ids[i]]
  {
    assert ids[..i + 1][..i] == ids[..i];
  }

  /** Entries are written with truncated numbers. */
  lemma EntryTruncates(id: Id, offset: nat, length: nat)
    ensures Word(id) + Word(offset % UINT32_RANGE) + Word(length % UINT32_RANGE) == EntryBytes(id, offset, length)
  {
    hide Word;
    WordTruncates(offset);
    WordTruncates(length);
  }

  lemma WrapsOnce(x: nat, y: nat)
    ensures (x % UINT32_RANGE + y % UINT32_RANGE) % UINT32_RANGE == (x + y) % UINT32_RANGE
  {
  }

  lemma DataOffsetStarts(count: nat)
    ensures (HEADER_LENGTH + count % UINT32_RANGE * 3 * WORD % UINT32_RANGE) % UINT32_RANGE ==
            (HEADER_LENGTH + ENTRY_LENGTH * count) % UINT32_RANGE
  {
    var q := count / UINT32_RANGE;
    assert ENTRY_LENGTH * count == count % UINT32_RANGE * 3 * WORD + UINT32_RANGE * (ENTRY_LENGTH * q);
  }

  lemma NothingEncoded(m: Resources, base: nat)
    ensures IndexOf([], m, base) == [] && DataOf([], m) == []
  {
  }

  lemma AppendEntry(header: seq<Byte>, index: seq<Byte>, a: seq<Byte>, b: seq<Byte>, c: seq<Byte>)
    ensures header + index + a + b + c == header + (index + (a + b + c))
  {
  }

  lemma AppendData(front: seq<Byte>, data: seq<Byte>, value: seq<Byte>)
    ensures front + data + value == front + (data + value)
  {
  }

  /** Writes a pack, or fails at the first empty resource: the bytes of each are written as
      one item, and writing an item of size zero counts as writing none. */
  method WritePack(resources: Resources) returns (ok: bool, file: seq<Byte>)
    ensures ok <==> forall id :: id in resources ==> resources[id] != []
    ensures ok ==> forall ids :: IsOrderOf(ids, resources.Keys) ==> file == Encode(ids, resources)
  {
    hide Word, EntryBytes, IndexOf, DataOf, Increasing;
    var ids := KeysInOrder(resources);
    OrderLength(ids, resources.Keys);
    file := Word(FILE_FORMAT_VERSION);
    var entryCount := |resources| % UINT32_RANGE;
    file := file + Word(entryCount);
    WordTruncates(|resources|);

    // Each entry is three words.
    var indexLength := entryCount * 3 * WORD % UINT32_RANGE;
    var dataOffset := (HEADER_LENGTH + indexLength) % UINT32_RANGE;
    ghost var base := HEADER_LENGTH + ENTRY_LENGTH * |ids|;
    DataOffsetStarts(|ids|);
    NothingEncoded(resources, base);
    var i := 0;
    while i < |ids|
      invariant i <= |ids| && dataOffset == (base + |DataOf(ids[..i], resources)|) % UINT32_RANGE
      invariant file == Header(|ids|) + IndexOf(ids[..i], resources, base)
    {
      var value := resources[ids[i]];
      IndexOneMore(ids, resources, base, i);
      EntryTruncates(ids[i], base + |DataOf(ids[..i], resources)|, |value|);
      var len := |value| % UINT32_RANGE;
      WrapsOnce(base + |DataOf(ids[..i], resources)|, |value|);
      AppendEntry(Header(|ids|), IndexOf(ids[..i], resources, base), Word(ids[i]), Word(dataOffset), Word(len));
      file := file + Word(ids[i]) + Word(dataOffset) + Word(len);
      dataOffset := (dataOffset + len) % UINT32_RANGE;
      i := i + 1;
    }
    assert ids[..|ids|] == ids;
    i := 0;
    while i < |ids|
      invariant i <= |ids| && forall k :: 0 <= k < i ==> resources[ids[k]] != []
      invariant file == Header(|ids|) + IndexOf(ids, resources, base) + DataOf(ids[..i], resources)
    {
      IndexOneMore(ids, resources, base, i);
      var value := resources[ids[i]];
      if |value| == 0 {
        return false, file;
      }
      AppendData(Header(|ids|) + IndexOf(ids, resources, base), DataOf(ids[..i], resources), value);
      file := file + value;
      i := i + 1;
    }
    ok := true;
    forall order | IsOrderOf(order, resources.Keys)
      ensures file == Encode(order, resources)
    {
      OrderIsUnique(order, ids, resources.Keys);
    }
  }

  // ---------- Reading ----------

  /** The word at a position; beyond the end of the file it may be anything. */
  method ParseWord(file: seq<Byte>, at: nat) returns (x: nat)
    ensures x < UINT32_RANGE && (at + WORD <= |file| ==> x == ReadWord(file, at))
  {
    if at + WORD <= |file| {
      x := ReadWord(file, at);
    } else {
      x :| x < UINT32_RANGE;
    }
  }

  /** A piece of a file, which need not lie inside of it. */
  datatype StringPiece = StringPiece(offset: nat, length: nat)
  {
    predicate LiesIn(file: seq<Byte>) {
      offset + length <= |file|
    }

    function Bytes(file: seq<Byte>): seq<Byte>
      requires LiesIn(file)
    {
      file[offset..offset + length]
    }
  }

  class DataPack {
    var mmap: Option<seq<Byte>>
    var resourceCount: nat

    constructor ()
      ensures mmap == None && resourceCount == 0
    {
      mmap, resourceCount := None, 0;
    }

    /** Accepts a file whose version is known and whose entries lie inside of it. Of a file
        that is too short for a header, whatever lies behind it is parsed. */
    method Load(file: seq<Byte>) returns (ok: bool)
      modifies this
      ensures ok <==> |file| >= HEADER_LENGTH && Accepted(file)
      ensures ok ==> mmap == Some(file) && resourceCount == ReadWord(file, WORD)
      ensures !ok ==> mmap == None
    {
      hide ReadWord;
      mmap := Some(file);
      var version := ParseWord(file, 0);
      if version != FILE_FORMAT_VERSION {
        mmap := None;
        return false;
      }
      resourceCount := ParseWord(file, WORD);
      if HEADER_LENGTH + resourceCount * ENTRY_LENGTH > |file| {
        mmap := None;
        return false;
      }
      var i := 0;
      while i < resourceCount
        invariant i <= resourceCount && mmap == Some(file)
        invariant forall k :: 0 <= k < i ==> (OffsetAt(file, k) + LengthAt(file, k)) % UINT32_RANGE <= |file|
      {
        if (OffsetAt(file, i) + LengthAt(file, i)) % UINT32_RANGE > |file| {
          mmap := None;
          return false;
        }
        i := i + 1;
      }
      ok := true;
    }

    /** The piece that an entry with the id names, by binary search; in a sorted file there is
        one if and only if it is found. It lies in the file if the entries do. */
    method GetStringPiece(id: Id) returns (piece: Option<StringPiece>)
      requires mmap.Some? && HasEntries(mmap.value, resourceCount)
      ensures piece.Some? ==> exists i :: 0 <= i < resourceCount && IdAt(mmap.value, i) == id &&
                                          piece.value == StringPiece(OffsetAt(mmap.value, i), LengthAt(mmap.value, i))
      ensures piece.None? && SortedById(mmap.value, resourceCount) ==>
                forall i :: 0 <= i < resourceCount ==> IdAt(mmap.value, i) != id
      ensures piece.Some? && InBounds(mmap.value, resourceCount) ==> piece.value.LiesIn(mmap.value)
    {
      hide IdAt, OffsetAt, LengthAt;
      var file := mmap.value;
      var lo: nat, hi: nat := 0, resourceCount;
      while lo < hi
        invariant lo <= hi <= resourceCount
        invariant SortedById(file, resourceCount) ==> forall i :: 0 <= i < lo ==> IdAt(file, i) < id
        invariant SortedById(file, resourceCount) ==> forall i :: hi <= i < resourceCount ==> id < IdAt(file, i)
      {
        var mid := (lo + hi) / 2;
        if id < IdAt(file, mid) {
          hi := mid;
        } else if id > IdAt(file, mid) {
          lo := mid + 1;
        } else {
          return Some(StringPiece(OffsetAt(file, mid), LengthAt(file, mid)));
        }
      }
      piece := None;
    }
  }

  /** Resources that were written and loaded again are found by their ids, with the same
      data, and nothing else is found. */
  method WriteLoadGet(resources: Resources, id: Id) returns (piece: Option<seq<Byte>>)
    requires forall k :: k in resources ==> resources[k] != []
    requires forall ids :: IsOrderOf(ids, resources.Keys) ==> |Encode(ids, resources)| < UINT32_RANGE
    ensures piece == Lookup(resources, id)
  {
    hide Encode, ReadWord, Accepted, SortedById, IdAt, OffsetAt, LengthAt;
    var written, file := WritePack(resources);
    var ids := KeysInOrder(resources);
    PackedIsFound(ids, resources);
    var pack := new DataPack();
    var loaded := pack.Load(file);
    var found := pack.GetStringPiece(id);
    piece := if found.None? then None else Some(found.value.Bytes(file));
  }

  /** A single empty resource is enough to make writing fail. */
  method EmptyResourceIsRefused(id: Id) returns (ok: bool)
    ensures !ok
  {
    var resources: Resources := map[id := []];
    assert id in resources;
    var file;
    ok, file := WritePack(resources);
  }

  // ---------- A pack, byte by byte ----------

  const TWO_RESOURCES: Resources := map[3 := [8, 9], 1 := [7]]

  const TWO_RESOURCES_FILE: seq<Byte> :=
    [1, 0, 0, 0, 2, 0, 0, 0,
     1, 0, 0, 0, 32, 0, 0, 0, 1, 0, 0, 0,
     3, 0, 0, 0, 33, 0, 0, 0, 2, 0, 0, 0,
     7, 8, 9]

  lemma SmallWord(x: nat)
    requires x < 256
    ensures Word(x) == [x, 0, 0, 0]
  {
  }

  lemma SmallEntry(id: nat, offset: nat, length: nat)
    requires id < 256 && offset < 256 && length < 256
    ensures EntryBytes(id, offset, length) == [id, 0, 0, 0, offset, 0, 0, 0, length, 0, 0, 0]
  {
    SmallWord(id);
    SmallWord(offset);
    SmallWord(length);
  }

  lemma TwoResourcesIndexed()
    ensures IndexOf([1, 3], TWO_RESOURCES, 32) == EntryBytes(1, 32, 1) + EntryBytes(3, 33, 2)
    ensures DataOf([1, 3], TWO_RESOURCES) == [7, 8, 9]
  {
    hide Word, EntryBytes;
    var m, ids: seq<Id> := TWO_RESOURCES, [1, 3];
    assert ids[..0] == [] && ids[..1] == [1] && ids[..2] == ids;
    NothingEncoded(m, 32);
    IndexOneMore(ids, m, 32, 0);
    IndexOneMore(ids, m, 32, 1);
  }

  lemma TwoResourcesInOrder()
    ensures IsOrderOf([1, 3], TWO_RESOURCES.Keys)
  {
  }

  lemma JoinedBytes(header: seq<Byte>, one: seq<Byte>, three: seq<Byte>)
    requires header == [1, 0, 0, 0, 2, 0, 0, 0]
    requires one == [1, 0, 0, 0, 32, 0, 0, 0, 1, 0, 0, 0] && three == [3, 0, 0, 0, 33, 0, 0, 0, 2, 0, 0, 0]
    ensures header + (one + three) + [7, 8, 9] == TWO_RESOURCES_FILE
  {
  }

  lemma TwoResourcesEncoded()
    ensures IsOrderOf([1, 3], TWO_RESOURCES.Keys) && Encode([1, 3], TWO_RESOURCES) == TWO_RESOURCES_FILE
  {
    hide Word, EntryBytes, IndexOf, DataOf, IsOrderOf;
    TwoResourcesInOrder();
    TwoResourcesIndexed();
    SmallEntry(1, 32, 1);
    SmallEntry(3, 33, 2);
    SmallWord(1);
    SmallWord(2);
    JoinedBytes(Header(2), EntryBytes(1, 32, 1), EntryBytes(3, 33, 2));
  }

  /** Two resources are written as exactly these bytes, the low byte of each word first. */
  method WriteTwoResources() returns (ok: bool, file: seq<Byte>)
    ensures ok && file == [1, 0, 0, 0, 2, 0, 0, 0,
                           1, 0, 0, 0, 32, 0, 0, 0, 1, 0, 0, 0,
                           3, 0, 0, 0, 33, 0, 0, 0, 2, 0, 0, 0,
                           7, 8, 9]
  {
    hide Encode, Word;
    TwoResourcesEncoded();
    ok, file := WritePack(TWO_RESOURCES);
  }

  /** And they are read from these bytes. */
  method ReadTwoResources() returns (one: seq<Byte>, two: bool, three: seq<Byte>)
    ensures one == [7] && !two && three == [8, 9]
  {
    hide Encode, Word, ReadWord, Accepted, SortedById, IdAt, OffsetAt, LengthAt;
    TwoResourcesEncoded();
    PackedIsFound([1, 3], TWO_RESOURCES);
    var file := [1, 0, 0, 0, 2, 0, 0, 0, 1, 0, 0, 0, 32, 0, 0, 0, 1, 0, 0, 0,
                 3, 0, 0, 0, 33, 0, 0, 0, 2, 0, 0, 0, 7, 8, 9];
    assert file == TWO_RESOURCES_FILE;
    var pack := new DataPack();
    var loaded := pack.Load(file);
    assert loaded && 1 in TWO_RESOURCES && 3 in TWO_RESOURCES && 2 !in TWO_RESOURCES;
    var piece1 := pack.GetStringPiece(1);
    var piece2 := pack.GetStringPiece(2);
    var piece3 := pack.GetStringPiece(3);
    one, two, three := piece1.value.Bytes(file), piece2.Some?, piece3.value.Bytes(file);
  }

  const OTHER_VERSION: seq<Byte> := [2, 0, 0, 0, 0, 0, 0, 0]
  const NO_INDEX: seq<Byte> := [1, 0, 0, 0, 1, 0, 0, 0]
  const TOO_FAR: seq<Byte> := [1, 0, 0, 0, 1, 0, 0, 0, 1, 0, 0, 0, 20, 0, 0, 0, 2, 0, 0, 0, 7]
  const NO_RESOURCE: seq<Byte> := [1, 0, 0, 0, 0, 0, 0, 0]

  lemma WordsRead()
    ensures ReadWord(OTHER_VERSION, 0) == 2
    ensures ReadWord(NO_INDEX, WORD) == 1
    ensures ReadWord(TOO_FAR, WORD) == 1 && OffsetAt(TOO_FAR, 0) == 20 && LengthAt(TOO_FAR, 0) == 2
    ensures ReadWord(NO_RESOURCE, 0) == 1 && ReadWord(NO_RESOURCE, WORD) == 0
  {
  }

  /** A file of another version, one without its index, and one with an entry that points one
      byte too far are refused; a pack without resources is not. */
  method RefuseFiles() returns (version: bool, index: bool, entry: bool, nothing: bool)
    ensures !version && !index && !entry && nothing
  {
    hide ReadWord, OffsetAt, LengthAt;
    WordsRead();
    var pack := new DataPack();
    version := pack.Load(OTHER_VERSION);
    index := pack.Load(NO_INDEX);
    entry := pack.Load(TOO_FAR);
    nothing := pack.Load(NO_RESOURCE);
  }
}
