/**
 * The on-disk B-tree node record (`BTreeData`): after the 4-byte slot that
 * the chain loader keeps for itself come 62 child block addresses, the entry
 * count and 61 directory entries of three DWORDs each, all little-endian.
 * The record is read as one flat list of DWORDs and then split into fields.
 */
module Records {
  import opened Bytes

  /** Child slots per node (`0x3E`). */
  const BranchSlots: nat := 62
  /** Entry slots per node. */
  const EntrySlots: nat := 61
  /** DWORDs per directory entry: ID, head block, length. */
  const EntryWords: nat := 3
  /** DWORDs in a record after the loader's slot. */
  const RecordWords: nat := BranchSlots + 1 + EntryWords * EntrySlots
  /** Bytes loaded for a node: `sizeof(BTreeData) - sizeof(DWORD)`. */
  const RecordSize: nat := 4 * RecordWords
  /** Bytes of the whole node structure, the loader's slot included. */
  const NodeSize: nat := 4 + RecordSize

  /** A directory entry: a file's ID, the head block of its chain and its length in bytes. */
  datatype Entry = Entry(id: u32, blockHead: u32, length: u32)

  /** A decoded node record. */
  datatype Record = Record(branches: seq<u32>, entryCount: u32, entries: seq<Entry>)

  /** The record has exactly the slots of the on-disk layout. */
  predicate WellSized(r: Record) {
    |r.branches| == BranchSlots && |r.entries| == EntrySlots
  }

  /** A node is a leaf exactly when its first child slot is zero. */
  predicate IsLeaf(r: Record)
    requires WellSized(r)
  {
    r.branches[0] == 0
  }

  /** Number of children: none for a leaf, one more than the entries otherwise (a DWORD sum, so it wraps). */
  function BranchCount(r: Record): (n: u32)
    requires WellSized(r)
    ensures IsLeaf(r) ==> n == 0
    ensures !IsLeaf(r) && r.entryCount < 0xFFFF_FFFF ==> n == r.entryCount + 1
    ensures !IsLeaf(r) && r.entryCount == 0xFFFF_FFFF ==> n == 0
  {
    if IsLeaf(r) then 0 else (r.entryCount + 1) % 0x1_0000_0000
  }

  // ---- bytes and DWORD lists ----

  /** The DWORDs stored in `b`, four bytes each. */
  function Unwords(b: seq<byte>): (ws: seq<u32>)
    requires |b| % 4 == 0
    ensures |ws| == |b| / 4
  {
    if |b| == 0 then [] else [LE32(b[..4])] + Unwords(b[4..])
  }

  /** The bytes storing the DWORDs `ws`. */
  function Words(ws: seq<u32>): (b: seq<byte>)
    ensures |b| == 4 * |ws|
  {
    if ws == [] then [] else U32Bytes(ws[0]) + Words(ws[1..])
  }

  /** Storing DWORDs and reading them back gives the same DWORDs. */
  lemma {:induction false} UnwordsWords(ws: seq<u32>)
    ensures Unwords(Words(ws)) == ws
  {
    if ws != [] {
      var b := Words(ws);
      assert b[..4] == U32Bytes(ws[0]) && b[4..] == Words(ws[1..]);
      LE32RoundTrip(ws[0]);
      UnwordsWords(ws[1..]);
    }
  }

  /** Reading bytes as DWORDs and storing them again gives the same bytes. */
  lemma {:induction false} WordsUnwords(b: seq<byte>)
    requires |b| % 4 == 0
    ensures Words(Unwords(b)) == b
  {
    if b != [] {
      var ws := Unwords(b);
      assert ws[0] == LE32(b[..4]) && ws[1..] == Unwords(b[4..]);
      WordsUnwords(b[4..]);
      U32BytesRoundTrip(b[..4]);
      assert b == b[..4] + b[4..];
    }
  }

  // ---- DWORD lists and records ----

  /** The entries as a flat DWORD list, three per entry. */
  function Flatten(es: seq<Entry>): (ws: seq<u32>)
    ensures |ws| == EntryWords * |es|
  {
    if es == [] then [] else [es[0].id, es[0].blockHead, es[0].length] + Flatten(es[1..])
  }

  /** The entries stored three DWORDs each in `ws`. */
  function Unflatten(ws: seq<u32>): (es: seq<Entry>)
    requires |ws| % EntryWords == 0
    ensures |es| == |ws| / EntryWords
  {
    if |ws| == 0 then [] else [Entry(ws[0], ws[1], ws[2])] + Unflatten(ws[EntryWords..])
  }

  /** Flattening entries and reading them back gives the same entries. */
  lemma {:induction false} UnflattenFlatten(es: seq<Entry>)
    ensures Unflatten(Flatten(es)) == es
  {
    if es != [] {
      var ws := Flatten(es);
      assert ws[EntryWords..] == Flatten(es[1..]);
      UnflattenFlatten(es[1..]);
    }
  }

  /** Reading entries from DWORDs and flattening them again gives the same DWORDs. */
  lemma {:induction false} FlattenUnflatten(ws: seq<u32>)
    requires |ws| % EntryWords == 0
    ensures Flatten(Unflatten(ws)) == ws
  {
    if ws != [] {
      assert Unflatten(ws)[1..] == Unflatten(ws[EntryWords..]);
      FlattenUnflatten(ws[EntryWords..]);
      assert ws == ws[..EntryWords] + ws[EntryWords..];
    }
  }

  /** The record's DWORDs in storage order. */
  function Pack(r: Record): (ws: seq<u32>)
    requires WellSized(r)
    ensures |ws| == RecordWords
  {
    r.branches + [r.entryCount] + Flatten(r.entries)
  }

  /** The record stored in the DWORDs `ws`. */
  function Unpack(ws: seq<u32>): (r: Record)
    requires |ws| == RecordWords
    ensures WellSized(r)
  {
    Record(ws[..BranchSlots], ws[BranchSlots], Unflatten(ws[BranchSlots + 1..]))
  }

  /** Decodes the bytes a node load delivers. */
  function Decode(b: seq<byte>): (r: Record)
    requires |b| == RecordSize
    ensures WellSized(r)
  {
    Unpack(Unwords(b))
  }

  /** The bytes storing a record. */
  function Encode(r: Record): (b: seq<byte>)
    requires WellSized(r)
    ensures |b| == RecordSize
  {
    Words(Pack(r))
  }

  /** Every record of the layout is read back from its encoding: no two fields share bytes. */
  lemma DecodeEncode(r: Record)
    requires WellSized(r)
    ensures Decode(Encode(r)) == r
  {
    UnwordsWords(Pack(r));
    var ws := Pack(r);
    assert ws[BranchSlots + 1..] == Flatten(r.entries);
    UnflattenFlatten(r.entries);
  }

  /** Every byte of a loaded record belongs to some field: decoding loses nothing. */
  lemma EncodeDecode(b: seq<byte>)
    requires |b| == RecordSize
    ensures Encode(Decode(b)) == b
  {
    var ws := Unwords(b);
    FlattenUnflatten(ws[BranchSlots + 1..]);
    assert Pack(Unpack(ws)) == ws by {
      assert ws == ws[..BranchSlots] + [ws[BranchSlots]] + ws[BranchSlots + 1..];
    }
    WordsUnwords(b);
  }
}
