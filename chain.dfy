/**
 * Block chains: the on-disk unit of the archive. Every payload, and every
 * B-tree node, is stored as a singly linked chain of blocks. A block starts
 * with a 4-byte successor pointer; bit 31 of that pointer flags the chain as
 * corrupt, the low 31 bits are the next block's byte offset, 0 ends the chain.
 *
 * `Chain` is the reference walk: it reads the successor pointer of each block
 * into a local value and keeps only the payload bytes. The in-place loop of
 * the block loader (module Loader) is proved equal to it.
 */
module Chains {
  import opened Wrappers
  import opened Bytes

  /** The two header fields the core uses: bytes per block and the B-tree root's address. */
  datatype Header = Header(blockSize: u32, treeOrigin: u32)

  /** A header whose block size leaves room for payload after the pointer field. */
  predicate Usable(h: Header) {
    h.blockSize > 4
  }

  /**
   * The archive file as the device sees it: for each address a chain may
   * point at, the bytes stored from that offset on. A read of `size` bytes at
   * `address` succeeds only when that many bytes are there.
   */
  type Disk = map<u32, seq<byte>>

  /** The bytes a device read of `size` bytes at `address` delivers: all of them, or what is left before the end. */
  function Delivered(file: Disk, address: u32, size: nat): (r: seq<byte>)
    ensures |r| <= size
  {
    if address !in file then []
    else if size <= |file[address]| then file[address][..size]
    else file[address]
  }

  /** A complete read: exactly `size` bytes, or nothing. */
  function ReadAt(file: Disk, address: u32, size: nat): (r: Option<seq<byte>>)
    ensures r.Some? ==> |r.value| == size
  {
    if address in file && size <= |file[address]| then Some(file[address][..size]) else None
  }

  /** A read of at least one byte is complete exactly when the device delivers every byte asked for. */
  lemma ReadDelivered(file: Disk, address: u32, size: nat)
    requires size > 0
    ensures ReadAt(file, address, size).Some? <==> |Delivered(file, address, size)| == size
    ensures ReadAt(file, address, size).Some? ==> ReadAt(file, address, size).value == Delivered(file, address, size)
  {
  }

  /** One device read made while following a chain. */
  datatype BlockRead = BlockRead(address: u32, size: nat)

  /** What a chain load produces: success, the payload bytes gathered, and the reads made. */
  datatype ChainLoad = ChainLoad(ok: bool, payload: seq<byte>, trace: seq<BlockRead>)

  /** The successor pointer stored at the front of the bytes a read returned (0 if the read failed). */
  function Successor(file: Disk, rd: BlockRead): u32 {
    match ReadAt(file, rd.address, rd.size)
    case Some(b) => if |b| >= 4 then LE32(b) else 0
    case None => 0
  }

  /** The read succeeded and the successor pointer it returned is not flagged. */
  predicate Clean(file: Disk, rd: BlockRead) {
    rd.size >= 4 && ReadAt(file, rd.address, rd.size).Some? && Successor(file, rd) < HighBit
  }

  /** Every read but the last was clean, and each next read is at the address its predecessor named. */
  predicate Follows(file: Disk, trace: seq<BlockRead>) {
    |trace| <= 1 ||
    (Clean(file, trace[0]) && Successor(file, trace[0]) == trace[1].address && Follows(file, trace[1..]))
  }

  /** The payload part (after the pointer field) of every successful read, in order. */
  function Payloads(file: Disk, trace: seq<BlockRead>): seq<byte> {
    if trace == [] then []
    else
      var here := match ReadAt(file, trace[0].address, trace[0].size)
        case Some(b) => if |b| >= 4 then b[4..] else []
        case None => [];
      here + Payloads(file, trace[1..])
  }

  /** The load reads a full, clean, non-final block at `block` and goes on to its successor. */
  predicate Continues(file: Disk, blockSize: u32, block: u32, remaining: nat) {
    && remaining > blockSize - 4 && block != 0
    && ReadAt(file, block, blockSize).Some? && |ReadAt(file, block, blockSize).value| >= 4
    && LE32(ReadAt(file, block, blockSize).value) < HighBit
  }

  /**
   * Loading `remaining` bytes from the chain that starts at `block`.
   * A zero length succeeds with no read. Each block contributes
   * `blockSize - 4` bytes, the last one only what is still missing; a missing
   * block, a short read or a flagged successor fails the load, and no block is
   * read after the failing one.
   */
  function Chain(file: Disk, blockSize: u32, block: u32, remaining: nat): (r: ChainLoad)
    requires blockSize > 4
    ensures |r.payload| <= remaining
    ensures r.ok ==> |r.payload| == remaining
    decreases remaining
  {
    if Continues(file, blockSize, block, remaining) then
      var bytes := ReadAt(file, block, blockSize).value;
      var rest := Chain(file, blockSize, LE32(bytes), remaining - (blockSize - 4));
      ChainLoad(rest.ok, bytes[4..] + rest.payload, [BlockRead(block, blockSize)] + rest.trace)
    else
      Stop(file, blockSize, block, remaining)
  }

  /** A load that does not go past its first block. */
  function Stop(file: Disk, blockSize: u32, block: u32, remaining: nat): (r: ChainLoad)
    requires blockSize > 4
    ensures |r.payload| <= remaining
    ensures r.ok ==> |r.payload| == remaining
  {
    if remaining == 0 then ChainLoad(true, [], [])
    else if block == 0 then ChainLoad(false, [], [])
    else
      var n := if blockSize - 4 > remaining then remaining else blockSize - 4;
      var rd := BlockRead(block, n + 4);
      match ReadAt(file, block, n + 4)
      case None => ChainLoad(false, [], [rd])
      case Some(bytes) =>
        ChainLoad(n == remaining && LE32(bytes) < HighBit, bytes[4..], [rd])
  }

  /** The payload of a chain load is the concatenation of the payload parts of its reads. */
  lemma {:induction false} ChainPayloads(file: Disk, blockSize: u32, block: u32, remaining: nat)
    requires blockSize > 4
    ensures var r := Chain(file, blockSize, block, remaining);
      r.payload == Payloads(file, r.trace)
    decreases remaining
  {
    if Continues(file, blockSize, block, remaining) {
      var bytes := ReadAt(file, block, blockSize).value;
      var next := LE32(bytes);
      var rest := Chain(file, blockSize, next, remaining - (blockSize - 4));
      var r := Chain(file, blockSize, block, remaining);
      ChainPayloads(file, blockSize, next, remaining - (blockSize - 4));
      ChainStep(file, blockSize, block, remaining, bytes);
      PayloadsCons(file, BlockRead(block, blockSize), bytes, rest.trace);
      assert r.trace == [BlockRead(block, blockSize)] + rest.trace;
      assert r.payload == bytes[4..] + rest.payload;
    } else {
      ChainStopPayload(file, blockSize, block, remaining);
    }
  }

  /** A successful read in front of a trace contributes its payload part first. */
  lemma PayloadsCons(file: Disk, rd: BlockRead, bytes: seq<byte>, rest: seq<BlockRead>)
    requires rd.size >= 4 && ReadAt(file, rd.address, rd.size) == Some(bytes)
    ensures Payloads(file, [rd] + rest) == bytes[4..] + Payloads(file, rest)
  {
    assert ([rd] + rest)[1..] == rest;
  }

  /** The payload of a load that stops at its first block is that block's payload part. */
  lemma ChainStopPayload(file: Disk, blockSize: u32, block: u32, remaining: nat)
    requires blockSize > 4 && !Continues(file, blockSize, block, remaining)
    ensures var r := Chain(file, blockSize, block, remaining);
      r.payload == Payloads(file, r.trace)
  {
  }

  /** The first read of a chain load is at the chain's head block. */
  lemma ChainHead(file: Disk, blockSize: u32, block: u32, remaining: nat)
    requires blockSize > 4
    ensures var t := Chain(file, blockSize, block, remaining).trace;
      t != [] ==> t[0].address == block
  {
  }

  /** A clean read that names the head of a following trace extends it. */
  lemma FollowsCons(file: Disk, rd: BlockRead, bytes: seq<byte>, rest: seq<BlockRead>)
    requires rd.size >= 4 && ReadAt(file, rd.address, rd.size) == Some(bytes) && LE32(bytes) < HighBit
    requires Follows(file, rest) && (rest != [] ==> rest[0].address == LE32(bytes))
    ensures Follows(file, [rd] + rest)
  {
    assert ([rd] + rest)[1..] == rest;
  }

  /** A chain load that does not continue past its first block makes at most one read. */
  lemma ChainStop(file: Disk, blockSize: u32, block: u32, remaining: nat)
    requires blockSize > 4 && !Continues(file, blockSize, block, remaining)
    ensures |Chain(file, blockSize, block, remaining).trace| <= 1
  {
  }

  /**
   * Each read of a chain load after the first is at the address its
   * predecessor named through a clean pointer: nothing is read after a read
   * that failed or returned a flagged pointer.
   */
  lemma {:induction false} ChainFollows(file: Disk, blockSize: u32, block: u32, remaining: nat)
    requires blockSize > 4
    ensures Follows(file, Chain(file, blockSize, block, remaining).trace)
    decreases remaining
  {
    if Continues(file, blockSize, block, remaining) {
      var bytes := ReadAt(file, block, blockSize).value;
      var next := LE32(bytes);
      var r := Chain(file, blockSize, block, remaining);
      var rest := Chain(file, blockSize, next, remaining - (blockSize - 4));
      ChainFollows(file, blockSize, next, remaining - (blockSize - 4));
      ChainHead(file, blockSize, next, remaining - (blockSize - 4));
      ChainStep(file, blockSize, block, remaining, bytes);
      FollowsCons(file, BlockRead(block, blockSize), bytes, rest.trace);
      assert r.trace == [BlockRead(block, blockSize)] + rest.trace;
    } else {
      ChainStop(file, blockSize, block, remaining);
    }
  }

  /** A chain load succeeds only if every pointer it read was clean. */
  lemma {:induction false} ChainOkClean(file: Disk, blockSize: u32, block: u32, remaining: nat)
    requires blockSize > 4 && Chain(file, blockSize, block, remaining).ok
    ensures var r := Chain(file, blockSize, block, remaining);
      forall k :: 0 <= k < |r.trace| ==> Clean(file, r.trace[k])
    decreases remaining
  {
    var n := if blockSize - 4 > remaining then remaining else blockSize - 4;
    if remaining > 0 {
      var bytes := ReadAt(file, block, n + 4).value;
      var next := LE32(bytes);
      var rd := BlockRead(block, n + 4);
      assert Successor(file, rd) == next;
      if n < remaining {
        var r := Chain(file, blockSize, block, remaining);
        var rest := Chain(file, blockSize, next, remaining - n);
        ChainOkClean(file, blockSize, next, remaining - n);
        ChainStep(file, blockSize, block, remaining, bytes);
        forall k | 0 <= k < |r.trace| ensures Clean(file, r.trace[k]) {
          if k > 0 { assert r.trace[k] == rest.trace[k - 1]; }
        }
      }
    }
  }

  /**
   * When a chain load fails it either gathered fewer bytes than asked or its
   * last read was not clean: a flagged pointer fails the load even on the
   * block that completed the request.
   */
  lemma {:induction false} ChainFailure(file: Disk, blockSize: u32, block: u32, remaining: nat)
    requires blockSize > 4 && !Chain(file, blockSize, block, remaining).ok
    ensures var r := Chain(file, blockSize, block, remaining);
      |r.payload| < remaining || (r.trace != [] && !Clean(file, r.trace[|r.trace| - 1]))
    decreases remaining
  {
    if Continues(file, blockSize, block, remaining) {
      var bytes := ReadAt(file, block, blockSize).value;
      var next := LE32(bytes);
      var r := Chain(file, blockSize, block, remaining);
      var rest := Chain(file, blockSize, next, remaining - (blockSize - 4));
      ChainFailure(file, blockSize, next, remaining - (blockSize - 4));
      ChainStep(file, blockSize, block, remaining, bytes);
      if |r.payload| == remaining {
        assert r.trace[|r.trace| - 1] == rest.trace[|rest.trace| - 1];
      }
    } else {
      ChainStopFailure(file, blockSize, block, remaining);
    }
  }

  /** A load that stops at its first block and fails is short or read a flagged pointer there. */
  lemma ChainStopFailure(file: Disk, blockSize: u32, block: u32, remaining: nat)
    requires blockSize > 4 && !Continues(file, blockSize, block, remaining)
    requires !Chain(file, blockSize, block, remaining).ok
    ensures var r := Chain(file, blockSize, block, remaining);
      |r.payload| < remaining || (r.trace != [] && !Clean(file, r.trace[|r.trace| - 1]))
  {
  }

  /** One clean, non-final block of a chain: its payload, then the rest of the chain. */
  lemma ChainStep(file: Disk, blockSize: u32, block: u32, remaining: nat, bytes: seq<byte>)
    requires blockSize > 4 && block != 0 && remaining > blockSize - 4
    requires ReadAt(file, block, blockSize) == Some(bytes)
    requires LE32(bytes) < HighBit
    ensures var rest := Chain(file, blockSize, LE32(bytes), remaining - (blockSize - 4));
      Chain(file, blockSize, block, remaining)
        == ChainLoad(rest.ok, bytes[4..] + rest.payload, [BlockRead(block, blockSize)] + rest.trace)
  {
  }

  /** The final block of a clean chain: it supplies exactly what is still missing. */
  lemma ChainLast(file: Disk, blockSize: u32, block: u32, remaining: nat, bytes: seq<byte>)
    requires blockSize > 4 && block != 0 && 0 < remaining <= blockSize - 4
    requires ReadAt(file, block, remaining + 4) == Some(bytes)
    requires LE32(bytes) < HighBit
    ensures Chain(file, blockSize, block, remaining) == ChainLoad(true, bytes[4..], [BlockRead(block, remaining + 4)])
  {
  }

  /**
   * `payload` is laid out as a chain starting at block `at`: every block
   * carries a clean successor pointer, each non-final block holds the next
   * `blockSize - 4` payload bytes and points to the next block, and the final
   * block holds the rest.
   */
  predicate Stored(file: Disk, blockSize: u32, at: u32, payload: seq<byte>)
    requires blockSize > 4
    decreases |payload|
  {
    && at != 0 && at in file && |file[at]| >= 4 && LE32(file[at]) < HighBit
    && if |payload| <= blockSize - 4 then
         |file[at]| >= |payload| + 4 && file[at][4..|payload| + 4] == payload
       else
         |file[at]| >= blockSize && file[at][4..blockSize] == payload[..blockSize - 4]
         && Stored(file, blockSize, LE32(file[at]), payload[blockSize - 4..])
  }

  /** One clean block in front of a loaded chain loads the joined payload. */
  lemma ChainJoin(file: Disk, blockSize: u32, at: u32, next: u32, payload: seq<byte>, bytes: seq<byte>)
    requires blockSize > 4 && at != 0 && |payload| > blockSize - 4
    requires ReadAt(file, at, blockSize) == Some(bytes)
    requires LE32(bytes) == next < HighBit
    requires bytes[4..] == payload[..blockSize - 4]
    requires Chain(file, blockSize, next, |payload| - (blockSize - 4)).ok
    requires Chain(file, blockSize, next, |payload| - (blockSize - 4)).payload == payload[blockSize - 4..]
    ensures Chain(file, blockSize, at, |payload|).ok
    ensures Chain(file, blockSize, at, |payload|).payload == payload
  {
    ChainStep(file, blockSize, at, |payload|, bytes);
    assert payload == payload[..blockSize - 4] + payload[blockSize - 4..];
  }

  /** A stored payload loads back, whole and successfully. */
  lemma {:induction false} StoredLoads(file: Disk, blockSize: u32, at: u32, payload: seq<byte>)
    requires blockSize > 4 && Stored(file, blockSize, at, payload)
    ensures Chain(file, blockSize, at, |payload|).ok
    ensures Chain(file, blockSize, at, |payload|).payload == payload
    decreases |payload|
  {
    var block := file[at];
    var next := LE32(block);
    if |payload| == 0 {
    } else if |payload| <= blockSize - 4 {
      var bytes := block[..|payload| + 4];
      assert LE32(bytes) == next;
      ChainLast(file, blockSize, at, |payload|, bytes);
    } else {
      var bytes := block[..blockSize];
      assert LE32(bytes) == next;
      StoredLoads(file, blockSize, next, payload[blockSize - 4..]);
      ChainJoin(file, blockSize, at, next, payload, bytes);
    }
  }

  /** Conversely, a load of a non-empty payload succeeds only from a chain that stores it. */
  lemma {:induction false} LoadedIsStored(file: Disk, blockSize: u32, at: u32, remaining: nat)
    requires blockSize > 4 && remaining > 0 && Chain(file, blockSize, at, remaining).ok
    ensures Stored(file, blockSize, at, Chain(file, blockSize, at, remaining).payload)
    decreases remaining
  {
    var n := if blockSize - 4 > remaining then remaining else blockSize - 4;
    var bytes := ReadAt(file, at, n + 4).value;
    var next := LE32(bytes);
    assert LE32(file[at]) == next;
    if n < remaining {
      ChainStep(file, blockSize, at, remaining, bytes);
      LoadedIsStored(file, blockSize, next, remaining - n);
    }
  }
}
