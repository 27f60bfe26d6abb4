/**
 * The block loader: the object every other layer reads the archive through.
 * `LoadData` is the in-place loop of `DATDisk.cpp`, proved to compute the
 * reference walk `Chains.Chain`.
 */
module Loader {
  import opened Wrappers
  import opened Bytes
  import opened Chains

  /** A load that does not continue past its first block ends there, in failure when that block could not be read or carried a flagged pointer. */
  lemma ChainHalt(file: Disk, blockSize: u32, block: u32, remaining: nat, size: nat)
    requires blockSize > 4 && block != 0 && remaining > 0
    requires size == (if blockSize - 4 > remaining then remaining else blockSize - 4) + 4
    requires ReadAt(file, block, size).None? || LE32(ReadAt(file, block, size).value) >= HighBit
    ensures !Chain(file, blockSize, block, remaining).ok
    ensures Chain(file, blockSize, block, remaining).trace == [BlockRead(block, size)]
  {
    assert !Continues(file, blockSize, block, remaining);
  }

  /** A load of which `copied` and `trace` are already done and `rest` is still to come. */
  function Resume(copied: seq<byte>, trace: seq<BlockRead>, rest: ChainLoad): ChainLoad {
    ChainLoad(rest.ok, copied + rest.payload, trace + rest.trace)
  }

  /** A load whose remaining part starts with nothing left or at block 0 ends there. */
  lemma Finished(file: Disk, blockSize: u32, block: u32, remaining: nat,
                 copied: seq<byte>, trace: seq<BlockRead>, goal: ChainLoad)
    requires blockSize > 4 && (remaining == 0 || block == 0)
    requires goal == Resume(copied, trace, Chain(file, blockSize, block, remaining))
    ensures goal.ok == (remaining == 0) && goal.trace == trace
    ensures remaining == 0 ==> goal.payload == copied
  {
    assert !Continues(file, blockSize, block, remaining);
  }

  /** Moving one block's payload and read from the part to come to the part done. */
  lemma ResumeStep(copied: seq<byte>, trace: seq<BlockRead>, piece: seq<byte>, rd: BlockRead, rest: ChainLoad)
    ensures Resume(copied, trace, ChainLoad(rest.ok, piece + rest.payload, [rd] + rest.trace))
      == Resume(copied + piece, trace + [rd], rest)
  {
    assert copied + (piece + rest.payload) == (copied + piece) + rest.payload;
    assert trace + ([rd] + rest.trace) == (trace + [rd]) + rest.trace;
  }

  /**
   * The buffer layout of a load in progress: the old first 4 bytes, the
   * payload so far, the old rest. Reading the next piece over the window
   * at `pos` and restoring the window extends the payload by that piece.
   */
  lemma Splice(orig: seq<byte>, copied: seq<byte>, piece: seq<byte>, cur: seq<byte>, pos: nat, size: nat)
    requires size == |piece| + 4 && |copied| == pos && 4 + pos + |piece| <= |orig|
    requires cur == orig[..4] + copied + orig[4 + pos..]
    ensures cur[..pos + 4] + piece + cur[pos + size..] == orig[..4] + (copied + piece) + orig[4 + pos + |piece|..]
  {
    assert cur[..pos + 4] == orig[..4] + copied;
    assert cur[pos + size..] == orig[4 + pos + |piece|..];
  }

  /**
   * The buffer after a block read to `pos` and the restore of its first 4
   * bytes: the block's payload part has joined the payload so far.
   */
  lemma Restored(orig: seq<byte>, copied: seq<byte>, before: seq<byte>, after: seq<byte>,
                 value: seq<byte>, pos: nat, size: nat)
    requires |value| == size >= 4 && |copied| == pos && pos + size <= |orig|
    requires before == orig[..4] + copied + orig[4 + pos..]
    requires |after| == |before|
    requires forall k :: 0 <= k < |after| ==> after[k] == (if pos + 4 <= k < pos + size then value[k - pos] else before[k])
    ensures after == orig[..4] + (copied + value[4..]) + orig[pos + size..]
  {
    var want := before[..pos + 4] + value[4..] + before[pos + size..];
    forall k | 0 <= k < |after|
      ensures after[k] == want[k]
    {
      if k < pos + 4 {
        assert want[k] == before[k];
      } else if k < pos + size {
        assert want[k] == value[k - pos];
      } else {
        assert want[k] == before[k];
      }
    }
    Splice(orig, copied, value[4..], before, pos, size);
  }

  /**
   * One block of a load in progress, read with `size` bytes: a failed read or
   * a flagged pointer ends the load in failure with this read as its last;
   * otherwise the block's payload part and read join the part done and the
   * load goes on at the successor.
   */
  lemma Advance(file: Disk, blockSize: u32, block: u32, remaining: nat, size: nat,
                copied: seq<byte>, trace: seq<BlockRead>, goal: ChainLoad)
    requires blockSize > 4 && block != 0 && remaining > 0
    requires size == (if blockSize - 4 > remaining then remaining else blockSize - 4) + 4
    requires goal == Resume(copied, trace, Chain(file, blockSize, block, remaining))
    ensures var r := ReadAt(file, block, size);
      (r.None? || LE32(r.value) >= HighBit) ==> !goal.ok && goal.trace == trace + [BlockRead(block, size)]
    ensures var r := ReadAt(file, block, size);
      (r.Some? && LE32(r.value) < HighBit) ==>
        goal == Resume(copied + r.value[4..], trace + [BlockRead(block, size)],
                       Chain(file, blockSize, LE32(r.value), remaining - (size - 4)))
  {
    var r := ReadAt(file, block, size);
    var rd := BlockRead(block, size);
    if r.None? || LE32(r.value) >= HighBit {
      ChainHalt(file, blockSize, block, remaining, size);
    } else if size - 4 < remaining {
      ChainStep(file, blockSize, block, remaining, r.value);
      ResumeStep(copied, trace, r.value[4..], rd, Chain(file, blockSize, LE32(r.value), remaining - (size - 4)));
    } else {
      ChainLast(file, blockSize, block, remaining, r.value);
      assert r.value[4..] + [] == r.value[4..] && [rd] + [] == [rd];
      ResumeStep(copied, trace, r.value[4..], rd, ChainLoad(true, [], []));
    }
  }

  class BlockLoader {
    /** The archive file the device reads. */
    const file: Disk
    /** Whether `Init` has pointed the loader at a header. */
    var attached: bool
    /** The header the loader reads its block size from; zero until an open reads it. */
    var header: Header

    /** The loader is usable for chain loads. */
    predicate Ready()
      reads this
    {
      attached && Usable(header)
    }

    /** A fresh loader, not yet pointed at a header. */
    constructor(file: Disk)
      ensures this.file == file && !attached && header == Header(0, 0)
    {
      this.file := file;
      attached := false;
      header := Header(0, 0);
    }

    /**
     * Points the loader at the archive header and opens the file. `device`
     * is what the device delivered: the header it read, or nothing when the
     * file could not be opened or its header not read. After a failed read
     * the header's contents are unspecified (the device may have written part
     * of it); the model keeps the previous header, and nothing depends on it.
     */
    method Init(device: Option<Header>) returns (ok: bool)
      modifies this
      ensures ok <==> device.Some?
      ensures attached
      ensures header == (if device.Some? then device.value else old(header))
    {
      attached := true;
      if device.Some? {
        header := device.value;
      }
      ok := device.Some?;
    }

    /** The B-tree root's address, or 0 while no header is attached. */
    function GetTreeOrigin(): (origin: u32)
      reads this
      ensures attached ==> origin == header.treeOrigin
      ensures !attached ==> origin == 0
    {
      if !attached then 0 else header.treeOrigin
    }

    /**
     * A device read of `size` bytes at `address` into `buf` at `at`. The bytes
     * delivered land in the buffer even when the read comes up short; the read
     * reports success only when all of them arrived.
     */
    method SyncRead(buf: array<byte>, at: nat, size: nat, address: u32) returns (ok: bool)
      requires at + size <= buf.Length
      modifies buf
      ensures ok <==> |Delivered(file, address, size)| == size
      ensures size > 0 ==> (ok <==> ReadAt(file, address, size).Some?)
      ensures forall k :: 0 <= k < buf.Length ==>
        buf[k] == (if at <= k < at + |Delivered(file, address, size)| then Delivered(file, address, size)[k - at] else old(buf[k]))
    {
      var got := Delivered(file, address, size);
      forall k | at <= k < at + |got| {
        buf[k] := got[k - at];
      }
      ok := |got| == size;
      if size > 0 {
        ReadDelivered(file, address, size);
      }
    }

    /**
     * One block of a chain load: the 4 bytes at `pos` are saved, the block is
     * read to `pos`, its successor pointer taken from there and the 4 saved
     * bytes put back. The buffer holds the old first 4 bytes, the
     * payload `copied` so far and then old bytes, and `goal` is the load
     * still to be completed from `block` on. When the read succeeds with a
     * clean pointer the block's payload part joins `copied`, the read joins
     * `trace`, and the load goes on at the successor; otherwise it has failed
     * with this read as its last. Nothing outside the read's extent changes.
     */
    method ReadBlock(buf: array<byte>, pos: nat, size: nat, block: u32, ghost remaining: nat,
                     ghost orig: seq<byte>, ghost copied: seq<byte>, ghost trace: seq<BlockRead>, ghost goal: ChainLoad)
      returns (ok: bool, next: u32)
      requires Ready() && block != 0 && remaining > 0
      requires size == (if header.blockSize - 4 > remaining then remaining else header.blockSize - 4) + 4
      requires pos + size <= buf.Length == |orig| && |copied| == pos
      requires buf[..] == orig[..4] + copied + orig[4 + pos..]
      requires goal == Resume(copied, trace, Chain(file, header.blockSize, block, remaining))
      modifies buf
      ensures ok <==> ReadAt(file, block, size).Some?
      ensures ok ==> next == LE32(ReadAt(file, block, size).value)
      ensures ok && next < HighBit ==>
        && buf[..] == orig[..4] + (copied + ReadAt(file, block, size).value[4..]) + orig[pos + size..]
        && goal == Resume(copied + ReadAt(file, block, size).value[4..], trace + [BlockRead(block, size)],
                          Chain(file, header.blockSize, next, remaining - (size - 4)))
      ensures !(ok && next < HighBit) ==> !goal.ok && goal.trace == trace + [BlockRead(block, size)]
      ensures forall k :: 0 <= k < buf.Length && !(pos <= k < pos + size) ==> buf[k] == old(buf[k])
    {
      Advance(file, header.blockSize, block, remaining, size, copied, trace, goal);
      ghost var before := buf[..];
      var saved := buf[pos..pos + 4];
      ok := SyncRead(buf, pos, size, block);
      next := 0;
      if ok {
        next := LE32(buf[pos..pos + 4]);
        forall k | pos <= k < pos + 4 {
          buf[k] := saved[k - pos];
        }
        Restored(orig, copied, before, buf[..], ReadAt(file, block, size).value, pos, size);
      }
    }

    /**
     * One pass of the load loop: the read is shortened to what is left, the
     * block is read, and on success the position and the count advance and
     * the successor becomes the current block, a flagged successor latching
     * failure (with the flag cleared). The buffer layout and the reference
     * walk still to come are kept in step; after a failure the whole load
     * is known to fail with the reads made so far.
     */
    method Pass(buf: array<byte>, pos: nat, blockSize: nat, perBlock: nat, remaining: nat, block: u32,
                ghost hb: u32, ghost length: nat, ghost orig: seq<byte>, ghost copied: seq<byte>,
                ghost trace: seq<BlockRead>, ghost goal: ChainLoad)
      returns (ok: bool, blockSize': nat, perBlock': nat, block': u32, remaining': nat, pos': nat,
               ghost copied': seq<byte>, ghost trace': seq<BlockRead>)
      requires Ready() && hb == header.blockSize && block != 0
      requires 0 < perBlock && blockSize == perBlock + 4 && perBlock == hb - 4
      requires 0 < remaining && pos + remaining == length && |copied| == pos
      requires length + 4 <= buf.Length == |orig|
      requires buf[..] == orig[..4] + copied + orig[4 + pos..]
      requires goal == Resume(copied, trace, Chain(file, hb, block, remaining))
      modifies buf
      ensures 0 < perBlock' && blockSize' == perBlock' + 4
      ensures ok && remaining' > 0 ==> perBlock' == hb - 4
      ensures remaining' <= remaining && (ok ==> remaining' < remaining)
      ensures pos' + remaining' == length && |copied'| == pos'
      ensures forall k :: length + 4 <= k < buf.Length ==> buf[k] == old(buf[k])
      ensures ok ==> buf[..] == orig[..4] + copied' + orig[4 + pos'..]
      ensures ok ==> goal == Resume(copied', trace', Chain(file, hb, block', remaining'))
      ensures !ok ==> !goal.ok && goal.trace == trace'
    {
      blockSize', perBlock' := blockSize, perBlock;
      if perBlock' > remaining {
        blockSize' := remaining + 4;
        perBlock' := remaining;
      }
      var read, next := ReadBlock(buf, pos, blockSize', block, remaining, orig, copied, trace, goal);
      trace' := trace + [BlockRead(block, blockSize')];
      if read {
        copied' := copied + ReadAt(file, block, blockSize').value[4..];
        block' := next;
        remaining' := remaining - perBlock';
        pos' := pos + perBlock';
        ok := true;
        if block' >= HighBit {
          block' := block' - HighBit;
          ok := false;
        }
      } else {
        copied', block', remaining', pos' := copied, block, remaining, pos;
        ok := false;
      }
    }

    /**
     * Loads `length` payload bytes from the chain starting at `head` into
     * `buf`. The payload lands in `buf[4 .. 4 + length]`: each block is read
     * over the bytes just before its payload's place and those 4 bytes are
     * restored afterwards, so `buf[.. 4]` keeps its old contents and nothing
     * at or past `length + 4` is written. The load succeeds exactly when the
     * reference walk does, and makes the same reads; a flagged pointer fails
     * it even on the block that completed it.
     */
    method LoadData(head: u32, buf: array<byte>, length: u32) returns (ok: bool, ghost trace: seq<BlockRead>)
      requires Ready()
      requires length == 0 || length as int + 4 <= buf.Length
      modifies buf
      ensures ok == Chain(file, header.blockSize, head, length as int).ok
      ensures trace == Chain(file, header.blockSize, head, length as int).trace
      ensures length == 0 ==> buf[..] == old(buf[..])
      ensures ok && length > 0 ==>
        buf[..] == old(buf[..4]) + Chain(file, header.blockSize, head, length as int).payload + old(buf[4 + length as int..])
      ensures forall k :: length as int + 4 <= k < buf.Length ==> buf[k] == old(buf[k])
    {
      ghost var hb: u32 := header.blockSize;
      ghost var goal := Chain(file, hb, head, length as int);
      var blockSize: nat := header.blockSize;
      var perBlock: nat := blockSize - 4;
      var remaining: nat := length as nat;
      var pos: nat := 0;
      ok := true;
      trace := [];
      if remaining == 0 {
        return;
      }
      var block: u32 := head;
      ghost var copied: seq<byte> := [];
      ghost var orig := buf[..];
      assert orig == orig[..4] + [] + orig[4..];
      while block != 0
        invariant 0 < perBlock && blockSize == perBlock + 4
        invariant ok ==> perBlock == hb - 4
        invariant 0 < remaining && pos + remaining == length as int && |copied| == pos
        invariant length as int + 4 <= buf.Length
        invariant forall k :: length as int + 4 <= k < buf.Length ==> buf[k] == old(buf[k])
        invariant ok ==> buf[..] == orig[..4] + copied + orig[4 + pos..]
        invariant ok ==> goal == Resume(copied, trace, Chain(file, hb, block, remaining))
        invariant !ok ==> !goal.ok && goal.trace == trace
        decreases remaining, if ok then 1 else 0
      {
        if !ok {
          return;
        }
        ok, blockSize, perBlock, block, remaining, pos, copied, trace :=
          Pass(buf, pos, blockSize, perBlock, remaining, block, hb, length as int, orig, copied, trace, goal);
        if remaining == 0 {
          break;
        }
      }
      if ok {
        Finished(file, hb, block, remaining, copied, trace, goal);
      }
      if remaining != 0 {
        ok := false;
      }
    }
  }
}
