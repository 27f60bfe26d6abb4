/**
 * The archive object (`DATDisk`): a block loader over one archive file and
 * the directory B-tree read through it. Opening attaches the loader to the
 * header and loads the root; files are fetched by ID through the directory,
 * or straight from a chain head, and an ID range is listed by the tree scan
 * with progress running from 0 to 100.
 */
module Archive {
  import opened Wrappers
  import opened Bytes
  import opened Chains
  import opened Records
  import opened Trees
  import opened Loader
  import opened Nodes

  /** A fetched file: its ID, the buffer the loader filled (its 4-byte slot, then the file) and its length. */
  datatype DATEntry = DATEntry(id: u32, data: array<byte>, length: u32)

  /**
   * The size of a file buffer as `DATDisk.cpp` computes it, in 32-bit
   * arithmetic: four bytes for the loader's slot plus the file length.
   */
  function AllocSize(length: u32): (n: u32)
    ensures length < 0xFFFF_FFFC ==> n == length + 4
    ensures length >= 0xFFFF_FFFC ==> n < 4
  {
    (4 + length) % 0x1_0000_0000
  }

  /**
   * A directory entry with a length near 2^32 makes that sum wrap: the buffer
   * is then smaller than its 4-byte slot, while the load writes up to
   * `length + 4` bytes into it.
   */
  lemma AllocWraps()
    ensures AllocSize(0xFFFF_FFFD) == 1 && AllocSize(0xFFFF_FFFD) as int < 0xFFFF_FFFD + 4
  {
  }

  class DATDisk {
    /** The loader (`m_BlockLoader`). */
    const loader: BlockLoader
    /** The directory tree's root (`m_BTree`), reading through `loader`. */
    const tree: BTreeNode
    /** An open loaded the root into a tree with nothing cached yet. */
    ghost var isOpen: bool

    /** The root reads through this archive's loader and, once opened, is a valid tree. */
    ghost predicate Valid()
      reads this, tree, tree.Repr, loader
    {
      && tree.loader == loader && tree.data.Length == NodeSize && this !in tree.Repr
      && (isOpen ==> tree.Valid())
    }

    /** The directory unfolded `h` levels deep from the root. */
    ghost function Directory(h: nat): Tree
      requires Valid() && isOpen
      reads this, tree, tree.Repr, loader
    {
      tree.Tree(h)
    }

    /** An archive over `file`, not yet opened. */
    constructor(file: Disk)
      ensures Valid() && !isOpen && tree.Empty()
      ensures loader.file == file && !loader.attached
      ensures fresh(loader) && fresh(tree) && fresh(tree.data) && fresh(tree.branches)
    {
      var l := new BlockLoader(file);
      loader := l;
      tree := new BTreeNode(l);
      isOpen := false;
    }

    /**
     * Attaches the loader to the header `device` delivered (nothing when the
     * file or its header could not be read), then loads the root from the
     * header's tree origin. Either step failing fails the open.
     */
    method Open(device: Option<Header>) returns (ok: bool)
      requires Valid()
      requires device.Some? ==> Usable(device.value)
      modifies this, loader, tree, tree.data
      ensures Valid()
      ensures ok <==> device.Some? && Load(loader.file, device.value.blockSize, device.value.treeOrigin).Some?
      ensures ok ==> loader.header == device.value && tree.at == device.value.treeOrigin
      ensures ok ==> Load(loader.file, device.value.blockSize, device.value.treeOrigin) == Some(tree.rec)
      ensures isOpen <==> ok && old(tree.Empty())
    {
      isOpen := false;
      ghost var untouched := tree.Empty();
      var attached := loader.Init(device);
      if !attached {
        return false;
      }
      ghost var trace;
      ok, trace := tree.Init();
      isOpen := ok && untouched;
    }

    /**
     * Fetches file `id`: looks it up in the directory and, when it is there,
     * loads its chain into a new buffer of `length + 4` bytes.
     */
    method GetData(id: u32, ghost h: nat) returns (entry: Option<DATEntry>)
      requires Valid() && isOpen && Complete(Directory(h))
      modifies tree.Repr
      ensures Valid() && isOpen && tree.at == old(tree.at)
      ensures var found := Search(Directory(h), id);
        entry.Some? <==> found.Some? && Chain(loader.file, loader.header.blockSize, found.value.blockHead, found.value.length as int).ok
      ensures entry.Some? ==>
        var e := Search(Directory(h), id).value;
        && entry.value.id == id && entry.value.length == e.length
        && fresh(entry.value.data) && entry.value.data.Length == e.length as int + 4
        && entry.value.data[4..] == Chain(loader.file, loader.header.blockSize, e.blockHead, e.length as int).payload
    {
      var info := tree.Lookup(id, h);
      if info.None? {
        return None;
      }
      var buffer := new byte[4 + info.value.length as int](_ => 0);
      var loaded;
      ghost var trace;
      loaded, trace := loader.LoadData(info.value.blockHead, buffer, info.value.length);
      if !loaded {
        return None;
      }
      entry := Some(DATEntry(id, buffer, info.value.length));
    }

    /** Loads `length` bytes from the chain at `blockHead` into `data`, after its 4-byte slot. */
    method GetDataEx(blockHead: u32, data: array<byte>, length: u32) returns (ok: bool)
      requires Valid() && isOpen
      requires length == 0 || length as int + 4 <= data.Length
      modifies data
      ensures ok == Chain(loader.file, loader.header.blockSize, blockHead, length as int).ok
      ensures ok && length > 0 ==>
        data[..] == old(data[..4]) + Chain(loader.file, loader.header.blockSize, blockHead, length as int).payload
                    + old(data[4 + length as int..])
      ensures length == 0 ==> data[..] == old(data[..])
      ensures forall k :: length as int + 4 <= k < data.Length ==> data[k] == old(data[k])
    {
      ghost var trace;
      ok, trace := loader.LoadData(blockHead, data, length);
    }

    /**
     * Lists the files with IDs in `min`..`max`: the events of the scan of the
     * directory started at progress 0 with 100 to share out. In a directory
     * ordered by ID, the files reported are exactly the directory's entries in
     * that range, in ascending order.
     */
    method FindFileIDsWithinRange(min: u32, max: u32, ghost h: nat) returns (events: seq<Event>)
      requires Valid() && isOpen && Complete(Directory(h))
      modifies tree.Repr
      ensures Valid() && isOpen && tree.at == old(tree.at)
      ensures events == Scan(Directory(h), min, max, 0.0, 100.0)
      ensures Ordered(Directory(h), -1, 0x1_0000_0000) ==>
        Founds(events) == Filter(InOrder(Directory(h)), min, max) && Ascending(Founds(events))
    {
      events := tree.FindEntryIDsWithinRange(min, max, 0.0, 100.0, h);
      if Ordered(Directory(h), -1, 0x1_0000_0000) {
        ScanSpec(Directory(h), min, max, 0.0, 100.0);
      }
    }
  }
}
