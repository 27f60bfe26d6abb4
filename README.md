# DATDisk: the archive reader of DungeonViewerAC, in Dafny

`DATDisk.cpp` reads the game's `.dat` archives. An archive is a file cut into
fixed-size blocks. Each block starts with a 4-byte successor pointer, and a
file's bytes are stored as a chain of such blocks. A directory B-tree, whose
nodes are themselves stored as block chains, maps 32-bit file IDs to the
head block and length of each file's chain.

The model follows the source's three layers:

- **The block loader.**
  - `Chains` (`chain.dfy`) is the reference walk of a chain:
    - its success conditions;
    - the bytes it gathers;
    - the reads it makes.
  - `Loader` (`loader.dfy`) is the `BlockLoader` object. Its `LoadData` is the
    in-place loop of `DATDisk.cpp`: it saves and restores the 4-byte window at
    the write position on every block, shortens the last read, and latches
    failure on a flagged pointer. The loop is proved to compute the reference
    walk.
- **The B-tree node.**
  - `Records` (`records.dfy`) decodes the node record:
    - 62 child addresses;
    - the entry count;
    - 61 entries of three DWORDs each.
  - `Trees` (`trees.dfy`) unfolds the tree reachable from an address into a
    value. It defines the point lookup and the in-order range scan as
    functions over that value, and proves what they compute on a tree whose
    keys respect B-tree ordering.
  - `Nodes` (`nodes.dfy`) is the `BTreeNode` object:
    - its node structure, loaded in place;
    - its leaf flag;
    - the array of children it loads lazily and caches.

    Its `Lookup` and `FindEntryIDsWithinRange` methods are proved to compute
    the reference walks.
- **The archive.** `Archive` (`archive.dfy`) is the `DATDisk` object:
  - `Open`, which attaches the loader to the header and loads the root;
  - `GetData`, which looks a file up and loads it into a fresh buffer;
  - `GetDataEx`;
  - the ID-range listing, with progress from 0 to 100.

The file is a map from block address to the bytes stored from there on. A
device read of `n` bytes succeeds only when `n` bytes are there. The short
read of the C++ device code still writes the bytes it delivered.

The entry and progress callbacks become a returned sequence of events.
Progress values are reals.

Three places where the code does something other than the obvious reading.
The model follows the code in each:

- A child that fails to load leaves its cache slot empty, so a later
  `GetBranch` on that slot tries the load again.
- The scan passes over an entry whose ID is below `Min` together with that
  entry's left child.
- After an entry above `Max`, the scan returns without the final progress
  report of `start + delta`. Progress advances only after entries that are in
  range.

## Model

| member | source | states |
|---|---|---|
| Bytes.LE32RoundTrip | DATDisk.cpp:393 | A DWORD stored little-endian reads back as the same DWORD |
| Bytes.U32BytesRoundTrip | DATDisk.cpp:393-394 | Four bytes read as a DWORD and stored again are the same four bytes |
| Chains.Delivered | DATDisk.cpp:454-468 | A device read never delivers more bytes than asked |
| Chains.ReadAt | DATDisk.cpp:454-468 | A complete read delivers exactly the size asked |
| Chains.ReadDelivered | DATDisk.cpp:454-468 | A read of at least one byte succeeds exactly when all the bytes asked for are delivered, and then delivers those bytes |
| Chains.Successor | DATDisk.cpp:393 | Definition: the pointer in the first 4 bytes a read returned, 0 when the read failed |
| Chains.Clean | DATDisk.cpp:391-402 | Definition: a read that completed and whose pointer does not have the high bit set |
| Chains.Chain | DATDisk.cpp:363-415 | A load never gathers more than the length asked, and a successful load gathers exactly that length |
| Chains.Stop | DATDisk.cpp:373-412 | A load that does not go past its first block gathers at most the length asked, and exactly that on success |
| Chains.ChainPayloads | DATDisk.cpp:383-396 | The payload of a load is the concatenation of the payload parts of the reads it made, in order |
| Chains.ChainStopPayload | DATDisk.cpp:385-396 | For a load that stops at its first block, the payload is that block's payload part |
| Chains.ChainHead | DATDisk.cpp:376-391 | The first read of a load is at the head block |
| Chains.ChainStop | DATDisk.cpp:378-408 | A load that does not continue past its first block makes at most one read |
| Chains.ChainFollows | DATDisk.cpp:391-402 | Every read except the last is clean, and each read is at the address its predecessor's pointer named |
| Chains.ChainOkClean | DATDisk.cpp:398-402 | A successful load read no flagged pointer and no short block |
| Chains.ChainFailure | DATDisk.cpp:398-412 | A failed load either gathered fewer bytes than asked or ended on an unclean read, even when that read completed the length (a flagged pointer fails the load) |
| Chains.ChainStopFailure | DATDisk.cpp:398-412 | The same failure statement for a load that stops at its first block |
| Chains.ChainStep | DATDisk.cpp:391-396 | A full clean block followed by the rest of the chain: its payload part comes first, and its read is followed by the reads of the rest |
| Chains.ChainLast | DATDisk.cpp:385-396 | The last block is read shortened to `remaining + 4` bytes, and the load ends with its payload part |
| Chains.ChainJoin | DATDisk.cpp:391-396 | One clean block in front of a loaded chain loads the joined payload |
| Chains.StoredLoads | DATDisk.cpp:363-415 | A payload laid out as a chain of clean blocks loads back exactly |
| Chains.LoadedIsStored | DATDisk.cpp:363-415 | A successful load of a nonzero length means the payload is laid out as a chain from the head block |
| Loader.ChainHalt | DATDisk.cpp:398-408 | A failed read or a flagged pointer at the first block fails the load, and that read is the load's only read |
| Loader.Finished | DATDisk.cpp:373-378 | With nothing left to load the walk succeeds with no further read; at block 0 with bytes left it fails |
| Loader.ResumeStep | DATDisk.cpp:391-396 | A block's payload and read move from the part still to come to the part done |
| Loader.Splice | DATDisk.cpp:383-394 | Reading over the 4-byte window at the write position and restoring it extends the payload in the buffer |
| Loader.Restored | DATDisk.cpp:391-394 | After a block read and the restore of its first 4 bytes, the buffer holds the old first 4 bytes, the payload so far and then the old bytes |
| Loader.Advance | DATDisk.cpp:391-405 | One block either fails the load with this read as its last, or adds its payload part and read and goes on at the successor |
| Loader.BlockLoader.constructor | DATDisk.cpp:339-342 | A new loader has no header attached |
| Loader.BlockLoader.Init | DATDisk.cpp:356-361 | The open succeeds exactly when the device delivered a header. The header is then attached |
| Loader.BlockLoader.GetTreeOrigin | DATDisk.cpp:348-354 | The root address from the attached header, or 0 when no header is attached |
| Loader.BlockLoader.SyncRead | DATDisk.cpp:454-468 | The read succeeds exactly when every byte asked for is delivered. The delivered bytes land in the buffer, and nothing else changes |
| Loader.BlockLoader.ReadBlock | DATDisk.cpp:383-394 | The window is saved, the block read, the pointer taken and the window restored. The outcome matches one step of the reference walk, and nothing outside the read's extent changes |
| Loader.BlockLoader.Pass | DATDisk.cpp:380-408 | One loop pass: the read is shortened to what is left, the count and position advance, and a flagged pointer latches failure. The buffer layout and the walk still to come stay in step |
| Loader.BlockLoader.LoadData | DATDisk.cpp:363-415 | Success and the reads made are those of the reference walk. On success the payload is at `buf[4..4+length]` with `buf[..4]` kept. A zero length changes nothing, and nothing at or past `length + 4` is written |
| Records.IsLeaf | DATDisk.cpp:147 | Definition: a record is a leaf when its child slot 0 is zero |
| Records.BranchCount | DATDisk.cpp:152-158 | A leaf has no children, any other node has `EntryCount + 1` (wrapping at 2^32) |
| Records.UnwordsWords | DATDisk.cpp:139-150 | DWORDs stored as bytes read back unchanged |
| Records.WordsUnwords | DATDisk.cpp:139-150 | Bytes read as DWORDs and stored again are unchanged |
| Records.UnflattenFlatten | DATDisk.cpp:139-150 | Entries stored as DWORDs read back unchanged |
| Records.FlattenUnflatten | DATDisk.cpp:139-150 | DWORDs read as entries and stored again are unchanged |
| Records.Decode | DATDisk.cpp:143-147 | The loaded bytes decode to a record with every slot of the layout |
| Records.DecodeEncode | DATDisk.cpp:139-150 | Every record reads back from its encoding: no two fields share bytes |
| Records.EncodeDecode | DATDisk.cpp:139-150 | Decoding loses no byte of the loaded record |
| Trees.Load | DATDisk.cpp:139-150 | A loaded record has every slot of the layout |
| Trees.LoadFails | DATDisk.cpp:139-145 | Address 0 never loads. Any other address loads exactly when the record's bytes load in full |
| Trees.LoadStored | DATDisk.cpp:139-150 | A node loads as `r` exactly when its chain stores the encoding of `r` |
| Trees.Unfold | DATDisk.cpp:212-227 | A subtree is missing exactly when its node fails to load. When it is a node, it holds the loaded record |
| Trees.Grow | DATDisk.cpp:152-158 | A node of the unfolded tree has exactly `GetBranchCount` children |
| Trees.GrowKid | DATDisk.cpp:212-227 | Child `i` of a node is the tree at the node's `i`-th child address |
| Trees.UnfoldNode | DATDisk.cpp:139-158 | A loaded node of a complete tree holds its record, fits its slots and has one child per branch |
| Trees.UnfoldKid | DATDisk.cpp:212-227 | Child `i` of a loaded inner node is the tree at its `i`-th child address |
| Trees.UnfoldDeeper | DATDisk.cpp:229-260 | A tree that unfolds completely does not change with more depth |
| Trees.GrowDeeper | DATDisk.cpp:229-260 | The same for the tree of a loaded record |
| Trees.InOrderSorted | DATDisk.cpp:229-260 | The entries of an ordered tree, in order, strictly ascend and lie within the tree's bounds |
| Trees.WeaveSorted | DATDisk.cpp:233-252 | The entries of an ordered node from child `i` on ascend and lie above that child's lower bound |
| Trees.LeftSorted | DATDisk.cpp:235-242 | The entries under child `i` of an ordered node ascend and lie between the entries on either side of it |
| Trees.OrderedKid | DATDisk.cpp:239-240 | A child of an ordered node is ordered within its slot's bounds |
| Trees.OrderedAt | DATDisk.cpp:233-245 | Entry `i` of an ordered node bounds its left child above and the next child below |
| Trees.Join | DATDisk.cpp:229-260 | Two ascending runs, the second above the first, make one ascending run |
| Trees.Cons | DATDisk.cpp:229-260 | An entry below an ascending run starts a longer ascending run |
| Trees.Between | DATDisk.cpp:229-260 | An ascending run, then an entry, then an ascending run above it make one ascending run |
| Trees.FindIn | DATDisk.cpp:245-251 | A found entry is in the sequence and has the key; no entry has the key when nothing is found |
| Trees.FindInJoin | DATDisk.cpp:229-260 | Searching a concatenation searches the first part, then the second |
| Trees.Search | DATDisk.cpp:229-260 | The reference lookup: a missing or cut subtree gives nothing, a node is searched from entry 0. Whatever it returns has the key asked for |
| Trees.SearchFrom | DATDisk.cpp:233-252 | The reference lookup from entry `i` on, in the order of the source's loop: at the end or below entry `i` go down branch `i`, at entry `i` return it, otherwise go on. Whatever it returns has the key |
| Trees.Down | DATDisk.cpp:239-242 | Going down branch `i`: the lookup in child `i`, nothing in a leaf. Whatever it returns has the key |
| Trees.SearchFinds | DATDisk.cpp:229-260 | On an ordered tree the lookup finds the first entry with the key, in key order |
| Trees.DownFinds | DATDisk.cpp:254-259 | On an ordered node the lookup in child `i` searches exactly the entries under it |
| Trees.SearchFromFinds | DATDisk.cpp:233-252 | On an ordered node the lookup from entry `i` on searches the entries from child `i` on |
| Trees.LookupSpec | DATDisk.cpp:229-260 | On an ordered tree the lookup returns an entry exactly when the tree holds that entry under the key |
| Trees.Share | DATDisk.cpp:264-265 | The progress share of each branch: the shares of all the branches add up to the node's delta, and a node with no branches gets 0 |
| Trees.Scan | DATDisk.cpp:262-316 | Definition: the reference scan, nothing for a missing or cut subtree, and a node scanned from entry 0 with its branch share. Its properties are `ScanSpec` and `ScanSnaps` |
| Trees.ScanFrom | DATDisk.cpp:270-316 | Definition: the reference scan from entry `i` on, testing each entry against `Max`, then `Min`, as the source's loop does. Its steps are `ScanFromStep` |
| Trees.Visit | DATDisk.cpp:276-290 | Definition: the scan of branch `i`, or nothing in a leaf or for a child that does not load |
| Trees.FilterMembers | DATDisk.cpp:284-293 | The filtered entries are exactly the entries in range |
| Trees.FilterJoin | DATDisk.cpp:262-316 | Filtering a concatenation filters each part |
| Trees.FoundsJoin | DATDisk.cpp:262-316 | The entries reported in a concatenation are those of each part |
| Trees.FilterNone | DATDisk.cpp:274-285 | Filtering entries of which none is in range gives nothing |
| Trees.FilterAscending | DATDisk.cpp:262-316 | Filtering an ascending sequence gives an ascending sequence |
| Trees.ScanFromStep | DATDisk.cpp:270-302 | One entry of the scan, in the source's order of tests: above `Max` it visits the left child and stops; below `Min` it passes on; in range it visits the left child, reports the entry and, in an inner node, the advanced progress |
| Trees.Report | DATDisk.cpp:292-301 | An entry in range is reported exactly once |
| Trees.ScanFinds | DATDisk.cpp:262-316 | On an ordered tree the scan reports exactly the entries in range, in key order |
| Trees.VisitFinds | DATDisk.cpp:276-290 | On an ordered node the scan of child `i` reports the entries in range under it |
| Trees.ScanFromFinds | DATDisk.cpp:270-310 | On an ordered node the scan from entry `i` on reports the entries in range from child `i` on |
| Trees.StopFinds | DATDisk.cpp:274-282 | Stopping at an entry above `Max` loses nothing in range |
| Trees.SkipFinds | DATDisk.cpp:284-285 | Passing over an entry below `Min` with its left child loses nothing in range |
| Trees.ReportFinds | DATDisk.cpp:287-301 | At an entry in range, the left child's entries in range, then the entry, then the rest |
| Trees.ScanSpec | DATDisk.cpp:262-316 | On an ordered tree the scan reports each entry in range once, in ascending order, and nothing else |
| Trees.ScanSnaps | DATDisk.cpp:304-316 | A node with no key above `Max` ends its scan by reporting exactly `start + delta` |
| Trees.ScanFromSnaps | DATDisk.cpp:304-316 | The same from any entry on |
| Nodes.BTreeNode.constructor | DATDisk.cpp:122-128 | A new node owns its structure and an empty child cache |
| Nodes.BTreeNode.LoadData | DATDisk.cpp:139-150 | Address 0 fails and changes nothing. Otherwise the load succeeds exactly when the record loads from the address. On success the node holds that record, and its leaf flag is set iff child slot 0 is zero. The device reads made are none for address 0 and otherwise those of the record's chain load |
| Nodes.BTreeNode.GetBranchCount | DATDisk.cpp:152-158 | The branch count of the node's record |
| Nodes.BTreeNode.GetBranch | DATDisk.cpp:212-227 | A cached child is returned as is. Otherwise the child is loaded, cached and returned when its record loads, and the slot is left empty when it does not. No other slot changes. A cached child is served with no device read; otherwise the reads are those of the child's chain load |
| Nodes.BTreeNode.Fill | DATDisk.cpp:216-224 | An empty slot is filled exactly when its child loads, and no other slot changes. The reads are those of the child's chain load |
| Nodes.BTreeNode.Slot | DATDisk.cpp:212-227 | A cached child is a valid node, loaded from its slot's address and owned by this node alone |
| Nodes.BTreeNode.Fetch | DATDisk.cpp:216-222 | A new node loaded from the address, or nothing when the load fails. The device reads are those of the record's chain load |
| Nodes.BTreeNode.LoadChildren | DATDisk.cpp:160-178 | Each of the first `GetBranchCount` slots is filled exactly when its child loads. Cached children are kept, and slots past the count do not change |
| Nodes.BTreeNode.Leaf | DATDisk.cpp:239-242 | A leaf node of the tree has no children to descend into |
| Nodes.BTreeNode.Child | DATDisk.cpp:239-242 | The branch `GetBranch` returns is the child subtree, or a missing one when it did not load |
| Nodes.BTreeNode.Branch | DATDisk.cpp:212-227 | The branch `GetBranch` returns on an inner node is child `i` of the node's unfolding, or that child is absent when none is returned. Every cached child stays cached |
| Nodes.BTreeNode.Descend | DATDisk.cpp:254-259 | Going down branch `i` gives the lookup's result in child `i`. A leaf or a branch that fails to load gives nothing. Every cached child stays cached |
| Nodes.BTreeNode.LookupBranch | DATDisk.cpp:239-240 | The child's lookup, with this node's validity kept. Every cached child stays cached |
| Nodes.BTreeNode.Lookup | DATDisk.cpp:229-260 | The result is the reference lookup of the tree at the node's address. The node stays valid, and only the child cache changes. Every cached child stays cached |
| Nodes.BTreeNode.VisitBranch | DATDisk.cpp:276-279 | The scan of branch `i` gives the reference scan of child `i`, and nothing for a leaf or a child that fails to load. Every cached child stays cached |
| Nodes.BTreeNode.ScanBranch | DATDisk.cpp:289-290 | The child's scan, with this node's validity kept. Every cached child stays cached |
| Nodes.BTreeNode.ScanEntry | DATDisk.cpp:272-301 | One pass of the scan loop: it stops exactly at an entry above `Max`, and its events continue the reference scan of the node. Every cached child stays cached |
| Nodes.BTreeNode.FindEntryIDsWithinRange | DATDisk.cpp:262-316 | The events are the reference scan of the tree at the node's address. Every cached child stays cached |
| Nodes.BTreeNode.Init | DATDisk.cpp:326-336 | The root loads from the header's tree origin exactly when its record loads there, with the reads of that chain load |
| Archive.AllocSize | DATDisk.cpp:88 | The buffer size computed in 32-bit arithmetic is `length + 4` below 2^32 - 4, and less than 4 above |
| Archive.AllocWraps | DATDisk.cpp:88 | A length of 2^32 - 3 yields a 1-byte buffer for a load that writes `length + 4` bytes |
| Archive.DATDisk.constructor | DATDisk.cpp:39-44 | A new archive whose tree reads through its own loader, not yet opened |
| Archive.DATDisk.Open | DATDisk.cpp:52-61 | The open succeeds exactly when the header is read and the root loads from its tree origin. The root then holds that record |
| Archive.DATDisk.GetData | DATDisk.cpp:79-109 | A file is returned exactly when the lookup finds its entry and its chain loads. It then has the ID and length of the entry, and its fresh buffer of `length + 4` bytes holds the file's bytes from offset 4 |
| Archive.DATDisk.GetDataEx | DATDisk.cpp:111-117 | The chain load at the given head: success as the reference walk, with the payload after the buffer's 4-byte slot. A zero length leaves the buffer as it was, and nothing at or past `length + 4` is written |
| Archive.DATDisk.FindFileIDsWithinRange | DATDisk.cpp:63-77 | The events are the tree scan started at 0 with 100 to share out. On an ordered directory the files reported are exactly its entries in range, ascending |

## Left out

- `DiskDev` and its Win32 calls are not part of this model. The file is a map from address to bytes. `DiskDev::OpenFile`'s header read is the `device` parameter of `BlockLoader.Init` and `DATDisk.Open`, and a seek failure counts as a short read.
- Archive.DATDisk.Open: requires a header whose block size exceeds 4, and so does `BlockLoader.LoadData`. With a block size of exactly 4, the per-block payload `BlockSize - 4` is 0, so the remaining length never decreases. The loop then follows pointers until a read fails or a pointer is 0 or flagged, and forever on a cyclic chain. With a block size of 0 to 3, that DWORD wraps to at least 0xFFFFFFFC, so any shorter load becomes one read of `Length + 4` bytes that ends the loop. The model covers neither case.
- Archive.DATDisk.Open: a second successful open of the same archive object keeps the children cached from the first open. The model promises nothing about lookups after it.
- Archive.DATDisk.GetData: requires a successful open of a fresh archive object. The same holds for `GetDataEx` and `FindFileIDsWithinRange`.
- Archive.DATDisk.GetData: requires the whole directory tree to unfold completely to the given depth, as `Lookup` does (below). The requirement covers every reachable node, not just those on the lookup path.
- Archive.DATDisk.FindFileIDsWithinRange: the same whole-tree requirement as `FindEntryIDsWithinRange` (below).
- Archive.DATDisk.GetData: a null `pEntry` is not modelled. That call only frees the buffer; the model always returns the entry.
- Archive.DATDisk.GetData: the returned buffer is the whole buffer. The file's bytes start at offset 4, after the loader's slot.
- Nodes.BTreeNode.Lookup: requires the whole tree reachable from the node to unfold completely to the given depth. Within that depth, every reachable node must load or be missing, must hold at most 61 entries, and must not lie on a cycle. The C++ code only visits the nodes on the lookup path. Such an archive is still excluded when a node that breaks these limits sits off that path, for example a sibling subtree holding a record with 70 entries, or a cycle elsewhere, even though the C++ lookup there returns normally. On the path itself, such a node makes the C++ code read past its arrays or recurse forever.
- Nodes.BTreeNode.FindEntryIDsWithinRange: the same whole-tree requirement as `Lookup`. It is stricter than needed for the children the scan never enters.
- Nodes.BTreeNode.LoadChildren: requires the branch count to be at most 62. An inner node with 62 or more entries makes `DATDisk.cpp:162-176` write past `m_Branches[0x3E]`, and the model does not cover that case.
- Nodes.BTreeNode.GetBranch: device reads are a ghost result handed up from `BlockLoader.LoadData` through `LoadData` and `Fetch`, not a record kept by the loader, so they cover the calls that return them. `Lookup` and `FindEntryIDsWithinRange` do not report the reads of the children they load.
- Nodes.BTreeNode.FindEntryIDsWithinRange: progress values are reals. Single-precision rounding is not modelled.
- Callbacks are not called. Entries and progress values are returned as one sequence of events. The static callback pointers and their setters are not modelled, and neither is a null callback (no event would be emitted).
- The node's fields are read as the decoding of the bytes after the structure's 4-byte slot. `BTreeData` is declared in a header file that is not part of this model; its layout is taken as 4 bytes, then 62 child addresses, the entry count and 61 entries of three little-endian DWORDs.
- A failed `new` is not modelled: allocation does not fail in Dafny.
- `LoadChildrenRecursive` is not modelled. It is optional pre-warming, and its termination depends on an acyclic tree that the code never checks.
- `OpenDisks`, `CloseDisks`, the portal and cell statics, the timing and the debug output of `FindFileIDsWithinRange`, and the destructors are not modelled. They are global plumbing, clocks and memory release.
- `SyncWrite` is not modelled: nothing calls it.

## Findings

| source | as written | input that shows it | evidently intended | confidence | as-written member | corrected member |
|---|---|---|---|---|---|---|
| DATDisk.cpp:88 | `GetData` sizes the buffer as `sizeof(DWORD) + FileInfo.Length`, which wraps in 32-bit arithmetic | a directory entry with `Length` 0xFFFFFFFD gives a 1-byte buffer, into which `LoadData` writes up to `Length + 4` bytes | a buffer of `Length + 4` bytes, or a refusal of such lengths | medium: only builds with a 32-bit `size_t`; not executed | Archive.AllocWraps | Archive.DATDisk.GetData |
