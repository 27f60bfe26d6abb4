/**
 * The B-tree node object: the node structure loaded in place through the
 * block loader, its leaf flag, and the array of children it loads lazily and
 * keeps. The walks over it are proved to compute the reference walks of
 * `Trees` over the tree unfolded from the node's address.
 */
module Nodes {
  import opened Wrappers
  import opened Bytes
  import opened Chains
  import opened Records
  import opened Trees
  import opened Loader

  class BTreeNode {
    /** The loader every node of the tree reads through. */
    const loader: BlockLoader
    /** The node structure (`m_TreeData`): the loader's 4-byte slot, then the record. */
    const data: array<byte>
    /** The cached children (`m_Branches`): a slot is empty until the child is first loaded. */
    const branches: array<BTreeNode?>
    /** The structure's fields as the code reads them: the decoding of the bytes after the slot. */
    var rec: Record
    /** Set by a load: the first child slot of the record is zero. */
    var leaf: bool
    /** The address the node was loaded from. */
    ghost var at: u32
    /** The node, its two arrays and everything its cached children own. */
    ghost var Repr: set<object>

    /** The fields are the decoding of the bytes the loader left in the structure. */
    ghost predicate Coherent()
      reads this, data
    {
      data.Length == NodeSize && rec == Decode(data[4..])
    }

    /** The disk the loader reads. */
    function File(): Disk
    {
      loader.file
    }

    /** The block size the loader uses. */
    function BlockSize(): u32
      reads loader
    {
      loader.header.blockSize
    }

    /**
     * The node's own part of validity: it owns itself and its two arrays but
     * not the loader, and holds the record loaded from `at` with its leaf flag.
     */
    ghost predicate Local()
      reads this, loader
    {
      && this in Repr && data in Repr && branches in Repr && loader !in Repr
      && data.Length == NodeSize && branches.Length == BranchSlots
      && loader.Ready()
      && Load(File(), BlockSize(), at) == Some(rec)
      && leaf == IsLeaf(rec)
    }

    /**
     * `c` is a valid node, loaded through the same loader from `addr`, and
     * owns none of this node's own objects.
     */
    ghost predicate ChildOk(c: BTreeNode, addr: u32)
      reads loader, c, c.Repr
      decreases c.Repr, 2
    {
      && this !in c.Repr && data !in c.Repr && branches !in c.Repr
      && c.loader == loader && c.at == addr
      && c.Valid()
    }

    /**
     * The node holds the record loaded from `at`, with its leaf flag, and
     * every filled child slot holds a valid node loaded from the address in
     * that slot of the record; children own disjoint parts of the heap.
     */
    ghost predicate Valid()
      reads this, Repr, loader
      decreases Repr, 1
    {
      && Local()
      && (forall k :: 0 <= k < BranchSlots && branches[k] != null ==>
            && branches[k] in Repr && branches[k].Repr <= Repr && branches[k] in branches[k].Repr
            && this !in branches[k].Repr && ChildOk(branches[k], rec.branches[k]))
      && (forall i, j :: 0 <= i < j < BranchSlots && branches[i] != null && branches[j] != null ==>
            branches[i].Repr !! branches[j].Repr)
    }

    /** A node with no cached children, owning just itself and its two arrays. */
    ghost predicate Empty()
      reads this, branches
    {
      && Repr == {this, data, branches}
      && data.Length == NodeSize && branches.Length == BranchSlots
      && forall i :: 0 <= i < BranchSlots ==> branches[i] == null
    }

    /** The tree the node stands for, unfolded to depth `h`. */
    ghost function Tree(h: nat): Trees.Tree
      reads this`at, loader
      requires loader.Ready()
    {
      Unfold(File(), BlockSize(), at, h)
    }

    /** A node not yet loaded, with every child slot empty. */
    constructor(loader: BlockLoader)
      ensures this.loader == loader && Empty() && Coherent() && fresh(data) && fresh(branches)
    {
      this.loader := loader;
      data := new byte[NodeSize](_ => 0);
      branches := new BTreeNode?[BranchSlots](_ => null);
      leaf := false;
      at := 0;
      rec := Decode(seq(RecordSize, _ => 0));
      new;
      assert data[4..] == seq(RecordSize, _ => 0);
      Repr := {this, data, branches};
    }

    /**
     * Loads the node record from the chain at `head`: address 0 fails at
     * once, otherwise the record's bytes are loaded into the structure after
     * its slot, even when the load fails part-way, and on success the leaf
     * flag is set from the first child slot. A node that had no cached
     * children is then valid. `trace` is the device reads made: none for
     * address 0, otherwise those of the chain load.
     */
    method LoadData(head: u32) returns (ok: bool, ghost trace: seq<BlockRead>)
      requires loader.Ready() && data.Length == NodeSize
      modifies this, data
      ensures Repr == old(Repr)
      ensures head == 0 ==> !ok && unchanged(this, data)
      ensures head != 0 ==> Coherent()
      ensures ok <==> Load(File(), BlockSize(), head).Some?
      ensures ok ==> at == head && Load(File(), BlockSize(), head) == Some(rec) && leaf == IsLeaf(rec)
      ensures !ok ==> at == old(at) && leaf == old(leaf)
      ensures ok && old(Empty()) ==> Valid()
      ensures head == 0 ==> trace == []
      ensures trace == Chain(File(), BlockSize(), head, RecordSize).trace
    {
      if head == 0 {
        Finished(File(), BlockSize(), 0, RecordSize, [], [], Chain(File(), BlockSize(), 0, RecordSize));
        return false, [];
      }
      var loaded;
      loaded, trace := loader.LoadData(head, data, RecordSize as u32);
      rec := Decode(data[4..]);
      if !loaded {
        return false, trace;
      }
      assert data[4..] == Chain(File(), BlockSize(), head, RecordSize).payload;
      leaf := rec.branches[0] == 0;
      at := head;
      ok := true;
    }

    /** The number of children: none for a leaf, one more than the entries otherwise. */
    function GetBranchCount(): (n: u32)
      reads this
      requires WellSized(rec) && leaf == IsLeaf(rec)
      ensures n == BranchCount(rec)
    {
      if leaf then 0 else (rec.entryCount + 1) % 0x1_0000_0000
    }

    /**
     * The child in slot `index`, loading it on first use from the address in
     * that slot of the record. A child that fails to load leaves the slot
     * empty, so a later call tries again; a cached child is returned as it
     * is, with no device read (`trace` is the reads made).
     */
    method GetBranch(index: nat) returns (b: BTreeNode?, ghost trace: seq<BlockRead>)
      requires Valid() && index < BranchSlots
      modifies this, branches
      ensures Valid() && fresh(Repr - old(Repr)) && at == old(at) && rec == old(rec)
      ensures b == branches[index]
      ensures forall k :: 0 <= k < BranchSlots && k != index ==> branches[k] == old(branches[k])
      ensures old(branches[index]) != null ==> b == old(branches[index])
      ensures b != null <==> Load(File(), BlockSize(), rec.branches[index]).Some?
      ensures old(branches[index]) != null ==> trace == []
      ensures old(branches[index]) == null ==> trace == Chain(File(), BlockSize(), rec.branches[index], RecordSize).trace
    {
      if branches[index] == null {
        b, trace := Fill(index);
      } else {
        Slot(index);
        b, trace := branches[index], [];
      }
    }

    /** The cache miss of `GetBranch`: the child of the empty slot `index` is loaded and, when it loads, cached. */
    method Fill(index: nat) returns (b: BTreeNode?, ghost trace: seq<BlockRead>)
      requires Valid() && index < BranchSlots && branches[index] == null
      modifies this, branches
      ensures Valid() && fresh(Repr - old(Repr)) && at == old(at) && rec == old(rec)
      ensures b == branches[index]
      ensures forall k :: 0 <= k < BranchSlots && k != index ==> branches[k] == old(branches[k])
      ensures b != null <==> Load(File(), BlockSize(), rec.branches[index]).Some?
      ensures trace == Chain(File(), BlockSize(), rec.branches[index], RecordSize).trace
    {
      label Before:
      b, trace := Fetch(rec.branches[index]);
      if b != null {
        branches[index] := b;
        Repr := Repr + b.Repr;
        Adopted@Before(index);
      }
    }

    /** What validity says about a filled child slot. */
    lemma Slot(k: nat)
      requires Valid() && k < BranchSlots && branches[k] != null
      ensures branches[k] in Repr && branches[k].Repr <= Repr
      ensures this !in branches[k].Repr && data !in branches[k].Repr && branches !in branches[k].Repr
      ensures branches[k].loader == loader && branches[k].at == rec.branches[k] && branches[k].Valid()
      ensures Load(File(), BlockSize(), rec.branches[k]) == Some(branches[k].rec)
    {
      assert ChildOk(branches[k], rec.branches[k]);
      assert branches[k].Valid();
      assert branches[k].Local();
    }

    /**
     * A new node loaded from `addr` through this node's loader, or nothing
     * when the load fails (the new node is then dropped), with the device
     * reads the load made.
     */
    method Fetch(addr: u32) returns (node: BTreeNode?, ghost trace: seq<BlockRead>)
      requires loader.Ready()
      ensures trace == Chain(File(), BlockSize(), addr, RecordSize).trace
      ensures node != null <==> Load(File(), BlockSize(), addr).Some?
      ensures node != null ==> fresh(node.Repr) && node in node.Repr && node.loader == loader && node.at == addr && node.Valid()
    {
      node := new BTreeNode(loader);
      var ok;
      ok, trace := node.LoadData(addr);
      if !ok {
        node := null;
      }
    }

    /**
     * Loads every child slot the node uses that is still empty; a slot whose
     * child fails to load stays empty.
     */
    method LoadChildren()
      requires Valid() && BranchCount(rec) as int <= BranchSlots
      modifies this, branches
      ensures Valid() && fresh(Repr - old(Repr)) && at == old(at) && rec == old(rec)
      ensures forall k :: 0 <= k < BranchCount(rec) as int ==>
        (branches[k] != null <==> Load(File(), BlockSize(), rec.branches[k]).Some?)
      ensures forall k :: 0 <= k < BranchSlots && old(branches[k]) != null ==> branches[k] == old(branches[k])
      ensures forall k :: BranchCount(rec) as int <= k < BranchSlots ==> branches[k] == old(branches[k])
    {
      var i: u32 := 0;
      while i < GetBranchCount()
        invariant Valid() && fresh(Repr - old(Repr)) && at == old(at) && rec == old(rec)
        invariant i as int <= BranchCount(rec) as int
        invariant forall k :: 0 <= k < i as int ==>
          (branches[k] != null <==> Load(File(), BlockSize(), rec.branches[k]).Some?)
        invariant forall k :: 0 <= k < BranchSlots && old(branches[k]) != null ==> branches[k] == old(branches[k])
        invariant forall k :: i as int <= k < BranchSlots ==> branches[k] == old(branches[k])
        decreases BranchCount(rec) as int - i as int
      {
        // the body of GetBranch: an empty slot is filled when its child loads
        var _, _ := GetBranch(i as nat);
        i := i + 1;
      }
    }

    /**
     * `GetBranch` on an inner node, together with what it means for the
     * unfolding: the branch returned is child `i` of the tree, or that child
     * is absent when no branch is returned.
     */
    method Branch(i: nat, ghost h: nat) returns (b: BTreeNode?)
      requires Valid() && Complete(Tree(h)) && !leaf && i <= rec.entryCount as int
      modifies this, branches
      ensures Valid() && fresh(Repr - old(Repr)) && at == old(at) && rec == old(rec)
      ensures forall k :: 0 <= k < BranchSlots && old(branches[k]) != null ==> branches[k] == old(branches[k])
      ensures h > 0 && Tree(h).Node? && i < |Tree(h).kids| && b == branches[i]
      ensures b == null ==> Tree(h).kids[i] == Absent
      ensures b != null ==> b.loader == loader && Tree(h).kids[i] == b.Tree(h - 1)
    {
      ghost var trace;
      b, trace := GetBranch(i);
      if b != null {
        Slot(i);
      }
      Child(i, h, b);
    }

    /** The lookup continued in child `i`: nothing in a leaf or when the child does not load. */
    method Descend(i: nat, id: u32, ghost h: nat) returns (found: Option<Entry>)
      requires Valid() && Complete(Tree(h)) && i <= rec.entryCount as int
      modifies Repr
      decreases h, 0
      ensures Valid() && fresh(Repr - old(Repr)) && at == old(at) && rec == old(rec) && unchanged(data)
      ensures forall k :: 0 <= k < BranchSlots && old(branches[k]) != null ==> branches[k] == old(branches[k])
      ensures found == Down(Tree(h), id, i)
    {
      if leaf {
        Leaf(i, h);
        return None;
      }
      var b := Branch(i, h);
      if b == null {
        return None;
      }
      found := LookupBranch(i, id, h - 1);
    }

    /** The lookup handed to the cached child in slot `i`, which then belongs to this node again. */
    method LookupBranch(i: nat, id: u32, ghost g: nat) returns (found: Option<Entry>)
      requires Valid() && i < BranchSlots && branches[i] != null && branches[i].loader == loader
      requires Complete(branches[i].Tree(g))
      modifies Repr
      decreases g, 2
      ensures Valid() && fresh(Repr - old(Repr)) && at == old(at) && rec == old(rec) && unchanged(data)
      ensures forall k :: 0 <= k < BranchSlots && old(branches[k]) != null ==> branches[k] == old(branches[k])
      ensures found == Search(old(branches[i].Tree(g)), id)
    {
      var b := branches[i];
      Slot(i);
      label Before:
      found := b.Lookup(id, g);
      Repr := Repr + b.Repr;
      Regained@Before(i);
    }

    /**
     * Regrouping a concatenation. Dafny knows this fact; calling it as a
     * lemma keeps it out of the scan loop's own proof obligation, which is
     * much cheaper for the solver than asserting it there.
     */
    lemma Appended(a: seq<Event>, b: seq<Event>, c: seq<Event>)
      ensures (a + b) + c == a + (b + c)
    {
    }

    /** A leaf's unfolding has no children. */
    lemma Leaf(i: nat, h: nat)
      requires Local() && Complete(Tree(h)) && leaf && i <= rec.entryCount as int
      ensures Tree(h).Node? && Tree(h).rec == rec && i <= Tree(h).rec.entryCount as int && |Tree(h).kids| == 0
    {
      UnfoldNode(File(), BlockSize(), at, h, rec);
    }

    /**
     * Child `i` of an inner node's unfolding is the unfolding, one level
     * shallower, of the node `b` loaded from slot `i`, or absent when none loads.
     */
    lemma Child(i: nat, h: nat, b: BTreeNode?)
      requires Local() && Complete(Tree(h)) && !leaf && i <= rec.entryCount as int
      requires b != null <==> Load(File(), BlockSize(), rec.branches[i]).Some?
      requires b != null ==> b.loader == loader && b.at == rec.branches[i]
      ensures h > 0 && Tree(h).Node? && Tree(h).rec == rec && i < |Tree(h).kids|
      ensures b == null ==> Tree(h).kids[i] == Absent
      ensures b != null ==> Tree(h).kids[i] == b.Tree(h - 1)
    {
      UnfoldNode(File(), BlockSize(), at, h, rec);
      UnfoldKid(File(), BlockSize(), at, h, rec, i);
    }

    /**
     * A valid node that has just been placed in the empty slot `i` leaves
     * this node valid once this node owns it too.
     */
    twostate lemma Adopted(i: nat)
      requires old(Valid()) && i < BranchSlots && old(branches[i]) == null && branches[i] != null
      requires unchanged(this`at, this`leaf, this`rec, data, loader)
      requires forall k :: 0 <= k < BranchSlots && k != i ==> branches[k] == old(branches[k])
      requires forall o :: o in old(Repr) && o != this && o != branches ==> unchanged(o)
      requires Repr == old(Repr) + branches[i].Repr
      requires fresh(branches[i].Repr) && branches[i] in branches[i].Repr
      requires branches[i].Valid() && branches[i].loader == loader && branches[i].at == rec.branches[i]
      ensures Valid() && fresh(Repr - old(Repr))
    {
      var c := branches[i];
      forall k | 0 <= k < BranchSlots && branches[k] != null
        ensures branches[k] in Repr && branches[k].Repr <= Repr && branches[k] in branches[k].Repr
        ensures this !in branches[k].Repr && ChildOk(branches[k], rec.branches[k])
      {
        if k != i {
          assert old(ChildOk(branches[k], rec.branches[k]));
        }
      }
      forall j, k | 0 <= j < k < BranchSlots && branches[j] != null && branches[k] != null
        ensures branches[j].Repr !! branches[k].Repr
      {
        if j != i && k != i {
          assert old(branches[j].Repr !! branches[k].Repr);
        }
      }
    }

    /**
     * After the child in slot `i` has changed only what it owned, and owned
     * new objects besides, this node is valid again once it owns them too.
     */
    twostate lemma Regained(i: nat)
      requires old(Valid()) && i < BranchSlots && old(branches[i]) != null
      requires unchanged(this`at, this`leaf, this`rec, data, branches, loader)
      requires Repr == old(Repr) + branches[i].Repr
      requires fresh(branches[i].Repr - old(branches[i].Repr))
      requires branches[i].Valid() && branches[i].at == old(branches[i].at)
      requires forall o :: o in old(Repr) && o !in old(branches[i].Repr) && o != this ==> unchanged(o)
      ensures Valid() && fresh(Repr - old(Repr))
    {
      var c := branches[i];
      forall k | 0 <= k < BranchSlots && branches[k] != null
        ensures branches[k] in Repr && branches[k].Repr <= Repr && branches[k] in branches[k].Repr
          ensures this !in branches[k].Repr && ChildOk(branches[k], rec.branches[k])
      {
        if k != i {
          assert old(ChildOk(branches[k], rec.branches[k]));
          assert old(branches[k].Repr !! c.Repr);
        }
      }
      forall j, k | 0 <= j < k < BranchSlots && branches[j] != null && branches[k] != null
        ensures branches[j].Repr !! branches[k].Repr
      {
        if j != i && k != i {
          assert old(branches[j].Repr !! branches[k].Repr);
        }
      }
    }

    /**
     * Looks `id` up below this node: at the first entry whose key exceeds
     * `id` the lookup goes down that entry's left child, at an equal key it
     * reports the entry, and past the last entry it goes down the last child.
     * On a tree ordered by key this finds exactly the entry with key `id`
     * (`Trees.LookupSpec`).
     */
    method Lookup(id: u32, ghost h: nat) returns (found: Option<Entry>)
      requires Valid() && Complete(Tree(h))
      modifies Repr
      decreases h, 1
      ensures Valid() && this in Repr && fresh(Repr - old(Repr)) && at == old(at) && rec == old(rec) && unchanged(data)
      ensures forall k :: 0 <= k < BranchSlots && old(branches[k]) != null ==> branches[k] == old(branches[k])
      ensures found == Search(Tree(h), id)
    {
      UnfoldNode(File(), BlockSize(), at, h, rec);
      ghost var t := Tree(h);
      var i: u32 := 0;
      while i < rec.entryCount
        invariant i <= t.rec.entryCount
        invariant Valid() && Repr == old(Repr) && at == old(at) && rec == old(rec) && unchanged(data)
        invariant forall k :: 0 <= k < BranchSlots && old(branches[k]) != null ==> branches[k] == old(branches[k])
        invariant SearchFrom(t, id, i as nat) == Search(t, id)
        decreases t.rec.entryCount - i
      {
        if id < rec.entries[i].id {
          found := Descend(i as nat, id, h);
          return;
        }
        if id == rec.entries[i].id {
          return Some(rec.entries[i]);
        }
        i := i + 1;
      }
      found := Descend(i as nat, id, h);
    }

    /** The scan continued in child `i`: nothing in a leaf or when the child does not load. */
    method VisitBranch(i: nat, min: u32, max: u32, p: real, share: real, ghost h: nat) returns (events: seq<Event>)
      requires Valid() && Complete(Tree(h)) && i <= rec.entryCount as int
      modifies Repr
      decreases h, 1
      ensures Valid() && fresh(Repr - old(Repr)) && at == old(at) && rec == old(rec) && unchanged(data)
      ensures forall k :: 0 <= k < BranchSlots && old(branches[k]) != null ==> branches[k] == old(branches[k])
      ensures events == Visit(Tree(h), min, max, i, p, share)
    {
      if leaf {
        Leaf(i, h);
        return [];
      }
      var b := Branch(i, h);
      if b == null {
        return [];
      }
      events := ScanBranch(i, min, max, p, share, h - 1);
    }

    /** The scan handed to the cached child in slot `i`, which then belongs to this node again. */
    method ScanBranch(i: nat, min: u32, max: u32, p: real, share: real, ghost g: nat) returns (events: seq<Event>)
      requires Valid() && i < BranchSlots && branches[i] != null && branches[i].loader == loader
      requires Complete(branches[i].Tree(g))
      modifies Repr
      decreases g, 4
      ensures Valid() && fresh(Repr - old(Repr)) && at == old(at) && rec == old(rec) && unchanged(data)
      ensures forall k :: 0 <= k < BranchSlots && old(branches[k]) != null ==> branches[k] == old(branches[k])
      ensures events == Scan(old(branches[i].Tree(g)), min, max, p, share)
    {
      var b := branches[i];
      Slot(i);
      label Before:
      events := b.FindEntryIDsWithinRange(min, max, p, share, g);
      Repr := Repr + b.Repr;
      Regained@Before(i);
    }

    /**
     * Reports, in key order, every entry below this node whose key lies in
     * `min..max`, together with the progress made: each child is given an
     * equal share of `progressDelta`, an inner node reports the progress
     * after each entry in range, and the scan reports `progress +
     * progressDelta` when it has passed the last child. An entry above `max`
     * ends the node's scan after its left child, without that last report.
     * On a tree ordered by key the entries reported are exactly those in
     * range (`Trees.ScanSpec`).
     */
    method FindEntryIDsWithinRange(min: u32, max: u32, progress: real, progressDelta: real, ghost h: nat)
      returns (events: seq<Event>)
      requires Valid() && Complete(Tree(h))
      modifies Repr
      decreases h, 3
      ensures Valid() && this in Repr && fresh(Repr - old(Repr)) && at == old(at) && rec == old(rec) && unchanged(data)
      ensures forall k :: 0 <= k < BranchSlots && old(branches[k]) != null ==> branches[k] == old(branches[k])
      ensures events == Scan(Tree(h), min, max, progress, progressDelta)
    {
      UnfoldNode(File(), BlockSize(), at, h, rec);
      ghost var t := Tree(h);
      var numBranches := GetBranchCount();
      var branchDelta := if numBranches != 0 then progressDelta / numBranches as real else 0.0;
      var progressStart := progress;
      var p := progress;
      events := [];
      var i: u32 := 0;
      while i < rec.entryCount
        invariant i <= t.rec.entryCount && t == Tree(h)
        invariant Valid() && fresh(Repr - old(Repr)) && at == old(at) && rec == old(rec) && unchanged(data)
        invariant forall k :: 0 <= k < BranchSlots && old(branches[k]) != null ==> branches[k] == old(branches[k])
        invariant events + ScanFrom(t, min, max, i as nat, p, branchDelta, progressStart, progressDelta)
          == Scan(t, min, max, progress, progressDelta)
        decreases t.rec.entryCount - i
      {
        var part, stop;
        ghost var before := events;
        part, p, stop := ScanEntry(i as nat, min, max, p, branchDelta, h, progressStart, progressDelta);
        events := events + part;
        if stop {
          return;
        }
        Appended(before, part, ScanFrom(t, min, max, i as nat + 1, p, branchDelta, progressStart, progressDelta));
        i := i + 1;
      }
      ghost var before, reached := events, p;
      var last := VisitBranch(i as nat, min, max, p, branchDelta, h);
      events := events + last;
      p := progressStart + progressDelta;
      events := events + [Progress(p)];
      assert ScanFrom(t, min, max, i as nat, reached, branchDelta, progressStart, progressDelta) == last + [Progress(p)];
      Appended(before, last, [Progress(p)]);
    }

    /**
     * One entry of the scan: an entry above `max` visits its left child and
     * stops the node's scan; an entry below `min` is passed over; an entry in
     * range visits its left child, is reported, and in an inner node moves the
     * progress on by one share and reports it.
     */
    method ScanEntry(i: nat, min: u32, max: u32, p: real, share: real, ghost h: nat, ghost start: real, ghost d: real)
      returns (events: seq<Event>, q: real, stop: bool)
      requires Valid() && Complete(Tree(h)) && i < rec.entryCount as int
      modifies Repr
      decreases h, 2
      ensures Valid() && fresh(Repr - old(Repr)) && at == old(at) && rec == old(rec) && unchanged(data)
      ensures forall k :: 0 <= k < BranchSlots && old(branches[k]) != null ==> branches[k] == old(branches[k])
      ensures stop <==> rec.entries[i].id > max
      ensures stop ==> events == ScanFrom(Tree(h), min, max, i, p, share, start, d)
      ensures !stop ==>
        events + ScanFrom(Tree(h), min, max, i + 1, q, share, start, d) == ScanFrom(Tree(h), min, max, i, p, share, start, d)
    {
      q := p;
      var id := rec.entries[i].id;
      if id > max {
        events := VisitBranch(i, min, max, p, share, h);
        ScanFromStep(Tree(h), min, max, i, p, share, start, d);
        return events, q, true;
      }
      if id < min {
        ScanFromStep(Tree(h), min, max, i, p, share, start, d);
        return [], q, false;
      }
      events := VisitBranch(i, min, max, p, share, h);
      events := events + [Found(rec.entries[i])];
      if !leaf {
        q := q + share;
        events := events + [Progress(q)];
      }
      stop := false;
      ScanFromStep(Tree(h), min, max, i, p, share, start, d);
    }

    /** Loads the root node from the tree origin named by the archive header (`BTree::Init`). */
    method Init() returns (ok: bool, ghost trace: seq<BlockRead>)
      requires loader.Ready() && data.Length == NodeSize
      modifies this, data
      ensures Repr == old(Repr)
      ensures ok <==> Load(File(), BlockSize(), loader.header.treeOrigin).Some?
      ensures ok ==> at == loader.header.treeOrigin && Load(File(), BlockSize(), at) == Some(rec) && leaf == IsLeaf(rec)
      ensures ok && old(Empty()) ==> Valid()
      ensures trace == Chain(File(), BlockSize(), loader.header.treeOrigin, RecordSize).trace
    {
      ok, trace := LoadData(loader.GetTreeOrigin());
    }
  }
}
