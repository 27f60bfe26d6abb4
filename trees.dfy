/**
 * The B-tree as stored on disk, unfolded from an address into a value, and
 * the reference behaviour of the two walks over it: the point lookup and the
 * in-order range scan. The lemmas state what the walks compute on a tree
 * whose keys respect B-tree ordering.
 */
module Trees {
  import opened Wrappers
  import opened Bytes
  import opened Chains
  import opened Records

  /**
   * Loading a node record from the chain at `addr`: address 0 fails
   * without a read, and otherwise the record's bytes must load in full.
   */
  function Load(file: Disk, blockSize: u32, addr: u32): (r: Option<Record>)
    requires blockSize > 4
    ensures r.Some? ==> WellSized(r.value)
  {
    if addr == 0 then None
    else
      var c := Chain(file, blockSize, addr, RecordSize);
      if c.ok then Some(Decode(c.payload)) else None
  }

  /** Address 0 never loads; any other address loads exactly when the record's bytes load in full. */
  lemma LoadFails(file: Disk, blockSize: u32, addr: u32)
    requires blockSize > 4
    ensures addr == 0 ==> Load(file, blockSize, addr).None?
    ensures Load(file, blockSize, addr).Some? <==> addr != 0 && Chain(file, blockSize, addr, RecordSize).ok
  {
  }

  /** A node at `addr` loads as `r` exactly when the chain there stores the bytes of `r`. */
  lemma LoadStored(file: Disk, blockSize: u32, addr: u32, r: Record)
    requires blockSize > 4 && WellSized(r)
    ensures Load(file, blockSize, addr) == Some(r) <==> Stored(file, blockSize, addr, Encode(r))
  {
    if Stored(file, blockSize, addr, Encode(r)) {
      StoredLoads(file, blockSize, addr, Encode(r));
      DecodeEncode(r);
    }
    if Load(file, blockSize, addr) == Some(r) {
      LoadedIsStored(file, blockSize, addr, RecordSize);
      EncodeDecode(Chain(file, blockSize, addr, RecordSize).payload);
    }
  }

  /**
   * The tree reachable from an address: `Absent` where a node fails to load
   * (the walks treat it as a missing child), `Cut` where the unfolding ran
   * out of depth or met a record with more entries than the node has slots.
   */
  datatype Tree = Absent | Cut | Node(rec: Record, kids: seq<Tree>)

  /** The record fits the node's slots: at most 61 entries. */
  predicate Fits(r: Record) {
    WellSized(r) && r.entryCount as int <= EntrySlots
  }

  /** The tree at `addr`, unfolded to depth `fuel`. */
  function Unfold(file: Disk, blockSize: u32, addr: u32, fuel: nat): (t: Tree)
    requires blockSize > 4
    ensures t.Absent? <==> Load(file, blockSize, addr).None?
    ensures t.Node? ==> Load(file, blockSize, addr) == Some(t.rec)
    decreases fuel, 1
  {
    match Load(file, blockSize, addr)
    case None => Absent
    case Some(rec) => Grow(file, blockSize, rec, fuel)
  }

  /** The tree of a loaded record: a leaf has no children, any other node one per branch, unfolded one level less. */
  function Grow(file: Disk, blockSize: u32, rec: Record, fuel: nat): (t: Tree)
    requires blockSize > 4 && WellSized(rec)
    ensures t.Absent? == false
    ensures t.Node? ==> t.rec == rec && Fits(rec) && |t.kids| == BranchCount(rec) as int
    decreases fuel, 0
  {
    if rec.entryCount as int > EntrySlots then Cut
    else if IsLeaf(rec) then Node(rec, [])
    else if fuel == 0 then Cut
    else Node(rec, seq(rec.entryCount as int + 1, i requires 0 <= i <= rec.entryCount as int =>
                         Unfold(file, blockSize, rec.branches[i], fuel - 1)))
  }

  /** Child `i` of an unfolded inner node is the tree at the node's `i`-th branch address. */
  lemma GrowKid(file: Disk, blockSize: u32, rec: Record, fuel: nat, i: nat)
    requires blockSize > 4 && WellSized(rec)
    requires Grow(file, blockSize, rec, fuel).Node? && i < |Grow(file, blockSize, rec, fuel).kids|
    ensures fuel > 0
    ensures Grow(file, blockSize, rec, fuel).kids[i] == Unfold(file, blockSize, rec.branches[i], fuel - 1)
  {
  }

  /** A node that loads as `rec` and unfolds completely is a node holding `rec`, of depth left if it is not a leaf. */
  lemma UnfoldNode(file: Disk, blockSize: u32, addr: u32, fuel: nat, rec: Record)
    requires blockSize > 4 && Load(file, blockSize, addr) == Some(rec)
    requires Complete(Unfold(file, blockSize, addr, fuel))
    ensures Unfold(file, blockSize, addr, fuel).Node? && Unfold(file, blockSize, addr, fuel).rec == rec && Fits(rec)
    ensures !IsLeaf(rec) ==> fuel > 0 && |Unfold(file, blockSize, addr, fuel).kids| == rec.entryCount as int + 1
  {
  }

  /** Child `i` of such a node is the tree at its `i`-th branch address, one level less deep. */
  lemma UnfoldKid(file: Disk, blockSize: u32, addr: u32, fuel: nat, rec: Record, i: nat)
    requires blockSize > 4 && Load(file, blockSize, addr) == Some(rec)
    requires Complete(Unfold(file, blockSize, addr, fuel)) && !IsLeaf(rec) && i <= rec.entryCount as int
    ensures fuel > 0 && i < |Unfold(file, blockSize, addr, fuel).kids|
    ensures Unfold(file, blockSize, addr, fuel).kids[i] == Unfold(file, blockSize, rec.branches[i], fuel - 1)
  {
    GrowKid(file, blockSize, rec, fuel, i);
  }

  /** The tree is finite and every node in it fits its slots, with one child per branch. */
  predicate Complete(t: Tree) {
    match t
    case Absent => true
    case Cut => false
    case Node(rec, kids) =>
      Fits(rec) && |kids| == BranchCount(rec) as int && forall i :: 0 <= i < |kids| ==> Complete(kids[i])
  }

  /** A tree unfolded completely stays the same with more depth. */
  lemma {:induction false} UnfoldDeeper(file: Disk, blockSize: u32, addr: u32, fuel: nat, more: nat)
    requires blockSize > 4 && fuel <= more
    requires Complete(Unfold(file, blockSize, addr, fuel))
    ensures Unfold(file, blockSize, addr, more) == Unfold(file, blockSize, addr, fuel)
    decreases fuel, 1
  {
    var r := Load(file, blockSize, addr);
    if r.Some? {
      GrowDeeper(file, blockSize, r.value, fuel, more);
    }
  }

  /** The tree of a record unfolded completely stays the same with more depth. */
  lemma {:induction false} GrowDeeper(file: Disk, blockSize: u32, rec: Record, fuel: nat, more: nat)
    requires blockSize > 4 && WellSized(rec) && fuel <= more
    requires Complete(Grow(file, blockSize, rec, fuel))
    ensures Grow(file, blockSize, rec, more) == Grow(file, blockSize, rec, fuel)
    decreases fuel, 0
  {
    var t := Grow(file, blockSize, rec, fuel);
    if !IsLeaf(rec) {
      var u := Grow(file, blockSize, rec, more);
      forall i | 0 <= i < |t.kids|
        ensures u.kids[i] == t.kids[i]
      {
        GrowKid(file, blockSize, rec, fuel, i);
        GrowKid(file, blockSize, rec, more, i);
        UnfoldDeeper(file, blockSize, rec.branches[i], fuel - 1, more - 1);
      }
    }
  }

  // ---- entries in key order ----

  /** The tree's entries in order: each child's entries before the entry that bounds it on the right. */
  function InOrder(t: Tree): seq<Entry>
    requires Complete(t)
    decreases t, EntrySlots + 2
  {
    if t.Node? then Weave(t, 0) else []
  }

  /** The entries of a node from child `i` on: the child's, then entry `i` and the rest. */
  function Weave(t: Tree, i: nat): seq<Entry>
    requires Complete(t) && t.Node? && i <= t.rec.entryCount as int
    decreases t, EntrySlots + 1 - i
  {
    if i == t.rec.entryCount as int then Left(t, i)
    else Left(t, i) + ([t.rec.entries[i]] + Weave(t, i + 1))
  }

  /** The entries under child `i` of a node; none in a leaf, which has no children. */
  function Left(t: Tree, i: nat): seq<Entry>
    requires Complete(t) && t.Node? && i <= t.rec.entryCount as int
    decreases t, 0
  {
    if i < |t.kids| then InOrder(t.kids[i]) else []
  }

  /** The lower bound of the keys under child `i`. */
  function Low(r: Record, i: nat, lo: int): int
    requires Fits(r) && i <= r.entryCount as int
  {
    if i == 0 then lo else r.entries[i - 1].id
  }

  /** The upper bound of the keys under child `i`. */
  function High(r: Record, i: nat, hi: int): int
    requires Fits(r) && i <= r.entryCount as int
  {
    if i == r.entryCount as int then hi else r.entries[i].id
  }

  /**
   * B-tree ordering: the keys of every node lie strictly between `lo` and
   * `hi` and strictly ascend, and the keys under child `i` lie strictly
   * between the entries on either side of it.
   */
  predicate Ordered(t: Tree, lo: int, hi: int)
    requires Complete(t)
  {
    match t
    case Node(rec, kids) =>
      && (forall i :: 0 <= i < rec.entryCount as int ==> lo < rec.entries[i].id < hi)
      && (forall i :: 0 < i < rec.entryCount as int ==> rec.entries[i - 1].id < rec.entries[i].id)
      && (forall i :: 0 <= i < |kids| ==> Ordered(kids[i], Low(rec, i, lo), High(rec, i, hi)))
    case _ => true
  }

  /** The keys of `s` strictly ascend. */
  predicate Ascending(s: seq<Entry>) {
    forall i, j :: 0 <= i < j < |s| ==> s[i].id < s[j].id
  }

  /** The keys of `s` lie strictly between `lo` and `hi`. */
  predicate Within(s: seq<Entry>, lo: int, hi: int) {
    forall k :: 0 <= k < |s| ==> lo < s[k].id < hi
  }

  /** Two ascending runs, the first below `m` and the second from `m` on, make one ascending run. */
  lemma Join(a: seq<Entry>, b: seq<Entry>, lo: int, m: int, hi: int)
    requires lo < m <= hi
    requires Ascending(a) && Within(a, lo, m) && Ascending(b) && Within(b, m - 1, hi)
    ensures Ascending(a + b) && Within(a + b, lo, hi)
  {
  }

  /** An entry below an ascending run above it starts a longer ascending run. */
  lemma Cons(e: Entry, s: seq<Entry>, hi: int)
    requires e.id < hi && Ascending(s) && Within(s, e.id, hi)
    ensures Ascending([e] + s) && Within([e] + s, e.id - 1, hi)
  {
  }

  /** The entries of an ordered tree ascend and lie within its bounds. */
  lemma {:induction false} InOrderSorted(t: Tree, lo: int, hi: int)
    requires Complete(t) && Ordered(t, lo, hi)
    ensures Ascending(InOrder(t)) && Within(InOrder(t), lo, hi)
    decreases t, EntrySlots + 2
  {
    if t.Node? {
      WeaveSorted(t, 0, lo, hi);
    }
  }

  /** The entries of an ordered node from child `i` on ascend and lie above the child's lower bound. */
  lemma {:induction false} WeaveSorted(t: Tree, i: nat, lo: int, hi: int)
    requires Complete(t) && t.Node? && i <= t.rec.entryCount as int && Ordered(t, lo, hi)
    ensures Ascending(Weave(t, i)) && Within(Weave(t, i), Low(t.rec, i, lo), hi)
    decreases t, EntrySlots + 1 - i
  {
    LeftSorted(t, i, lo, hi);
    if i < t.rec.entryCount as int {
      WeaveSorted(t, i + 1, lo, hi);
      OrderedAt(t, lo, hi, i);
      Between(Left(t, i), t.rec.entries[i], Weave(t, i + 1), Low(t.rec, i, lo), hi);
    }
  }

  /** The entries under child `i` of an ordered node ascend and lie within the child's bounds. */
  lemma {:induction false} LeftSorted(t: Tree, i: nat, lo: int, hi: int)
    requires Complete(t) && t.Node? && i <= t.rec.entryCount as int && Ordered(t, lo, hi)
    ensures Ascending(Left(t, i)) && Within(Left(t, i), Low(t.rec, i, lo), High(t.rec, i, hi))
    decreases t, 0
  {
    if i < |t.kids| {
      OrderedKid(t, lo, hi, i);
      InOrderSorted(t.kids[i], Low(t.rec, i, lo), High(t.rec, i, hi));
    }
  }

  /** Child `i` of an ordered node is ordered within the bounds of its slot. */
  lemma OrderedKid(t: Tree, lo: int, hi: int, i: nat)
    requires Complete(t) && t.Node? && Ordered(t, lo, hi) && i < |t.kids|
    ensures i <= t.rec.entryCount as int
    ensures Ordered(t.kids[i], Low(t.rec, i, lo), High(t.rec, i, hi))
  {
  }

  /** Entry `i` of an ordered node lies between its left child's lower bound and `hi`, and bounds that child above. */
  lemma OrderedAt(t: Tree, lo: int, hi: int, i: nat)
    requires Complete(t) && t.Node? && Ordered(t, lo, hi) && i < t.rec.entryCount as int
    ensures Low(t.rec, i, lo) < t.rec.entries[i].id < hi
    ensures High(t.rec, i, hi) == t.rec.entries[i].id && Low(t.rec, i + 1, lo) == t.rec.entries[i].id
  {
  }

  /** An ascending run below `e`, then `e`, then an ascending run above it: one ascending run. */
  lemma Between(left: seq<Entry>, e: Entry, right: seq<Entry>, lo: int, hi: int)
    requires lo < e.id < hi
    requires Ascending(left) && Within(left, lo, e.id) && Ascending(right) && Within(right, e.id, hi)
    ensures Ascending(left + ([e] + right)) && Within(left + ([e] + right), lo, hi)
  {
    Cons(e, right, hi);
    Join(left, [e] + right, lo, e.id, hi);
  }

  // ---- point lookup ----

  /** The first entry of `s` with key `id`. */
  function FindIn(s: seq<Entry>, id: u32): (r: Option<Entry>)
    ensures r.Some? ==> r.value in s && r.value.id == id
    ensures r.None? ==> forall k :: 0 <= k < |s| ==> s[k].id != id
  {
    if s == [] then None else if s[0].id == id then Some(s[0]) else FindIn(s[1..], id)
  }

  /** Searching a concatenation searches the first part, then the second. */
  lemma {:induction false} FindInJoin(a: seq<Entry>, b: seq<Entry>, id: u32)
    ensures FindIn(a + b, id) == if FindIn(a, id).Some? then FindIn(a, id) else FindIn(b, id)
  {
    if a == [] {
      assert a + b == b;
    } else {
      assert (a + b)[1..] == a[1..] + b;
      FindInJoin(a[1..], b, id);
    }
  }

  /**
   * The lookup of a node: at the first entry whose key exceeds `id` go down
   * that entry's left child, at an equal key report the entry, past the
   * last entry go down the last child; a leaf, or a child that does not
   * load, reports nothing.
   */
  function Search(t: Tree, id: u32): (r: Option<Entry>)
    requires Complete(t)
    ensures r.Some? ==> r.value.id == id
    decreases t, EntrySlots + 2
  {
    if t.Node? then SearchFrom(t, id, 0) else None
  }

  /** The lookup of a node from entry `i` on. */
  function SearchFrom(t: Tree, id: u32, i: nat): (r: Option<Entry>)
    requires Complete(t) && t.Node? && i <= t.rec.entryCount as int
    ensures r.Some? ==> r.value.id == id
    decreases t, EntrySlots + 1 - i
  {
    if i == t.rec.entryCount as int || id < t.rec.entries[i].id then Down(t, id, i)
    else if id == t.rec.entries[i].id then Some(t.rec.entries[i])
    else SearchFrom(t, id, i + 1)
  }

  /** The lookup continued in child `i`; nothing in a leaf. */
  function Down(t: Tree, id: u32, i: nat): (r: Option<Entry>)
    requires Complete(t) && t.Node? && i <= t.rec.entryCount as int
    ensures r.Some? ==> r.value.id == id
    decreases t, 0
  {
    if i < |t.kids| then Search(t.kids[i], id) else None
  }

  /** On an ordered tree the lookup finds the first entry with the key in key order. */
  lemma {:induction false} SearchFinds(t: Tree, lo: int, hi: int, id: u32)
    requires Complete(t) && Ordered(t, lo, hi)
    ensures Search(t, id) == FindIn(InOrder(t), id)
    decreases t, EntrySlots + 2
  {
    if t.Node? {
      SearchFromFinds(t, 0, lo, hi, id);
    }
  }

  /** On an ordered node the lookup in child `i` searches the entries under that child. */
  lemma {:induction false} DownFinds(t: Tree, i: nat, lo: int, hi: int, id: u32)
    requires Complete(t) && t.Node? && i <= t.rec.entryCount as int && Ordered(t, lo, hi)
    ensures Down(t, id, i) == FindIn(Left(t, i), id)
    decreases t, 0
  {
    if i < |t.kids| {
      OrderedKid(t, lo, hi, i);
      SearchFinds(t.kids[i], Low(t.rec, i, lo), High(t.rec, i, hi), id);
    }
  }

  /** On an ordered node the lookup from entry `i` on searches the entries from child `i` on. */
  lemma {:induction false} SearchFromFinds(t: Tree, i: nat, lo: int, hi: int, id: u32)
    requires Complete(t) && t.Node? && i <= t.rec.entryCount as int && Ordered(t, lo, hi)
    ensures SearchFrom(t, id, i) == FindIn(Weave(t, i), id)
    decreases t, EntrySlots + 1 - i
  {
    DownFinds(t, i, lo, hi, id);
    if i < t.rec.entryCount as int {
      if id < t.rec.entries[i].id {
        BelowFinds(t, i, lo, hi, id);
      } else {
        if id > t.rec.entries[i].id {
          SearchFromFinds(t, i + 1, lo, hi, id);
        }
        PastFinds(t, i, lo, hi, id);
      }
    }
  }

  /** A key below entry `i` of an ordered node can only be under child `i`. */
  lemma BelowFinds(t: Tree, i: nat, lo: int, hi: int, id: u32)
    requires Complete(t) && t.Node? && i < t.rec.entryCount as int && Ordered(t, lo, hi)
    requires id < t.rec.entries[i].id && Down(t, id, i) == FindIn(Left(t, i), id)
    ensures SearchFrom(t, id, i) == FindIn(Weave(t, i), id)
  {
    var rest := [t.rec.entries[i]] + Weave(t, i + 1);
    FindInJoin(Left(t, i), rest, id);
    WeaveSorted(t, i + 1, lo, hi);
    OrderedAt(t, lo, hi, i);
    assert FindIn(rest, id).None?;
  }

  /** A key not below entry `i` of an ordered node is not under child `i`: it is the entry or lies further right. */
  lemma PastFinds(t: Tree, i: nat, lo: int, hi: int, id: u32)
    requires Complete(t) && t.Node? && i < t.rec.entryCount as int && Ordered(t, lo, hi)
    requires id >= t.rec.entries[i].id
    requires id > t.rec.entries[i].id ==> SearchFrom(t, id, i + 1) == FindIn(Weave(t, i + 1), id)
    ensures SearchFrom(t, id, i) == FindIn(Weave(t, i), id)
  {
    var rest := [t.rec.entries[i]] + Weave(t, i + 1);
    FindInJoin(Left(t, i), rest, id);
    LeftSorted(t, i, lo, hi);
    OrderedAt(t, lo, hi, i);
    assert FindIn(Left(t, i), id).None?;
    assert rest[1..] == Weave(t, i + 1);
  }

  /** On an ordered tree the lookup reports an entry exactly when the tree holds it under that key. */
  lemma LookupSpec(t: Tree, id: u32, e: Entry)
    requires Complete(t) && Ordered(t, -1, 0x1_0000_0000)
    ensures Search(t, id) == Some(e) <==> e in InOrder(t) && e.id == id
  {
    SearchFinds(t, -1, 0x1_0000_0000, id);
    InOrderSorted(t, -1, 0x1_0000_0000);
  }

  // ---- range scan ----

  /** What the scan reports: an entry found in range, or the progress reached. */
  datatype Event = Found(entry: Entry) | Progress(value: real)

  /** The entries of `s` with keys from `min` to `max`, in order. */
  function Filter(s: seq<Entry>, min: u32, max: u32): seq<Entry> {
    if s == [] then []
    else (if min <= s[0].id <= max then [s[0]] else []) + Filter(s[1..], min, max)
  }

  /** The filtered entries are exactly the entries in range. */
  lemma {:induction false} FilterMembers(s: seq<Entry>, min: u32, max: u32)
    ensures forall e :: e in Filter(s, min, max) <==> e in s && min <= e.id <= max
  {
    if s != [] {
      FilterMembers(s[1..], min, max);
      assert s == [s[0]] + s[1..];
    }
  }

  /** The entries reported in `ev`, in order. */
  function Founds(ev: seq<Event>): (r: seq<Entry>)
    ensures |r| <= |ev|
  {
    if ev == [] then [] else (if ev[0].Found? then [ev[0].entry] else []) + Founds(ev[1..])
  }

  /** Filtering a concatenation filters each part. */
  lemma {:induction false} FilterJoin(a: seq<Entry>, b: seq<Entry>, min: u32, max: u32)
    ensures Filter(a + b, min, max) == Filter(a, min, max) + Filter(b, min, max)
  {
    if a == [] {
      assert a + b == b;
    } else {
      assert (a + b)[1..] == a[1..] + b;
      FilterJoin(a[1..], b, min, max);
    }
  }

  /** The entries reported in a concatenation are those of each part. */
  lemma {:induction false} FoundsJoin(a: seq<Event>, b: seq<Event>)
    ensures Founds(a + b) == Founds(a) + Founds(b)
  {
    if a == [] {
      assert a + b == b;
    } else {
      assert (a + b)[0] == a[0] && (a + b)[1..] == a[1..] + b;
      FoundsJoin(a[1..], b);
      var head: seq<Entry> := if a[0].Found? then [a[0].entry] else [];
      assert Founds(a + b) == head + Founds(a[1..] + b);
      assert Founds(a) == head + Founds(a[1..]);
    }
  }

  /** Filtering entries of which none is in range gives nothing. */
  lemma {:induction false} FilterNone(s: seq<Entry>, min: u32, max: u32)
    requires forall k :: 0 <= k < |s| ==> s[k].id < min || s[k].id > max
    ensures Filter(s, min, max) == []
  {
    if s != [] {
      FilterNone(s[1..], min, max);
    }
  }

  /** Filtering an ascending sequence gives an ascending sequence. */
  lemma {:induction false} FilterAscending(s: seq<Entry>, min: u32, max: u32)
    requires Ascending(s)
    ensures Ascending(Filter(s, min, max))
  {
    if s != [] {
      FilterAscending(s[1..], min, max);
      var f := Filter(s[1..], min, max);
      FilterMembers(s[1..], min, max);
      forall k | 0 <= k < |f|
        ensures s[0].id < f[k].id
      {
        assert f[k] in s[1..];
      }
    }
  }

  /** The progress share of each child of a node given `d` to spend. */
  function Share(r: Record, d: real): (s: real)
    requires WellSized(r)
    ensures BranchCount(r) > 0 ==> s * BranchCount(r) as real == d
    ensures BranchCount(r) == 0 ==> s == 0.0
  {
    if BranchCount(r) == 0 then 0.0 else d / BranchCount(r) as real
  }

  /**
   * The range scan of a node, starting at progress `p` with `d` to spend:
   * each child gets an equal share of `d`.
   */
  function Scan(t: Tree, min: u32, max: u32, p: real, d: real): seq<Event>
    requires Complete(t)
    decreases t, EntrySlots + 2
  {
    if t.Node? then ScanFrom(t, min, max, 0, p, Share(t.rec, d), p, d) else []
  }

  /**
   * The scan of a node from entry `i` on, at progress `p` with child share
   * `share`. An entry above `max` ends the node's scan after its left child
   * with no final report; an entry below `min` is passed over together with
   * its left child; an entry in range is reported after its left child and,
   * in an inner node, followed by the progress advanced by one share. After
   * the last child the progress is reported as `start + d`.
   */
  function ScanFrom(t: Tree, min: u32, max: u32, i: nat, p: real, share: real, start: real, d: real): seq<Event>
    requires Complete(t) && t.Node? && i <= t.rec.entryCount as int
    decreases t, EntrySlots + 1 - i
  {
    if i == t.rec.entryCount as int then Visit(t, min, max, i, p, share) + [Progress(start + d)]
    else if t.rec.entries[i].id > max then Visit(t, min, max, i, p, share)
    else if t.rec.entries[i].id < min then ScanFrom(t, min, max, i + 1, p, share, start, d)
    else
      var q := if IsLeaf(t.rec) then p else p + share;
      Visit(t, min, max, i, p, share) + Report(t.rec, i, q) + ScanFrom(t, min, max, i + 1, q, share, start, d)
  }

  /** One entry of the scan of a node, case by case. */
  lemma ScanFromStep(t: Tree, min: u32, max: u32, i: nat, p: real, share: real, start: real, d: real)
    requires Complete(t) && t.Node? && i < t.rec.entryCount as int
    ensures t.rec.entries[i].id > max ==> ScanFrom(t, min, max, i, p, share, start, d) == Visit(t, min, max, i, p, share)
    ensures t.rec.entries[i].id < min && t.rec.entries[i].id <= max ==>
      ScanFrom(t, min, max, i, p, share, start, d) == ScanFrom(t, min, max, i + 1, p, share, start, d)
    ensures min <= t.rec.entries[i].id <= max ==>
      var q := if IsLeaf(t.rec) then p else p + share;
      ScanFrom(t, min, max, i, p, share, start, d)
        == (Visit(t, min, max, i, p, share) + Report(t.rec, i, q)) + ScanFrom(t, min, max, i + 1, q, share, start, d)
  {
  }

  /** The scan continued in child `i`; nothing in a leaf. */
  function Visit(t: Tree, min: u32, max: u32, i: nat, p: real, share: real): seq<Event>
    requires Complete(t) && t.Node? && i <= t.rec.entryCount as int
    decreases t, 0
  {
    if i < |t.kids| then Scan(t.kids[i], min, max, p, share) else []
  }

  /** What the scan reports for entry `i` in range: the entry, then in an inner node the progress `q`. */
  function Report(r: Record, i: nat, q: real): (ev: seq<Event>)
    requires Fits(r) && i < r.entryCount as int
    ensures Founds(ev) == [r.entries[i]]
  {
    if IsLeaf(r) then [Found(r.entries[i])] else [Found(r.entries[i]), Progress(q)]
  }

  /** On an ordered tree the scan reports exactly the entries in range, in key order. */
  lemma {:induction false} ScanFinds(t: Tree, lo: int, hi: int, min: u32, max: u32, p: real, d: real)
    requires Complete(t) && Ordered(t, lo, hi)
    ensures Founds(Scan(t, min, max, p, d)) == Filter(InOrder(t), min, max)
    decreases t, EntrySlots + 2
  {
    if t.Node? {
      ScanFromFinds(t, lo, hi, min, max, 0, p, Share(t.rec, d), p, d);
    }
  }

  /** On an ordered node the scan of child `i` reports the entries in range under that child. */
  lemma {:induction false} VisitFinds(t: Tree, lo: int, hi: int, min: u32, max: u32, i: nat, p: real, share: real)
    requires Complete(t) && t.Node? && i <= t.rec.entryCount as int && Ordered(t, lo, hi)
    ensures Founds(Visit(t, min, max, i, p, share)) == Filter(Left(t, i), min, max)
    decreases t, 0
  {
    if i < |t.kids| {
      OrderedKid(t, lo, hi, i);
      ScanFinds(t.kids[i], Low(t.rec, i, lo), High(t.rec, i, hi), min, max, p, share);
    }
  }

  /** On an ordered node the scan from entry `i` on reports the entries in range from child `i` on. */
  lemma {:induction false} ScanFromFinds(t: Tree, lo: int, hi: int, min: u32, max: u32, i: nat,
                                         p: real, share: real, start: real, d: real)
    requires Complete(t) && t.Node? && i <= t.rec.entryCount as int && Ordered(t, lo, hi)
    ensures Founds(ScanFrom(t, min, max, i, p, share, start, d)) == Filter(Weave(t, i), min, max)
    decreases t, EntrySlots + 1 - i
  {
    VisitFinds(t, lo, hi, min, max, i, p, share);
    if i == t.rec.entryCount as int {
      FoundsJoin(Visit(t, min, max, i, p, share), [Progress(start + d)]);
    } else if t.rec.entries[i].id > max {
      WeaveSorted(t, i + 1, lo, hi);
      StopFinds(t, min, max, i, p, share, start, d);
    } else if t.rec.entries[i].id < min {
      LeftSorted(t, i, lo, hi);
      OrderedAt(t, lo, hi, i);
      ScanFromFinds(t, lo, hi, min, max, i + 1, p, share, start, d);
      SkipFinds(t, min, max, i, p, share, start, d);
    } else {
      var q := if IsLeaf(t.rec) then p else p + share;
      ScanFromFinds(t, lo, hi, min, max, i + 1, q, share, start, d);
      ReportFinds(t, min, max, i, p, share, start, d);
    }
  }

  /** At an entry above the range the scan's reports are those of the left child, which are all that is in range. */
  lemma StopFinds(t: Tree, min: u32, max: u32, i: nat, p: real, share: real, start: real, d: real)
    requires Complete(t) && t.Node? && i < t.rec.entryCount as int && t.rec.entries[i].id > max
    requires Within(Weave(t, i + 1), t.rec.entries[i].id, 0x1_0000_0000)
    requires Founds(Visit(t, min, max, i, p, share)) == Filter(Left(t, i), min, max)
    ensures Founds(ScanFrom(t, min, max, i, p, share, start, d)) == Filter(Weave(t, i), min, max)
  {
    var rest := [t.rec.entries[i]] + Weave(t, i + 1);
    FilterJoin(Left(t, i), rest, min, max);
    FilterNone(rest, min, max);
  }

  /** At an entry below the range neither it nor its left child has anything in range. */
  lemma SkipFinds(t: Tree, min: u32, max: u32, i: nat, p: real, share: real, start: real, d: real)
    requires Complete(t) && t.Node? && i < t.rec.entryCount as int && t.rec.entries[i].id < min && t.rec.entries[i].id <= max
    requires Within(Left(t, i), -1, t.rec.entries[i].id)
    requires Founds(ScanFrom(t, min, max, i + 1, p, share, start, d)) == Filter(Weave(t, i + 1), min, max)
    ensures Founds(ScanFrom(t, min, max, i, p, share, start, d)) == Filter(Weave(t, i), min, max)
  {
    var rest := [t.rec.entries[i]] + Weave(t, i + 1);
    FilterJoin(Left(t, i), rest, min, max);
    FilterNone(Left(t, i), min, max);
    assert rest[1..] == Weave(t, i + 1);
    assert Filter(rest, min, max) == Filter(Weave(t, i + 1), min, max);
  }

  /** At an entry in range the scan reports the left child's entries in range, the entry, and the rest. */
  lemma ReportFinds(t: Tree, min: u32, max: u32, i: nat, p: real, share: real, start: real, d: real)
    requires Complete(t) && t.Node? && i < t.rec.entryCount as int && min <= t.rec.entries[i].id <= max
    requires Founds(Visit(t, min, max, i, p, share)) == Filter(Left(t, i), min, max)
    requires var q := if IsLeaf(t.rec) then p else p + share;
      Founds(ScanFrom(t, min, max, i + 1, q, share, start, d)) == Filter(Weave(t, i + 1), min, max)
    ensures Founds(ScanFrom(t, min, max, i, p, share, start, d)) == Filter(Weave(t, i), min, max)
  {
    var q := if IsLeaf(t.rec) then p else p + share;
    var visit := Visit(t, min, max, i, p, share);
    var rest := [t.rec.entries[i]] + Weave(t, i + 1);
    var more := ScanFrom(t, min, max, i + 1, q, share, start, d);
    assert ScanFrom(t, min, max, i, p, share, start, d) == visit + Report(t.rec, i, q) + more;
    FoundsJoin(visit + Report(t.rec, i, q), more);
    FoundsJoin(visit, Report(t.rec, i, q));
    FilterJoin(Left(t, i), rest, min, max);
    assert rest[1..] == Weave(t, i + 1);
    assert Filter(rest, min, max) == [t.rec.entries[i]] + Filter(Weave(t, i + 1), min, max);
  }

  /** On an ordered tree the scan reports each entry in range once, in ascending key order, and nothing else. */
  lemma ScanSpec(t: Tree, min: u32, max: u32, p: real, d: real)
    requires Complete(t) && Ordered(t, -1, 0x1_0000_0000)
    ensures Founds(Scan(t, min, max, p, d)) == Filter(InOrder(t), min, max)
    ensures Ascending(Founds(Scan(t, min, max, p, d)))
    ensures forall e :: e in Founds(Scan(t, min, max, p, d)) <==> e in InOrder(t) && min <= e.id <= max
  {
    ScanFinds(t, -1, 0x1_0000_0000, min, max, p, d);
    InOrderSorted(t, -1, 0x1_0000_0000);
    FilterAscending(InOrder(t), min, max);
    FilterMembers(InOrder(t), min, max);
  }

  /** A node none of whose keys exceeds `max` ends its scan by reporting `p + d`. */
  lemma ScanSnaps(t: Tree, min: u32, max: u32, p: real, d: real)
    requires Complete(t) && t.Node?
    requires forall i :: 0 <= i < t.rec.entryCount as int ==> t.rec.entries[i].id <= max
    ensures |Scan(t, min, max, p, d)| > 0 && Scan(t, min, max, p, d)[|Scan(t, min, max, p, d)| - 1] == Progress(p + d)
  {
    ScanFromSnaps(t, min, max, 0, p, Share(t.rec, d), p, d);
  }

  /** The scan of such a node from entry `i` on ends by reporting `start + d`. */
  lemma {:induction false} ScanFromSnaps(t: Tree, min: u32, max: u32, i: nat, p: real, share: real, start: real, d: real)
    requires Complete(t) && t.Node? && i <= t.rec.entryCount as int
    requires forall k :: 0 <= k < t.rec.entryCount as int ==> t.rec.entries[k].id <= max
    ensures var s := ScanFrom(t, min, max, i, p, share, start, d); |s| > 0 && s[|s| - 1] == Progress(start + d)
    decreases t.rec.entryCount as int - i
  {
    if i < t.rec.entryCount as int && t.rec.entries[i].id >= min {
      ScanFromSnaps(t, min, max, i + 1, if IsLeaf(t.rec) then p else p + share, share, start, d);
    } else if i < t.rec.entryCount as int {
      ScanFromSnaps(t, min, max, i + 1, p, share, start, d);
    }
  }
}
