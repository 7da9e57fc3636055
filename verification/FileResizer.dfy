/**
 A file's index as the program works on it: looking up and changing the address of a block,
 growing, shrinking and deleting the file.
 */
module FileResizer {
  import opened Bytes
  import opened NodePath
  import opened Places
  import opened FileTree
  import opened FileFree
  import opened FreeBlocks

  const BLOCK_SIZE := 4096

  /** Blocks needed for `size` bytes. */
  function SizeToBlock(size: nat): nat { (size + 4095) / BLOCK_SIZE }

  /** The same in 64 bits: the addition wraps for the last 4095 sizes. */
  function SizeToBlock64(size: u64): u64 { (size + 4095) % 0x1_0000_0000_0000_0000 / BLOCK_SIZE }

  predicate Wraps(size: u64) { size + 4095 >= 0x1_0000_0000_0000_0000 }

  lemma SizeWraps(size: u64)
    ensures SizeToBlock64(size) == if Wraps(size) then 0 else SizeToBlock(size)
  {
    if Wraps(size) {
      var r := size + 4095 - 0x1_0000_0000_0000_0000;
      assert (size + 4095) % 0x1_0000_0000_0000_0000 == r;
    }
  }

  // ----- walking a path -----

  /** The slot that a path takes at level `k`. */
  function NextSlot(o: seq<nat>, k: nat): nat
    requires ValidOffsets(o) && k + 1 < |o|
  {
    if k == 0 then o[0] - NODE_DIR1_BLOCK else o[k]
  }

  lemma NextPlace(o: seq<nat>, k: nat)
    requires ValidOffsets(o) && k + 1 < |o|
    ensures PlaceAt(o, k + 1) == Child(PlaceAt(o, k), NextSlot(o, k))
  {
  }

  /** From the node at level `k` of a block's path the slot leads to the node at level `k + 1`, if there is one. */
  lemma WalkStep(t: Tree, at: Where, b: nat, k: nat)
    requires Linked(t, at) && b < MAX_BLKNO_LIMIT && GetNodePath(b).Some? && ValidOffsets(GetNodePath(b).value.offset)
    requires var o := GetNodePath(b).value.offset; k + 1 < |o| && PlaceAt(o, k) in at
    ensures
      var path := GetNodePath(b).value;
      var o := path.offset;
      var p, q := PlaceAt(o, k), PlaceAt(o, k + 1);
      && Here(t, at[p], p) && NextSlot(o, k) < |t.nodes[at[p]].nids| && |path.noffset| == |o|
      && Valid(q) && q != Root && q.parent == p && q.slot == NextSlot(o, k) && First(q) <= b && Noffset(q) == path.noffset[k + 1]
      && t.nodes[at[p]].nids[NextSlot(o, k)] == (if q in at then at[q] else INVALID)
      && (q in at ==> at[q] != INVALID)
  {
    hide Linked, Valid, First, Noffset, Height, GetNodePath, PlaceAt;
    var o := GetNodePath(b).value.offset;
    PathPlaces(b, k + 1);
    NextPlace(o, k);
    var q := PlaceAt(o, k + 1);
    LinkedHere(t, at, PlaceAt(o, k));
    LinkedSlot(t, at, q);
    if q in at { LinkedHere(t, at, q); }
  }

  /** The places that the first `k` levels of a path pass through. */
  predicate OnPrefix(o: seq<nat>, k: nat, p: Place)
    requires ValidOffsets(o) && k < |o|
  {
    p == PlaceAt(o, k) || (k > 0 && OnPrefix(o, k - 1, p))
  }

  /** While block `b` is being added: everything for the blocks before it, and its path down to level `k`. */
  ghost predicate Growing(at: Where, b: nat, o: seq<nat>, k: nat)
    requires ValidOffsets(o) && k < |o|
  {
    forall p | Valid(p) :: p in at <==> p == Root || First(p) < b || OnPrefix(o, k, p)
  }

  lemma GrowingStart(at: Where, b: nat, o: seq<nat>)
    requires Sized(at, b) && ValidOffsets(o)
    ensures Growing(at, b, o, 0)
  {
  }

  lemma GrowingStep(at: Where, b: nat, o: seq<nat>, k: nat, nid: u32)
    requires ValidOffsets(o) && k + 1 < |o| && Growing(at, b, o, k) && Valid(PlaceAt(o, k + 1))
    ensures Growing(at[PlaceAt(o, k + 1) := nid], b, o, k + 1)
    ensures PlaceAt(o, k + 1) in at ==> Growing(at, b, o, k + 1)
  {
    hide Valid, First, PlaceAt;
  }

  /** With the whole path of `b` in place the nodes are those of a file of `b + 1` blocks. */
  lemma GrowingEnd(at: Where, b: nat, o: seq<nat>)
    requires b < MAX_BLKNO_LIMIT && GetNodePath(b).Some? && o == GetNodePath(b).value.offset && ValidOffsets(o)
    requires Growing(at, b, o, |o| - 1)
    ensures Sized(at, b + 1)
  {
    hide Valid, First, PlaceAt, GetNodePath, OnPrefix;
    forall p | Valid(p) ensures p in at <==> p == Root || First(p) < b + 1 {
      if p != Root && First(p) == b {
        EndBound(p);
        var k := OnPath(p, b);
        PrefixHas(o, |o| - 1, k);
      }
      if OnPrefix(o, |o| - 1, p) { PrefixFirst(b, |o| - 1, p); }
    }
  }

  lemma {:induction false} PrefixHas(o: seq<nat>, k: nat, j: nat)
    requires ValidOffsets(o) && j <= k < |o|
    ensures OnPrefix(o, k, PlaceAt(o, j))
  {
    if j < k { PrefixHas(o, k - 1, j); }
  }

  lemma {:induction false} PrefixFirst(b: nat, k: nat, p: Place)
    requires b < MAX_BLKNO_LIMIT && GetNodePath(b).Some? && ValidOffsets(GetNodePath(b).value.offset)
    requires k < |GetNodePath(b).value.offset| && OnPrefix(GetNodePath(b).value.offset, k, p)
    ensures First(p) <= b
  {
    hide First, GetNodePath, PlaceAt;
    if p == PlaceAt(GetNodePath(b).value.offset, k) { PathPlaces(b, k); } else { PrefixFirst(b, k - 1, p); }
  }

  // ----- how many nodes a file needs -----

  /** The places whose first block is `b`. */
  ghost function StartingAt(b: nat): set<Place>
    requires b < MAX_BLKNO_LIMIT
  {
    PathExistsExactly(b);
    PathInverse(b);
    var o := GetNodePath(b).value.offset;
    set k | 1 <= k < |o| && First(PlaceAt(o, k)) == b :: PlaceAt(o, k)
  }

  lemma StartingAtIs(b: nat, p: Place)
    requires b < MAX_BLKNO_LIMIT
    ensures p in StartingAt(b) <==> Valid(p) && p != Root && First(p) == b
  {
    hide First, Valid, GetNodePath, PlaceAt, ValidOffsets;
    PathExistsExactly(b);
    PathInverse(b);
    PathHeights(b);
    var o := GetNodePath(b).value.offset;
    if p in StartingAt(b) {
      var k :| 1 <= k < |o| && First(PlaceAt(o, k)) == b && p == PlaceAt(o, k);
      PathPlaces(b, k);
    }
    if Valid(p) && p != Root && First(p) == b {
      EndBound(p);
      var k := OnPath(p, b);
    }
  }

  /** The places whose first block is among [lo, hi): the nodes that a file of `hi` blocks has and one of `lo` blocks has not. */
  ghost function Needed(lo: nat, hi: nat): set<Place>
    requires hi <= MAX_BLKNO_LIMIT
  {
    if hi <= lo then {} else Needed(lo, hi - 1) + StartingAt(hi - 1)
  }

  lemma {:induction false} NeededIs(lo: nat, hi: nat, p: Place)
    requires hi <= MAX_BLKNO_LIMIT
    ensures p in Needed(lo, hi) <==> Valid(p) && p != Root && lo <= First(p) < hi
  {
    hide StartingAt, First, Valid;
    if lo < hi {
      NeededIs(lo, hi - 1, p);
      StartingAtIs(hi - 1, p);
    }
  }

  lemma NeededOneMore(lo: nat, b: nat)
    requires lo <= b < MAX_BLKNO_LIMIT
    ensures |Needed(lo, b + 1)| == |Needed(lo, b)| + |StartingAt(b)|
  {
    hide StartingAt, First, Valid;
    forall p | p in Needed(lo, b) ensures p !in StartingAt(b) {
      NeededIs(lo, b, p);
      StartingAtIs(b, p);
    }
  }

  lemma {:induction false} NeededGrows(lo: nat, b: nat, hi: nat)
    requires lo <= b <= hi <= MAX_BLKNO_LIMIT
    ensures |Needed(lo, b)| <= |Needed(lo, hi)|
  {
    hide StartingAt;
    if b < hi {
      NeededGrows(lo, b, hi - 1);
      NeededOneMore(lo, hi - 1);
    }
  }

  lemma SmallerSet<T>(a: set<T>, b: set<T>, x: T)
    requires a <= b && x in b && x !in a
    ensures |a| < |b|
  {
    assert b == a + (b - a) && x in b - a;
  }

  /** Between a file of `b` blocks and one of `b + 1` lie exactly the places that start at `b`. */
  lemma SizedOneMore(at: Where, at': Where, b: nat)
    requires b < MAX_BLKNO_LIMIT && Sized(at, b) && Sized(at', b + 1)
    requires (forall p | p in at :: Valid(p)) && forall p | p in at' :: Valid(p)
    ensures at'.Keys == at.Keys + StartingAt(b) && |at'| == |at| + |StartingAt(b)|
  {
    hide StartingAt, First, Valid;
    forall p ensures p in at' <==> p in at || p in StartingAt(b) {
      StartingAtIs(b, p);
    }
    forall p | p in at ensures p !in StartingAt(b) { StartingAtIs(b, p); }
    assert at'.Keys == at.Keys + StartingAt(b) && at.Keys !! StartingAt(b);
    assert |at.Keys + StartingAt(b)| == |at.Keys| + |StartingAt(b)|;
    assert |at'| == |at'.Keys| && |at| == |at.Keys|;
  }

  /** Same addresses everywhere. */
  ghost predicate SameMap(t: Tree, at: Where, t': Tree, at': Where) {
    forall b: nat :: Addr(t', at', b) == Addr(t, at, b)
  }

  /** Makes the nodes for one more block; false when there are fewer free ids than nodes to make. */
  method AddBlock(t: Tree, ghost at: Where, b: nat) returns (t': Tree, ghost at': Where, ok: bool)
    requires Linked(t, at) && Sized(at, b) && b < MAX_BLKNO_LIMIT
    ensures Linked(t', at') && SameMap(t, at, t', at') && t'.invalidated == t.invalidated && t'.ino == t.ino && Ids(t') == Ids(t)
    ensures ok ==> Sized(at', b + 1)
    ensures ok <==> |StartingAt(b)| <= |t.free|
    ensures ok ==> |t'.free| == |t.free| - |StartingAt(b)|
  {
    hide Linked, Valid, First, PlaceAt, GetNodePath, Addr, SameMap, Sized, Growing, Create, ValidOffsets, Noffset, Ids, NextSlot, StartingAt;
    PathPlaces(b, 0);
    RootHere(t, at);
    var path := GetNodePath(b).value;
    var o, cur, k := path.offset, t.ino, 0;
    PathNonEmpty(o);
    t', at' := t, at;
    GrowingStart(at, b, o);
    SameMapNone(t, at);
    while k < |o| - 1
      invariant 0 <= k < |o| && PlaceAt(o, k) in at' && at'[PlaceAt(o, k)] == cur
      invariant Linked(t', at') && SameMap(t, at, t', at') && Growing(at', b, o, k)
      invariant t'.invalidated == t.invalidated && t'.ino == t.ino && Ids(t') == Ids(t)
      invariant Made(t, at, t', at', b)
    {
      WalkStep(t', at', b, k);
      ghost var q := PlaceAt(o, k + 1);
      var slot := NextSlot(o, k);
      var next := t'.nodes[cur].nids[slot];
      GrowingStep(at', b, o, k, if t'.free == [] then 0 else t'.free[0]);
      if next == INVALID {
        GrowingMissing(at', b, o, k, q);
        StartingAtIs(b, q);
        if t'.free == [] {
          TooFew(t, at, t', at', b, q);
          return t', at', false;
        }
        var leaf := k + 1 == |o| - 1;
        LevelShape(b, k + 1);
        CreateLinked(t', at', q);
        CreateKeeps(t, at, t', at', q);
        CreateIds(t', cur, slot, path.noffset[k + 1], if leaf then 1020 else 0, if leaf then 0 else 1020);
        CreateFree(t', cur, slot, path.noffset[k + 1], if leaf then 1020 else 0, if leaf then 0 else 1020);
        next := t'.free[0];
        ghost var nid := next;
        t' := Create(t', cur, slot, path.noffset[k + 1], if leaf then 1020 else 0, if leaf then 0 else 1020);
        at' := at'[q := nid];
      }
      cur, k := next, k + 1;
    }
    GrowingEnd(at', b, o);
    AllValid(t, at);
    AllValid(t', at');
    SizedOneMore(at, at', b);
    ok := true;
  }

  /** Every node made so far starts at `b` and took one free id. */
  ghost predicate Made(t: Tree, at: Where, t': Tree, at': Where, b: nat)
    requires b < MAX_BLKNO_LIMIT
  {
    at'.Keys <= at.Keys + StartingAt(b) && |t'.free| + |at'| == |t.free| + |at|
  }

  /** A place on the path that is missing starts at `b`: everything before `b` is there. */
  lemma GrowingMissing(at: Where, b: nat, o: seq<nat>, k: nat, q: Place)
    requires ValidOffsets(o) && k < |o| && Growing(at, b, o, k) && Valid(q) && q !in at && First(q) <= b
    ensures q != Root && First(q) == b
  {
  }

  lemma TooFew(t: Tree, at: Where, t': Tree, at': Where, b: nat, q: Place)
    requires b < MAX_BLKNO_LIMIT && Made(t, at, t', at', b) && t'.free == [] && q in StartingAt(b) && q !in at'
    ensures |t.free| < |StartingAt(b)|
  {
    SmallerSet(at'.Keys, at.Keys + StartingAt(b), q);
    assert |at.Keys + StartingAt(b)| <= |at.Keys| + |StartingAt(b)|;
    assert |at'| == |at'.Keys| && |at| == |at.Keys|;
  }

  lemma AllValid(t: Tree, at: Where)
    requires Linked(t, at)
    ensures forall p | p in at :: Valid(p)
  {
  }

  lemma PathNonEmpty(o: seq<nat>)
    requires ValidOffsets(o)
    ensures |o| > 0 && PlaceAt(o, 0) == Root
  {
  }

  /** The last node of a path holds addresses, those before it node ids. */
  lemma LevelShape(b: nat, k: nat)
    requires b < MAX_BLKNO_LIMIT && GetNodePath(b).Some? && ValidOffsets(GetNodePath(b).value.offset)
    requires 0 < k < |GetNodePath(b).value.offset|
    ensures
      var o := GetNodePath(b).value.offset;
      var p := PlaceAt(o, k);
      && AddrCount(p) == (if k == |o| - 1 then 1020 else 0) && NidCount(p) == (if k == |o| - 1 then 0 else 1020)
  {
    hide GetNodePath, PlaceAt;
    PathHeights(b);
  }

  lemma SameMapNone(t: Tree, at: Where)
    ensures SameMap(t, at, t, at)
  {
  }

  lemma CreateKeeps(t0: Tree, at0: Where, t: Tree, at: Where, q: Place)
    requires Linked(t, at) && SameMap(t0, at0, t, at)
    requires Valid(q) && q != Root && q.parent in at && q !in at && t.free != [] && at[q.parent] in t.nodes && q.slot < |t.nodes[at[q.parent]].nids|
    ensures
      var t' := Create(t, at[q.parent], q.slot, Noffset(q), AddrCount(q), NidCount(q));
      SameMap(t0, at0, t', at[q := t.free[0]]) && t'.invalidated == t.invalidated && t'.ino == t.ino
  {
    hide Addr, Linked, Valid, Noffset, Height;
    var t' := Create(t, at[q.parent], q.slot, Noffset(q), AddrCount(q), NidCount(q));
    forall b: nat ensures Addr(t', at[q := t.free[0]], b) == Addr(t, at, b) { CreateAddr(t, at, q, b); }
  }

  // ----- the file -----

  /** How an expansion ends; a path beyond the limit is an assertion failure. */
  datatype Result = Success | SizeExceedsLimit | NoFreeNid | AssertionFailed

  class FileIndex {
    var t: Tree
    var size: nat            // i_size
    ghost var at: Where

    /** The index is exactly that of a file of this size. */
    ghost predicate Valid()
      reads this
    {
      File(t, at, SizeToBlock(size))
    }

    /** The address of a block in the file. */
    ghost function Block(b: nat): u32
      reads this
    {
      Addr(t, at, b)
    }

    /** A new, empty file whose inode was just created. */
    constructor (ino: u32, free: seq<u32>)
      requires ino != INVALID && ino !in free && INVALID !in free && forall i, j | 0 <= i < j < |free| :: free[i] != free[j]
      ensures Valid() && size == 0 && Ids(t) == {ino} + set i | 0 <= i < |free| :: free[i]
      ensures t.invalidated == [] && forall b: nat :: Block(b) == INVALID
    {
      var node := Node(ino, 0, seq(932, _ => INVALID), seq(5, _ => INVALID));
      t, size, at := Tree(ino, map[ino := node], free, []), 0, map[Root := ino];
      new;
      EmptyFile(t, at);
    }

    /** Follows the path of a block from node to node. */
    method GetAddrOfBlock(b: nat) returns (lpa: u32, nid: u32, off: nat)
      requires Valid() && b < SizeToBlock(size)
      ensures lpa == Block(b) && b < MAX_BLKNO_LIMIT && Leaf(b) in at && nid == at[Leaf(b)] && off == b - First(Leaf(b))
      ensures nid in t.nodes && off < |t.nodes[nid].addr|
    {
      hide Linked, Places.Valid, First, GetNodePath, Addr, TailZero, PlaceAt, Noffset, ValidOffsets;
      PathPlaces(b, 0);
      RootHere(t, at);
      var o := GetNodePath(b).value.offset;
      var k := 0;
      nid := t.ino;
      PathNonEmpty(o);
      while k < |o| - 1
        invariant 0 <= k < |o| && PlaceAt(o, k) in at && at[PlaceAt(o, k)] == nid
      {
        WalkStep(t, at, b, k);
        nid := t.nodes[nid].nids[NextSlot(o, k)];
        k := k + 1;
      }
      off := o[|o| - 1];
      LeafRange(b);
      LeafReached(t, at, b, Leaf(b), off);
      lpa := t.nodes[nid].addr[off];
    }

    /** Changes the address of one block and of no other. */
    method UpdateBlockMapping(b: nat, lpa: u32)
      requires Valid() && b < SizeToBlock(size) && Block(b) != lpa
      modifies this
      ensures Valid() && size == old(size) && Ids(t) == old(Ids(t)) && t.invalidated == old(t.invalidated)
      ensures forall c: nat :: Block(c) == if c == b then lpa else old(Block(c))
    {
      hide Linked, Places.Valid, First, GetNodePath, Addr, Leaf, SetAddr, Height;
      var was, nid, off := GetAddrOfBlock(b);
      UpdateEffect(t, at, b, lpa);
      t := SetAddr(t, nid, off, lpa);
    }

    /**
     Makes the nodes for a larger size; no block gets an address. A size above the limit is refused,
     except for the last 4095 of 64 bits: those pass the test and never succeed.
     */
    method Expand(tarSize: u64) returns (r: Result)
      requires Valid()
      modifies this
      ensures r == SizeExceedsLimit <==> tarSize > old(size) && !Wraps(tarSize) && SizeToBlock(tarSize) > MAX_BLKNO_LIMIT
      ensures r == AssertionFailed ==> Wraps(tarSize)
      ensures Wraps(tarSize) ==> r == if |Needed(SizeToBlock(old(size)), MAX_BLKNO_LIMIT)| <= |old(t.free)| then AssertionFailed else NoFreeNid
      ensures tarSize > old(size) && !Wraps(tarSize) && SizeToBlock(tarSize) <= MAX_BLKNO_LIMIT ==>
                && (r == Success <==> |Needed(SizeToBlock(old(size)), SizeToBlock(tarSize))| <= |old(t.free)|)
                && (r == Success || r == NoFreeNid)
                && (r == Success ==> |t.free| == |old(t.free)| - |Needed(SizeToBlock(old(size)), SizeToBlock(tarSize))|)
      ensures tarSize <= old(size) ==> r == Success
      ensures r == SizeExceedsLimit ==> Valid() && size == old(size) && t == old(t)
      ensures r == Success ==> Valid() && size == if tarSize > old(size) then tarSize else old(size)
      ensures Ids(t) == old(Ids(t)) && t.invalidated == old(t.invalidated)
      ensures forall b: nat :: Block(b) == old(Block(b))
    {
      hide Linked, Addr, Sized, Ids, SameMap, SizeToBlock, SizeToBlock64, Needed, StartingAt;
      SameMapNone(t, at);
      SizeWraps(tarSize);
      ExpandRange(size, tarSize);
      if tarSize <= size {
        return Success;
      }
      if SizeToBlock64(tarSize) > MAX_BLKNO_LIMIT {
        return SizeExceedsLimit;
      }
      ghost var t0, at0 := t, at;
      var b, end := SizeToBlock(size), (SizeToBlock64(tarSize) + 0xFFFF_FFFF) % 0x1_0000_0000;
      ghost var from := b;
      NeededNone(from);
      size := tarSize;
      while b <= end
        invariant from <= b <= end + 1 && b <= MAX_BLKNO_LIMIT && Linked(t, at) && Sized(at, b) && SameMap(t0, at0, t, at)
        invariant |t.free| == |t0.free| - |Needed(from, b)|
        invariant Ids(t) == Ids(t0) && t.invalidated == t0.invalidated && size == tarSize
      {
        PathExistsExactly(b);
        if GetNodePath(b).None? {
          SameMapMeans(t0, at0, t, at);
          return AssertionFailed;
        }
        ghost var t1, at1 := t, at;
        NeededOneMore(from, b);
        var ok;
        t, at, ok := AddBlock(t, at, b);
        SameMapTrans(t0, at0, t1, at1, t, at);
        if !ok {
          SameMapMeans(t0, at0, t, at);
          NeededGrows(from, b + 1, if Wraps(tarSize) then MAX_BLKNO_LIMIT else end + 1);
          return NoFreeNid;
        }
        b := b + 1;
      }
      SameMapMeans(t0, at0, t, at);
      return Success;
    }

    /**
     Cuts the file down. Every block behind the new end is given up exactly once, and the index is
     that of the shorter file, exactly when the first block to be freed is not beyond block 1951 or
     there was nothing to free and the code skips everything.
     */
    method Reduce(tarSize: nat) returns (ok: bool)
      requires Valid()
      modifies this
      ensures size == if tarSize < old(size) then tarSize else old(size)
      ensures tarSize >= old(size) ==> ok && t == old(t) && at == old(at)
      ensures ok ==> Ids(t) == old(Ids(t)) && t.ino == old(t.ino)
      ensures
        var s, e := SizeToBlock(tarSize), SizeToBlock(old(size)) - 1;
        tarSize < old(size) ==>
          && (s > e ==> ok && t == old(t) && at == old(at) && Valid())
          && (s <= e ==> (ok && Freed(old(t), old(at), t, at, s, e) <==>
                          s <= BOUND || (!ToFree(old(t), old(at), s, e) && Harmless(s))))
          && (ok && Freed(old(t), old(at), t, at, s, e) ==> Valid() && forall b: nat :: Block(b) == if b < s then old(Block(b)) else INVALID)
    {
      hide Linked, Addr, Sized, TailZero, Ids, Mapped, SizeToBlock, Freed, ToFree;
      if size <= tarSize {
        return true;
      }
      Shrinks(size, tarSize);
      var s, e := SizeToBlock(tarSize), SizeToBlock(size) - 1;
      size := tarSize;
      if s > e {
        TailMeans(t, at, s);
        FreedMeans(t, at, t, at, s, e);
        return true;
      }
      ghost var t0, at0 := t, at;
      t, at, ok := FreeBlocksInRange(t, at, s, e);
      FreedMeans(t0, at0, t, at, s, e);
    }

    /** Deletes the file: every address is given up once, every node id becomes free. */
    method DeleteFile()
      requires Valid()
      modifies this
      ensures t.nodes == map[] && t.invalidated == old(t).invalidated + Mapped(old(t), old(at), 0, SizeToBlock(old(size)))
      ensures forall x :: x in t.free <==> x in old(Ids(t))
      ensures FreeOk(t)
    {
      hide Addr, Linked, Mapped, Freed, ToFree;
      ghost var t0, at0, n := t, at, SizeToBlock(size);
      MappedEmpty(t, at, 0, 0);
      assert SizeToBlock(0) == 0;
      var ok := Reduce(0);
      if n > 0 { FreedMeans(t0, at0, t, at, 0, n - 1); }
      OnlyInode(t, at);
      t := t.(nodes := t.nodes - {t.ino}, free := [t.ino] + t.free);
    }
  }

  lemma NeededNone(b: nat)
    requires b <= MAX_BLKNO_LIMIT
    ensures Needed(b, b) == {}
  {
  }

  lemma ExpandRange(size: nat, tarSize: u64)
    requires SizeToBlock(size) <= MAX_BLKNO_LIMIT
    ensures size < tarSize ==> SizeToBlock(size) <= SizeToBlock(tarSize) && SizeToBlock(tarSize) > 0
    ensures Wraps(tarSize) ==> size < tarSize
  {
  }

  lemma Shrinks(size: nat, tarSize: nat)
    requires tarSize < size
    ensures SizeToBlock(tarSize) <= SizeToBlock(size) && SizeToBlock(size) > 0
  {
  }

  lemma TailMeans(t: Tree, at: Where, n: nat)
    requires TailZero(t, at, n)
    ensures forall b: nat :: Addr(t, at, b) == if b < n then Addr(t, at, b) else INVALID
  {
    hide Addr;
  }

  lemma FreedMeans(t: Tree, at: Where, t': Tree, at': Where, s: nat, e: nat)
    ensures Freed(t, at, t', at', s, e) ==>
              && File(t', at', s) && t'.invalidated == t.invalidated + Mapped(t, at, s, e + 1)
              && forall b: nat :: Addr(t', at', b) == if b < s then Addr(t, at, b) else INVALID
  {
    hide Addr, Linked, Sized, Mapped;
  }

  lemma MappedEmpty(t: Tree, at: Where, lo: nat, hi: nat)
    requires hi <= lo
    ensures Mapped(t, at, lo, hi) == []
  {
  }

  /** An empty file has its inode and nothing else. */
  lemma OnlyInode(t: Tree, at: Where)
    requires File(t, at, 0)
    ensures t.nodes.Keys == {t.ino} && t.ino != INVALID && t.ino !in t.free
    ensures
      var t' := t.(nodes := t.nodes - {t.ino}, free := [t.ino] + t.free);
      && FreeOk(t') && t'.nodes == map[] && forall x :: x in t'.free <==> x in Ids(t)
  {
    hide Places.Valid, First, Addr;
    LinkedHere(t, at, Root);
    forall p | p in at ensures p == Root { LinkedHere(t, at, p); }
    forall x | x in t.nodes ensures x == t.ino {
      var p :| p in at && at[p] == x;
    }
    var t' := t.(nodes := t.nodes - {t.ino}, free := [t.ino] + t.free);
    assert forall i | 0 < i < |t'.free| :: t'.free[i] == t.free[i - 1];
  }

  // ----- an input beyond the bound -----

  /** A file of 1953 blocks whose last block is mapped; cutting off that block leaves it in place. */
  lemma MappedBeyondBound() returns (t: Tree, at: Where)
    ensures File(t, at, 1953) && Addr(t, at, 1952) == 9 && 1952 == BOUND + 1
  {
    hide Linked, Places.Valid, First, Addr, Noffset, Height, Create, Leaf, GetNodePath, SetAddr, SameMap;
    var t2, at2 := TwoNodes();
    var c1 := Child(Root, 1);
    SlotHeights();
    TopRange(1);
    LinkedHere(t2, at2, c1);
    LeafUnique(c1, 1952);
    UpdateEffect(t2, at2, 1952, 9);
    t, at := SetAddr(t2, 3, 0, 9), at2;
    forall p | Places.Valid(p) ensures p in at <==> p == Root || First(p) < 1953 {
      FirstTwoSlots(p);
    }
  }

  /** An empty file with nodes behind the inode's first two slots. */
  lemma TwoNodes() returns (t: Tree, at: Where)
    ensures Linked(t, at) && at == map[Root := 1, Child(Root, 0) := 2, Child(Root, 1) := 3] && forall b: nat :: Addr(t, at, b) == INVALID
  {
    hide Linked, Places.Valid, First, Addr, Noffset, Height, Create, SameMap, Sized, AddrCount, NidCount;
    var t0 := Tree(1, map[1 := Node(1, 0, seq(932, _ => INVALID), seq(5, _ => INVALID))], [2, 3], []);
    var at0: Where := map[Root := 1];
    EmptyFile(t0, at0);
    var c0, c1 := Child(Root, 0), Child(Root, 1);
    TopRange(0);
    TopRange(1);
    SameMapNone(t0, at0);
    CreateLinked(t0, at0, c0);
    CreateKeeps(t0, at0, t0, at0, c0);
    CreateFree(t0, at0[Root], 0, Noffset(c0), AddrCount(c0), NidCount(c0));
    var t1 := Create(t0, at0[Root], 0, Noffset(c0), AddrCount(c0), NidCount(c0));
    var at1 := at0[c0 := 2];
    CreateLinked(t1, at1, c1);
    CreateKeeps(t0, at0, t1, at1, c1);
    t := Create(t1, at1[Root], 1, Noffset(c1), AddrCount(c1), NidCount(c1));
    at := at1[c1 := 3];
    SameMapMeans(t0, at0, t, at);
  }

  lemma CreateFree(t: Tree, parent: u32, slot: nat, noffset: nat, addrs: nat, ids: nat)
    requires t.free != [] && parent in t.nodes && slot < |t.nodes[parent].nids|
    ensures Create(t, parent, slot, noffset, addrs, ids).free == t.free[1..]
  {
  }

  lemma FirstTwoSlots(p: Place)
    requires Places.Valid(p)
    ensures p == Root || p == Child(Root, 0) || p == Child(Root, 1) || First(p) >= 2972
    ensures First(Child(Root, 0)) < 1953 && First(Child(Root, 1)) < 1953
  {
    if p != Root {
      TopByRange(p, 0);
      TopByRange(p, 1);
      SlotHeights();
      if Within(p, Child(Root, 0)) && p != Child(Root, 0) { UnderRange(p, Child(Root, 0)); }
      if Within(p, Child(Root, 1)) && p != Child(Root, 1) { UnderRange(p, Child(Root, 1)); }
    }
  }

  lemma SameMapTrans(t0: Tree, at0: Where, t1: Tree, at1: Where, t2: Tree, at2: Where)
    requires SameMap(t0, at0, t1, at1) && SameMap(t1, at1, t2, at2)
    ensures SameMap(t0, at0, t2, at2)
  {
    hide Addr;
  }

  lemma SameMapMeans(t: Tree, at: Where, t': Tree, at': Where)
    requires SameMap(t, at, t', at')
    ensures forall b: nat :: Addr(t', at', b) == Addr(t, at, b)
    ensures forall n: nat :: TailZero(t, at, n) ==> TailZero(t', at', n)
  {
    hide Addr;
  }

  lemma EmptyFile(t: Tree, at: Where)
    requires |t.nodes| == 1 && at == map[Root := t.ino] && t.ino in t.nodes && t.ino != INVALID && t.ino !in t.free && INVALID !in t.free
    requires t.nodes == map[t.ino := Node(t.ino, 0, seq(932, _ => INVALID), seq(5, _ => INVALID))]
    requires forall i, j | 0 <= i < j < |t.free| :: t.free[i] != t.free[j]
    ensures File(t, at, 0) && forall b: nat :: Addr(t, at, b) == INVALID
  {
    hide First, Leaf, GetNodePath;
    assert Here(t, at[Root], Root);
    forall q | Valid(q) && q != Root && q.parent in at ensures SlotOk(t, at, q) { ChildSlot(q); }
    assert forall i | 0 <= i < |t.free| :: t.free[i] in t.free;
    assert forall nid | nid in t.nodes :: Root in at && at[Root] == nid;
  }

  lemma LeafReached(t: Tree, at: Where, b: nat, p: Place, off: nat)
    requires Linked(t, at) && b < MAX_BLKNO_LIMIT && p == Leaf(b) && p in at && First(p) + off == b
    ensures Here(t, at[p], p) && off < |t.nodes[at[p]].addr| && t.nodes[at[p]].addr[off] == Addr(t, at, b)
  {
    hide Linked, Places.Valid, First, GetNodePath, Leaf, Height;
    LeafRange(b);
    LinkedHere(t, at, p);
  }

  lemma UpdateEffect(t: Tree, at: Where, b: nat, lpa: u32)
    requires Linked(t, at) && b < MAX_BLKNO_LIMIT && Leaf(b) in at
    requires var off := b - First(Leaf(b)); at[Leaf(b)] in t.nodes && 0 <= off < |t.nodes[at[Leaf(b)]].addr|
    ensures
      var t' := SetAddr(t, at[Leaf(b)], b - First(Leaf(b)), lpa);
      && Linked(t', at) && Ids(t') == Ids(t) && t'.invalidated == t.invalidated
      && forall c: nat :: Addr(t', at, c) == if c == b then lpa else Addr(t, at, c)
  {
    hide Linked, Places.Valid, First, GetNodePath, Leaf, Height, Addr, Noffset;
    LeafRange(b);
    LinkedHere(t, at, Leaf(b));
    var off := b - First(Leaf(b));
    var t' := SetAddr(t, at[Leaf(b)], off, lpa);
    SetAddrLinked(t, at, Leaf(b), off, lpa);
    assert t'.nodes.Keys == t.nodes.Keys;
    forall c: nat ensures Addr(t', at, c) == if c == b then lpa else Addr(t, at, c) {
      SetAddrAddr(t, at, Leaf(b), off, lpa, c);
    }
  }
}
