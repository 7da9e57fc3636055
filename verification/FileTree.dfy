/**
 A file's index nodes as they are stored: node blocks found by node id, linked by the ids in their
 parents. Seen from outside the tree is a plain map from block numbers to addresses.
 */
module FileTree {
  import opened Bytes
  import opened NodePath
  import opened Places

  const INVALID: u32 := 0          // INVALID_NID and INVALID_LPA

  /** A node block: its footer, its addresses and its node ids. */
  datatype Node = Node(ino: u32, noffset: nat, addr: seq<u32>, nids: seq<u32>)

  /** The nodes of a file, the free node ids, and the addresses given up so far. */
  datatype Tree = Tree(ino: u32, nodes: map<u32, Node>, free: seq<u32>, invalidated: seq<u32>)

  /** Where the nodes are: the node id of each place that has a node. */
  type Where = map<Place, u32>

  function AddrCount(p: Place): nat { if p == Root then 932 else if Height(p) == 1 then 1020 else 0 }
  function NidCount(p: Place): nat { if p == Root then 5 else if Height(p) == 1 then 0 else 1020 }

  /** The node stored under `nid` is the node of place `p` of this file. */
  ghost predicate Here(t: Tree, nid: u32, p: Place) {
    && nid != INVALID && nid in t.nodes
    && var n := t.nodes[nid];
       n.ino == t.ino && n.noffset == Noffset(p) && |n.addr| == AddrCount(p) && |n.nids| == NidCount(p)
  }

  /** The id in the parent's slot is the child's, or invalid when there is no child. */
  ghost predicate SlotOk(t: Tree, at: Where, p: Place) {
    p != Root && p.parent in at && at[p.parent] in t.nodes &&
    var nids := t.nodes[at[p.parent]].nids;
    p.slot < |nids| && nids[p.slot] == if p in at then at[p] else INVALID
  }

  ghost predicate FreeOk(t: Tree) {
    && (forall i | 0 <= i < |t.free| :: t.free[i] != INVALID && t.free[i] !in t.nodes)
    && (forall i, j | 0 <= i < j < |t.free| :: t.free[i] != t.free[j])
  }

  /** The tree hangs together: every place's node is in its parent's slot, and nothing else is stored. */
  ghost predicate Linked(t: Tree, at: Where) {
    && Root in at && at[Root] == t.ino
    && (forall p | p in at :: Valid(p) && Here(t, at[p], p) && (p != Root ==> p.parent in at))
    && (forall p | Valid(p) && p != Root && p.parent in at :: SlotOk(t, at, p))
    && (forall nid | nid in t.nodes :: exists p :: p in at && at[p] == nid)
    && FreeOk(t)
  }

  /** No node id is referenced twice. */
  lemma NoSharing(t: Tree, at: Where, p: Place, q: Place)
    requires Linked(t, at) && p in at && q in at && at[p] == at[q]
    ensures p == q
  {
    NoffsetUnique(p);
    NoffsetUnique(q);
  }

  /** The node ids of the file and the free ones, together. */
  function Ids(t: Tree): set<u32> { t.nodes.Keys + set i | 0 <= i < |t.free| :: t.free[i] }

  // ----- the map the tree stands for -----

  /** The address of a block; invalid where there is no node for it. */
  ghost function Addr(t: Tree, at: Where, b: nat): u32 {
    if b < MAX_BLKNO_LIMIT && Leaf(b) in at && at[Leaf(b)] in t.nodes
       && 0 <= b - First(Leaf(b)) < |t.nodes[at[Leaf(b)]].addr|
    then t.nodes[at[Leaf(b)]].addr[b - First(Leaf(b))] else INVALID
  }

  /** The addresses of the mapped blocks among [lo, hi), in order. */
  ghost function Mapped(t: Tree, at: Where, lo: nat, hi: nat): seq<u32> {
    if hi <= lo then []
    else Mapped(t, at, lo, hi - 1) + if Addr(t, at, hi - 1) != INVALID then [Addr(t, at, hi - 1)] else []
  }

  lemma {:induction false} MappedSame(t: Tree, at: Where, t': Tree, at': Where, lo: nat, hi: nat)
    requires forall b | lo <= b < hi :: Addr(t, at, b) == Addr(t', at', b)
    ensures Mapped(t, at, lo, hi) == Mapped(t', at', lo, hi)
  {
    hide Addr;
    if lo < hi { MappedSame(t, at, t', at', lo, hi - 1); }
  }

  lemma {:induction false} MappedSplit(t: Tree, at: Where, lo: nat, mid: nat, hi: nat)
    requires lo <= mid <= hi
    ensures Mapped(t, at, lo, hi) == Mapped(t, at, lo, mid) + Mapped(t, at, mid, hi)
  {
    hide Addr;
    if mid < hi { MappedSplit(t, at, lo, mid, hi - 1); }
  }

  lemma {:induction false} MappedNone(t: Tree, at: Where, lo: nat, hi: nat)
    requires forall b | lo <= b < hi :: Addr(t, at, b) == INVALID
    ensures Mapped(t, at, lo, hi) == []
  {
    hide Addr;
    if lo < hi { MappedNone(t, at, lo, hi - 1); }
  }

  // ----- the three changes -----

  function SetAddr(t: Tree, nid: u32, off: nat, lpa: u32): Tree
    requires nid in t.nodes && off < |t.nodes[nid].addr|
  {
    t.(nodes := t.nodes[nid := t.nodes[nid].(addr := t.nodes[nid].addr[off := lpa])])
  }

  function SetNid(t: Tree, nid: u32, slot: nat, child: u32): Tree
    requires nid in t.nodes && slot < |t.nodes[nid].nids|
  {
    t.(nodes := t.nodes[nid := t.nodes[nid].(nids := t.nodes[nid].nids[slot := child])])
  }

  lemma SetAddrLinked(t: Tree, at: Where, p: Place, off: nat, lpa: u32)
    requires Linked(t, at) && p in at && off < AddrCount(p)
    ensures Here(t, at[p], p) && Linked(SetAddr(t, at[p], off, lpa), at)
  {
    hide Valid, Noffset, Height, Here, SlotOk;
    LinkedHere(t, at, p);
    SetAddrFits(t, at, p, off);
    var t' := SetAddr(t, at[p], off, lpa);
    forall q | q in at ensures Here(t', at[q], q) { SetAddrHere(t, at[p], off, lpa, at[q], q); }
    forall q | Valid(q) && q != Root && q.parent in at ensures SlotOk(t', at, q) { SetAddrSlot(t, at, p, off, lpa, q); }
    assert t'.nodes.Keys == t.nodes.Keys;
    assert FreeOk(t') by { assert t'.free == t.free; }
  }

  lemma SetAddrFits(t: Tree, at: Where, p: Place, off: nat)
    requires p in at && Here(t, at[p], p) && off < AddrCount(p)
    ensures at[p] in t.nodes && off < |t.nodes[at[p]].addr|
  {
  }

  lemma SetAddrHere(t: Tree, nid: u32, off: nat, lpa: u32, other: u32, q: Place)
    requires nid in t.nodes && off < |t.nodes[nid].addr| && Here(t, other, q)
    ensures Here(SetAddr(t, nid, off, lpa), other, q)
  {
    hide Noffset, Height;
  }

  lemma SetAddrSlot(t: Tree, at: Where, p: Place, off: nat, lpa: u32, q: Place)
    requires p in at && at[p] in t.nodes && off < |t.nodes[at[p]].addr|
    requires Linked(t, at) && Valid(q) && q != Root && q.parent in at
    ensures SlotOk(SetAddr(t, at[p], off, lpa), at, q)
  {
    hide Linked, Valid;
    LinkedSlot(t, at, q);
  }

  lemma SetAddrAddr(t: Tree, at: Where, p: Place, off: nat, lpa: u32, b: nat)
    requires Linked(t, at) && p in at && IsLeaf(p) && off < AddrCount(p)
    ensures Addr(SetAddr(t, at[p], off, lpa), at, b) == if b == First(p) + off && b < MAX_BLKNO_LIMIT then lpa else Addr(t, at, b)
  {
    hide Valid, Noffset, Height, Leaf, First, GetNodePath, Linked;
    LinkedHere(t, at, p);
    if b < MAX_BLKNO_LIMIT {
      LeafRange(b);
      if Leaf(b) in at && at[Leaf(b)] == at[p] { NoSharing(t, at, p, Leaf(b)); }
      if b == First(p) + off { LeafUnique(p, b); }
    }
  }

  lemma LinkedHere(t: Tree, at: Where, p: Place)
    requires Linked(t, at) && p in at
    ensures Valid(p) && Here(t, at[p], p)
  {
  }

  lemma LinkedSlot(t: Tree, at: Where, q: Place)
    requires Linked(t, at) && Valid(q) && q != Root && q.parent in at
    ensures SlotOk(t, at, q)
  {
  }

  lemma LinkedParent(t: Tree, at: Where, p: Place)
    requires Linked(t, at) && p in at && p != Root
    ensures Valid(p) && p.parent in at && SlotOk(t, at, p) && Here(t, at[p], p) && Here(t, at[p.parent], p.parent)
  {
  }

  /** A new empty node in the first free id, linked into its parent. */
  function Create(t: Tree, parent: u32, slot: nat, noffset: nat, addrs: nat, ids: nat): Tree
    requires t.free != [] && parent in t.nodes && slot < |t.nodes[parent].nids|
  {
    var nid := t.free[0];
    var node := Node(t.ino, noffset, seq(addrs, _ => INVALID), seq(ids, _ => INVALID));
    var t' := SetNid(t, parent, slot, nid);
    t'.(nodes := t'.nodes[nid := node], free := t.free[1..])
  }

  /** The node is given up: its id goes to the free list, its parent's slot becomes invalid. */
  function Delete(t: Tree, parent: u32, slot: nat, nid: u32): Tree
    requires nid in t.nodes && parent in t.nodes && slot < |t.nodes[parent].nids| && parent != nid
  {
    var t' := SetNid(t, parent, slot, INVALID);
    t'.(nodes := t'.nodes - {nid}, free := [nid] + t'.free)
  }

  lemma CreateLinked(t: Tree, at: Where, p: Place)
    requires Linked(t, at) && Valid(p) && p != Root && p.parent in at && p !in at && t.free != []
    ensures at[p.parent] in t.nodes && p.slot < |t.nodes[at[p.parent]].nids|
    ensures Linked(Create(t, at[p.parent], p.slot, Noffset(p), AddrCount(p), NidCount(p)), at[p := t.free[0]])
  {
    hide Valid, Noffset, Height, Here, SlotOk, Create;
    LinkedSlot(t, at, p);
    SlotInRange(t, at, p);
    var t', at' := Create(t, at[p.parent], p.slot, Noffset(p), AddrCount(p), NidCount(p)), at[p := t.free[0]];
    forall q | q in at' ensures Valid(q) && Here(t', at'[q], q) && (q != Root ==> q.parent in at') {
      CreateHere(t, at, p, q);
    }
    forall q | Valid(q) && q != Root && q.parent in at' ensures SlotOk(t', at', q) {
      CreateSlot(t, at, p, q);
    }
    CreateRest(t, at, p);
  }

  lemma SlotInRange(t: Tree, at: Where, p: Place)
    requires SlotOk(t, at, p)
    ensures at[p.parent] in t.nodes && p.slot < |t.nodes[at[p.parent]].nids|
  {
  }

  lemma CreateHere(t: Tree, at: Where, p: Place, q: Place)
    requires Linked(t, at) && Valid(p) && p != Root && p.parent in at && p !in at && t.free != []
    requires at[p.parent] in t.nodes && p.slot < |t.nodes[at[p.parent]].nids| && q in at[p := t.free[0]]
    ensures
      var t', at' := Create(t, at[p.parent], p.slot, Noffset(p), AddrCount(p), NidCount(p)), at[p := t.free[0]];
      Valid(q) && Here(t', at'[q], q) && (q != Root ==> q.parent in at')
  {
    hide Linked, Valid, Noffset, Height, SlotOk;
    FirstFree(t, at);
    if q != p {
      LinkedHere(t, at, q);
      if q != Root { LinkedParent(t, at, q); }
    }
  }

  lemma CreateRest(t: Tree, at: Where, p: Place)
    requires Linked(t, at) && p != Root && p.parent in at && p !in at && t.free != []
    requires at[p.parent] in t.nodes && p.slot < |t.nodes[at[p.parent]].nids|
    ensures
      var t', at' := Create(t, at[p.parent], p.slot, Noffset(p), AddrCount(p), NidCount(p)), at[p := t.free[0]];
      && FreeOk(t') && (forall x | x in t'.nodes :: exists q :: q in at' && at'[q] == x)
      && Root in at' && at'[Root] == t'.ino
  {
    hide Valid, Noffset, Height, SlotOk, Here;
    var t', at', nid := Create(t, at[p.parent], p.slot, Noffset(p), AddrCount(p), NidCount(p)), at[p := t.free[0]], t.free[0];
    forall x | x in t'.nodes ensures exists q :: q in at' && at'[q] == x {
      if x == nid { assert at'[p] == x; } else {
        var q :| q in at && at[q] == x;
        assert q != p && at'[q] == x;
      }
    }
    assert forall i | 0 <= i < |t'.free| :: t'.free[i] == t.free[i + 1];
  }

  lemma CreateSlot(t: Tree, at: Where, p: Place, q: Place)
    requires Linked(t, at) && Valid(p) && p != Root && p.parent in at && p !in at && t.free != []
    requires at[p.parent] in t.nodes && p.slot < |t.nodes[at[p.parent]].nids|
    requires Valid(q) && q != Root && q.parent in at[p := t.free[0]]
    ensures SlotOk(Create(t, at[p.parent], p.slot, Noffset(p), AddrCount(p), NidCount(p)), at[p := t.free[0]], q)
  {
    hide Noffset, Height, Linked, Valid;
    LinkedSlot(t, at, p);
    FirstFree(t, at);
    if q.parent == p {
      if q in at { LinkedParent(t, at, q); }
      ChildSlot(q);
    } else {
      LinkedSlot(t, at, q);
      if at[q.parent] == at[p.parent] { NoSharing(t, at, q.parent, p.parent); }
    }
  }

  lemma FirstFree(t: Tree, at: Where)
    requires Linked(t, at) && t.free != []
    ensures t.free[0] !in t.nodes && t.free[0] != INVALID
  {
  }

  lemma ChildSlot(q: Place)
    requires Valid(q) && q != Root
    ensures q.slot < NidCount(q.parent)
  {
  }

  lemma CreateAddr(t: Tree, at: Where, p: Place, b: nat)
    requires Linked(t, at) && Valid(p) && p != Root && p.parent in at && p !in at && t.free != []
    requires at[p.parent] in t.nodes && p.slot < |t.nodes[at[p.parent]].nids|
    ensures Addr(Create(t, at[p.parent], p.slot, Noffset(p), AddrCount(p), NidCount(p)), at[p := t.free[0]], b) == Addr(t, at, b)
  {
    hide Noffset, Height, Valid, Leaf, First;
    if b < MAX_BLKNO_LIMIT && Leaf(b) in at && Leaf(b) != p {
      assert Here(t, at[Leaf(b)], Leaf(b));
    }
  }

  lemma DeleteLinked(t: Tree, at: Where, p: Place)
    requires Linked(t, at) && p in at && p != Root
    requires forall q | q in at && q != Root :: q.parent != p
    ensures p.parent in at && at[p.parent] in t.nodes && p.slot < |t.nodes[at[p.parent]].nids| && at[p.parent] != at[p]
    ensures at[p] in t.nodes && Linked(Delete(t, at[p.parent], p.slot, at[p]), at - {p})
  {
    hide Valid, Noffset, Height, Here, SlotOk, Delete;
    DeleteFits(t, at, p);
    var t', at' := Delete(t, at[p.parent], p.slot, at[p]), at - {p};
    forall q | q in at' ensures Here(t', at'[q], q) {
      DeleteHere(t, at, p, q);
    }
    forall q | Valid(q) && q != Root && q.parent in at' ensures SlotOk(t', at', q) {
      DeleteSlot(t, at, p, q);
    }
    DeleteRest(t, at, p);
    DeleteFree(t, at, p);
  }

  lemma DeleteFits(t: Tree, at: Where, p: Place)
    requires Linked(t, at) && p in at && p != Root
    ensures p.parent in at && at[p.parent] in t.nodes && p.slot < |t.nodes[at[p.parent]].nids| && at[p.parent] != at[p]
    ensures at[p] in t.nodes && at[p] != INVALID
  {
    hide Linked, Noffset, Valid;
    LinkedParent(t, at, p);
    if at[p.parent] == at[p] { NoSharing(t, at, p.parent, p); }
  }

  lemma DeleteHere(t: Tree, at: Where, p: Place, q: Place)
    requires Linked(t, at) && p in at && p != Root && p.parent in at && at[p.parent] in t.nodes && at[p] in t.nodes
    requires p.slot < |t.nodes[at[p.parent]].nids| && at[p.parent] != at[p] && q in at - {p}
    ensures Here(Delete(t, at[p.parent], p.slot, at[p]), at[q], q)
  {
    hide Linked, Valid, Noffset, Height;
    LinkedHere(t, at, q);
    if at[q] == at[p] { NoSharing(t, at, q, p); }
  }

  lemma DeleteRest(t: Tree, at: Where, p: Place)
    requires Linked(t, at) && p in at && p != Root && p.parent in at && at[p.parent] in t.nodes && at[p] in t.nodes
    requires p.slot < |t.nodes[at[p.parent]].nids| && at[p.parent] != at[p]
    ensures var t', at' := Delete(t, at[p.parent], p.slot, at[p]), at - {p};
            t'.ino == t.ino && forall x | x in t'.nodes :: exists q :: q in at' && at'[q] == x
  {
    hide Valid, Noffset, Height, Here, SlotOk;
    var t', at' := Delete(t, at[p.parent], p.slot, at[p]), at - {p};
    forall x | x in t'.nodes ensures exists q :: q in at' && at'[q] == x {
      var q :| q in at && at[q] == x;
      assert q in at' && at'[q] == x;
    }
  }

  lemma DeleteFree(t: Tree, at: Where, p: Place)
    requires FreeOk(t) && p in at && at[p] != INVALID && at[p] in t.nodes && p != Root && p.parent in at && at[p.parent] in t.nodes
    requires p.slot < |t.nodes[at[p.parent]].nids| && at[p.parent] != at[p]
    ensures FreeOk(Delete(t, at[p.parent], p.slot, at[p]))
  {
    var t' := Delete(t, at[p.parent], p.slot, at[p]);
    assert forall i | 0 < i < |t'.free| :: t'.free[i] == t.free[i - 1];
  }

  lemma DeleteSlot(t: Tree, at: Where, p: Place, q: Place)
    requires Linked(t, at) && p in at && p != Root && p.parent in at && at[p.parent] in t.nodes
    requires p.slot < |t.nodes[at[p.parent]].nids| && at[p.parent] != at[p] && at[p] in t.nodes
    requires Valid(q) && q != Root && q.parent in at - {p}
    ensures SlotOk(Delete(t, at[p.parent], p.slot, at[p]), at - {p}, q)
  {
    hide Noffset, Height, Valid, Linked;
    LinkedSlot(t, at, q);
    if at[q.parent] == at[p.parent] { NoSharing(t, at, q.parent, p.parent); }
    if at[q.parent] == at[p] { NoSharing(t, at, q.parent, p); }
  }

  lemma DeleteAddr(t: Tree, at: Where, p: Place, b: nat)
    requires Linked(t, at) && p in at && p != Root && p.parent in at && at[p.parent] in t.nodes
    requires p.slot < |t.nodes[at[p.parent]].nids| && at[p.parent] != at[p]
    ensures at[p] in t.nodes
    ensures Addr(Delete(t, at[p.parent], p.slot, at[p]), at - {p}, b) ==
            if b < MAX_BLKNO_LIMIT && Leaf(b) == p then INVALID else Addr(t, at, b)
  {
    hide Noffset, Height, Valid, Leaf, First;
    assert Here(t, at[p], p);
    if b < MAX_BLKNO_LIMIT && Leaf(b) in at && Leaf(b) != p {
      assert Here(t, at[Leaf(b)], Leaf(b));
      if at[Leaf(b)] == at[p] { NoSharing(t, at, Leaf(b), p); }
    }
  }

  lemma CreateIds(t: Tree, parent: u32, slot: nat, noffset: nat, addrs: nat, ids: nat)
    requires t.free != [] && parent in t.nodes && slot < |t.nodes[parent].nids|
    ensures Ids(Create(t, parent, slot, noffset, addrs, ids)) == Ids(t)
  {
    var t' := Create(t, parent, slot, noffset, addrs, ids);
    forall x | x in Ids(t) ensures x in Ids(t') {
      if x !in t.nodes {
        var i :| 0 <= i < |t.free| && t.free[i] == x;
        if i > 0 { assert t'.free[i - 1] == x; }
      }
    }
  }

  lemma DeleteIds(t: Tree, parent: u32, slot: nat, nid: u32)
    requires nid in t.nodes && parent in t.nodes && slot < |t.nodes[parent].nids| && parent != nid
    ensures Ids(Delete(t, parent, slot, nid)) == Ids(t)
  {
    var t' := Delete(t, parent, slot, nid);
    assert t'.free[0] == nid;
    forall x | x in Ids(t) ensures x in Ids(t') {
      if x !in t.nodes {
        var i :| 0 <= i < |t.free| && t.free[i] == x;
        assert t'.free[i + 1] == x;
      }
    }
  }

  /** The free ids are a stack: the id of a deleted node is the next one to be used. */
  lemma DeletedIdIsNext(t: Tree, at: Where, p: Place)
    requires Linked(t, at) && p in at && p != Root
    ensures p.parent in at && at[p.parent] in t.nodes && p.slot < |t.nodes[at[p.parent]].nids| && at[p.parent] != at[p] && at[p] in t.nodes
    ensures
      var t' := Delete(t, at[p.parent], p.slot, at[p]);
      var t'' := Create(t', at[p.parent], p.slot, Noffset(p), AddrCount(p), NidCount(p));
      t'.free == [at[p]] + t.free && t''.free == t.free && t''.nodes.Keys == t.nodes.Keys && t''.nodes[at[p.parent]] == t.nodes[at[p.parent]]
  {
    hide Linked, Noffset, Height, Valid;
    DeleteFits(t, at, p);
    LinkedParent(t, at, p);
  }
}
