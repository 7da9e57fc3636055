/**
 Freeing the blocks [s, e] at the end of a file. The procedures carry a running start of the blocks
 that a node manages; the branches that skip a node do not advance it, so the outcome depends on
 where `s` lies.
 */
module FileFree {
  import opened Bytes
  import opened NodePath
  import opened Places
  import opened FileTree

  // ----- what a file of n blocks looks like -----

  /** A node exists exactly where its first block is inside the file. */
  ghost predicate Sized(at: Where, n: nat) {
    forall p | Valid(p) :: p in at <==> p == Root || First(p) < n
  }

  /** No block from `n` on has an address. */
  ghost predicate TailZero(t: Tree, at: Where, n: nat) {
    forall b | n <= b :: Addr(t, at, b) == INVALID
  }

  ghost predicate File(t: Tree, at: Where, n: nat) {
    n <= MAX_BLKNO_LIMIT && Linked(t, at) && Sized(at, n) && TailZero(t, at, n)
  }

  /** The nodes within `c` exist as they should in a file of `n` blocks. */
  ghost predicate Intact(at: Where, c: Place, n: nat) {
    forall q | Valid(q) && Within(q, c) :: q in at <==> First(q) < n
  }

  // ----- what freeing may do -----

  /** Nodes and addresses outside `c` are as before; addresses inside are as before or gone. */
  ghost predicate Local(t: Tree, at: Where, t': Tree, at': Where, c: Place) {
    && t'.ino == t.ino && Ids(t') == Ids(t)
    && (forall q | q in at' :: q in at && at'[q] == at[q])
    && (forall q | q in at && !Within(q, c) :: q in at')
    && (forall b: nat :: Addr(t', at', b) == Addr(t, at, b) || (Addr(t', at', b) == INVALID && First(c) <= b < End(c)))
  }

  function Max(a: nat, b: nat): nat { if a < b then b else a }
  function Min(a: nat, b: nat): nat { if a < b then a else b }

  /** Blocks [lo, hi) are gone, their addresses given up in order; the other blocks are as before. */
  ghost predicate Cleared(t: Tree, at: Where, t': Tree, at': Where, lo: nat, hi: nat) {
    && (forall b: nat :: Addr(t', at', b) == if lo <= b < hi then INVALID else Addr(t, at, b))
    && t'.invalidated == t.invalidated + Mapped(t, at, lo, hi)
  }

  lemma ClearedNone(t: Tree, at: Where, lo: nat, hi: nat)
    requires hi <= lo
    ensures Cleared(t, at, t, at, lo, hi)
  {
  }

  lemma ClearedTrans(t: Tree, at: Where, t1: Tree, at1: Where, t2: Tree, at2: Where, lo: nat, mid: nat, hi: nat)
    requires lo <= mid <= hi && Cleared(t, at, t1, at1, lo, mid) && Cleared(t1, at1, t2, at2, mid, hi)
    ensures Cleared(t, at, t2, at2, lo, hi)
  {
    hide Addr;
    MappedSame(t, at, t1, at1, mid, hi);
    MappedSplit(t, at, lo, mid, hi);
  }

  /** Blocks without an address may be added to the range. */
  lemma ClearedWiden(t: Tree, at: Where, t': Tree, at': Where, lo: nat, hi: nat, hi': nat)
    requires Cleared(t, at, t', at', lo, hi) && lo <= hi <= hi' && forall b | hi <= b < hi' :: Addr(t, at, b) == INVALID
    ensures Cleared(t, at, t', at', lo, hi')
  {
    hide Addr;
    MappedNone(t, at, hi, hi');
    MappedSplit(t, at, lo, hi, hi');
  }

  /** A node whose blocks are all gone can be deleted without changing any address. */
  lemma DeleteCleared(t: Tree, at: Where, t1: Tree, at1: Where, p: Place, lo: nat, hi: nat)
    requires Cleared(t, at, t1, at1, lo, hi) && Linked(t1, at1) && p in at1 && p != Root
    requires p.parent in at1 && at1[p.parent] in t1.nodes && p.slot < |t1.nodes[at1[p.parent]].nids| && at1[p.parent] != at1[p] && at1[p] in t1.nodes
    requires Valid(p) && lo <= First(p) && End(p) <= hi
    ensures Cleared(t, at, Delete(t1, at1[p.parent], p.slot, at1[p]), at1 - {p}, lo, hi)
  {
    hide Addr, Leaf, Linked, Delete, First, Height, Valid;
    var t2, at2 := Delete(t1, at1[p.parent], p.slot, at1[p]), at1 - {p};
    forall b: nat ensures Addr(t2, at2, b) == Addr(t1, at1, b) {
      DeleteAddr(t1, at1, p, b);
      if b < MAX_BLKNO_LIMIT && Leaf(b) == p {
        LeafInRange(p, b);
      }
    }
    assert t2.invalidated == t1.invalidated by { DeleteInvalidates(t1, at1[p.parent], p.slot, at1[p]); }
  }

  lemma LeafInRange(p: Place, b: nat)
    requires b < MAX_BLKNO_LIMIT && Leaf(b) == p && p != Root
    ensures First(p) <= b < End(p)
  {
    hide Leaf, First;
    LeafRange(b);
  }

  lemma DeleteInvalidates(t: Tree, parent: u32, slot: nat, nid: u32)
    requires nid in t.nodes && parent in t.nodes && slot < |t.nodes[parent].nids| && parent != nid
    ensures Delete(t, parent, slot, nid).invalidated == t.invalidated && Delete(t, parent, slot, nid).ino == t.ino
  {
  }

  // ----- clearing addresses of one node -----

  /** Gives up the addresses at positions [from, to] of a node. */
  method ClearRange(t: Tree, ghost at: Where, ghost p: Place, nid: u32, from: nat, to: nat) returns (t': Tree)
    requires Linked(t, at) && p in at && IsLeaf(p) && nid == at[p] && from <= to < AddrCount(p) && First(p) + to < MAX_BLKNO_LIMIT
    ensures Linked(t', at) && t'.ino == t.ino && Ids(t') == Ids(t)
    ensures Cleared(t, at, t', at, First(p) + from, First(p) + to + 1)
  {
    hide Linked, Addr, First, Height, Valid, Cleared, SetAddr, Mapped, Leaf, Ids;
    t' := t;
    var i := from;
    ClearedNone(t, at, First(p) + from, First(p) + from);
    while i <= to
      invariant from <= i <= to + 1 && Linked(t', at) && t'.ino == t.ino && Ids(t') == Ids(t)
      invariant Cleared(t, at, t', at, First(p) + from, First(p) + i)
    {
      ClearOne(t, t', at, p, from, i);
      var lpa := t'.nodes[nid].addr[i];
      assert Forget(t', nid, i) == if lpa == INVALID then t' else SetAddr(t', nid, i, INVALID).(invalidated := t'.invalidated + [lpa]);
      if lpa != INVALID {
        t' := SetAddr(t', nid, i, INVALID).(invalidated := t'.invalidated + [lpa]);
      }
      i := i + 1;
    }
  }

  /** The tree with the address at position `i` given up, if there is one. */
  function Forget(t: Tree, nid: u32, i: nat): Tree
    requires nid in t.nodes && i < |t.nodes[nid].addr|
  {
    var lpa := t.nodes[nid].addr[i];
    if lpa == INVALID then t else SetAddr(t, nid, i, INVALID).(invalidated := t.invalidated + [lpa])
  }

  lemma ForgetOne(t: Tree, at: Where, p: Place, i: nat)
    requires Linked(t, at) && p in at && IsLeaf(p) && i < AddrCount(p) && First(p) + i < MAX_BLKNO_LIMIT
    ensures Here(t, at[p], p)
    ensures var t' := Forget(t, at[p], i);
            Linked(t', at) && Cleared(t, at, t', at, First(p) + i, First(p) + i + 1) && t'.ino == t.ino && Ids(t') == Ids(t)
  {
    hide Linked, Addr, First, Height, Valid, SetAddr, Leaf, Mapped;
    LinkedHere(t, at, p);
    var lpa, b := t.nodes[at[p]].addr[i], First(p) + i;
    AddrHere(t, at, p, i);
    MappedOne(t, at, b);
    if lpa != INVALID {
      SetAddrLinked(t, at, p, i, INVALID);
      var t1 := SetAddr(t, at[p], i, INVALID);
      var t' := t1.(invalidated := t.invalidated + [lpa]);
      LinkedSame(t1, t', at);
      forall c: nat ensures Addr(t', at, c) == if c == b then INVALID else Addr(t, at, c) {
        SetAddrAddr(t, at, p, i, INVALID, c);
        AddrSame(t1, t', at, c);
      }
      SetAddrIno(t, at[p], i, INVALID);
    }
  }

  lemma ClearOne(t0: Tree, t: Tree, at: Where, p: Place, from: nat, i: nat)
    requires Linked(t, at) && p in at && IsLeaf(p) && from <= i < AddrCount(p) && First(p) + i < MAX_BLKNO_LIMIT
    requires Cleared(t0, at, t, at, First(p) + from, First(p) + i)
    ensures Here(t, at[p], p)
    ensures var t' := Forget(t, at[p], i);
            Linked(t', at) && Cleared(t0, at, t', at, First(p) + from, First(p) + i + 1) && t'.ino == t.ino && Ids(t') == Ids(t)
  {
    hide Linked, Addr, First, Height, Valid, Cleared, Forget;
    ForgetOne(t, at, p, i);
    var b := First(p) + i;
    ClearedTrans(t0, at, t, at, Forget(t, at[p], i), at, First(p) + from, b, b + 1);
  }

  lemma MappedOne(t: Tree, at: Where, b: nat)
    ensures Mapped(t, at, b, b + 1) == if Addr(t, at, b) == INVALID then [] else [Addr(t, at, b)]
  {
    hide Addr;
    assert Mapped(t, at, b, b) == [];
  }

  lemma SetAddrIno(t: Tree, nid: u32, off: nat, lpa: u32)
    requires nid in t.nodes && off < |t.nodes[nid].addr|
    ensures SetAddr(t, nid, off, lpa).ino == t.ino && SetAddr(t, nid, off, lpa).nodes.Keys == t.nodes.Keys && SetAddr(t, nid, off, lpa).free == t.free && SetAddr(t, nid, off, lpa).invalidated == t.invalidated
  {
  }

  lemma LinkedSame(t: Tree, t': Tree, at: Where)
    requires Linked(t, at) && t'.nodes == t.nodes && t'.ino == t.ino && t'.free == t.free
    ensures Linked(t', at)
  {
    hide Here, Valid, Noffset;
    forall q | q in at ensures Here(t', at[q], q) { HereSame(t, t', at[q], q); }
    forall q | Valid(q) && q != Root && q.parent in at ensures SlotOk(t', at, q) { assert SlotOk(t, at, q); }
  }

  lemma HereSame(t: Tree, t': Tree, nid: u32, q: Place)
    requires Here(t, nid, q) && t'.nodes == t.nodes && t'.ino == t.ino
    ensures Here(t', nid, q)
  {
  }

  lemma AddrSame(t: Tree, t': Tree, at: Where, b: nat)
    requires t'.nodes == t.nodes
    ensures Addr(t', at, b) == Addr(t, at, b)
  {
  }

  lemma AddrHere(t: Tree, at: Where, p: Place, i: nat)
    requires Linked(t, at) && p in at && IsLeaf(p) && i < AddrCount(p) && First(p) + i < MAX_BLKNO_LIMIT
    ensures Here(t, at[p], p) && Addr(t, at, First(p) + i) == t.nodes[at[p]].addr[i]
  {
    hide Linked, First, Height, Valid, Leaf;
    LinkedHere(t, at, p);
    LeafUnique(p, First(p) + i);
  }

  // ----- composing local changes -----

  lemma LocalTrans(t: Tree, at: Where, t1: Tree, at1: Where, t2: Tree, at2: Where, c: Place)
    requires Local(t, at, t1, at1, c) && Local(t1, at1, t2, at2, c)
    ensures Local(t, at, t2, at2, c)
  {
    hide Addr, First, End, Within;
  }

  lemma LocalNone(t: Tree, at: Where, c: Place)
    ensures Local(t, at, t, at, c)
  {
    hide Addr;
  }

  /** A change local to a child is local to its parent. */
  lemma LocalUp(t: Tree, at: Where, t': Tree, at': Where, p: Place, i: nat)
    requires Local(t, at, t', at', Child(p, i)) && p != Root && Valid(p) && Height(p) >= 2 && i < 1020
    ensures Local(t, at, t', at', p)
  {
    hide Addr, First, Valid, Height;
    ChildRange(p, i);
    forall q | q in at && !Within(q, p) ensures q in at' {
      if Within(q, Child(p, i)) { WithinUp(q, p, i); }
    }
  }

  lemma WithinUp(q: Place, p: Place, i: nat)
    requires Within(q, Child(p, i))
    ensures Under(q, p)
  {
    if q != Child(p, i) { UnderTransitive(q, Child(p, i), p); }
  }

  lemma TailKept(t: Tree, at: Where, t': Tree, at': Where, c: Place, n: nat)
    requires TailZero(t, at, n) && Local(t, at, t', at', c)
    ensures TailZero(t', at', n)
  {
    hide Addr, First, End, Within;
  }

  /** Deleting a node after a local change below it is still local. */
  lemma DeleteLocal(t: Tree, at: Where, t1: Tree, at1: Where, p: Place)
    requires Local(t, at, t1, at1, p) && Linked(t1, at1) && p in at1 && p != Root && Valid(p)
    requires p.parent in at1 && at1[p.parent] in t1.nodes && p.slot < |t1.nodes[at1[p.parent]].nids| && at1[p.parent] != at1[p] && at1[p] in t1.nodes
    ensures Local(t, at, Delete(t1, at1[p.parent], p.slot, at1[p]), at1 - {p}, p)
  {
    hide Addr, Leaf, Linked, Delete, First, Height, Valid;
    var t2, at2 := Delete(t1, at1[p.parent], p.slot, at1[p]), at1 - {p};
    DeleteInvalidates(t1, at1[p.parent], p.slot, at1[p]);
    DeleteIds(t1, at1[p.parent], p.slot, at1[p]);
    forall b: nat ensures Addr(t2, at2, b) == Addr(t1, at1, b) || (Addr(t2, at2, b) == INVALID && First(p) <= b < End(p)) {
      DeleteAddr(t1, at1, p, b);
      if b < MAX_BLKNO_LIMIT && Leaf(b) == p { LeafInRange(p, b); }
    }
  }

  lemma EndBound(p: Place)
    requires Valid(p) && p != Root
    ensures 932 <= First(p) < End(p) <= MAX_BLKNO_LIMIT && 1 <= Height(p) <= 3
  {
    hide First;
    HeightBound(p);
    UnderRoot(p);
    var i := UnderChild(p, Root);
    WithinRange(p, Child(Root, i));
    TopRange(i);
  }

  // ----- single nodes -----

  /** The running start is right, and what lies below `p` reaches into the freed blocks as it should. */
  ghost predicate Aligned(p: Place, start: nat, s: nat, e: nat) {
    start == First(p) && First(p) <= e && s < End(p) && (Height(p) > 1 ==> s <= First(p))
  }

  /** Gives up the addresses of a single node that are in [s, e], taking `start` for its first block. */
  method ProcSingle(t: Tree, ghost at: Where, ghost p: Place, nid: u32, start: nat, s: nat, e: nat) returns (t': Tree, invalid: bool)
    requires Linked(t, at) && TailZero(t, at, e + 1) && p in at && p != Root && Height(p) == 1 && nid == at[p] && s <= e
    ensures Linked(t', at) && Local(t, at, t', at, p)
    ensures invalid <==> s <= start <= e
    ensures Aligned(p, start, s, e) ==> Cleared(t, at, t', at, Max(s, First(p)), End(p))
  {
    hide Linked, Addr, First, Valid, Cleared, Local, TailZero;
    LinkedHere(t, at, p);
    EndBound(p);
    LocalNone(t, at, p);
    var end := start + ADDRS_PER_BLOCK - 1;
    if e < start || end < s {
      return t, false;
    }
    var from, to := Max(start, s) - start, Min(end, e) - start;
    t' := ClearRange(t, at, p, nid, from, to);
    ClearedLocal(t, at, t', p, from, to);
    if Aligned(p, start, s, e) {
      TailClears(t, at, t', p, s, e);
    }
    invalid := start >= s;
  }

  lemma ClearedLocal(t: Tree, at: Where, t': Tree, p: Place, from: nat, to: nat)
    requires Cleared(t, at, t', at, First(p) + from, First(p) + to + 1) && from <= to < 1020 && Height(p) == 1 && t'.ino == t.ino && Ids(t') == Ids(t)
    ensures Local(t, at, t', at, p)
  {
    hide Addr, First;
  }

  lemma TailClears(t: Tree, at: Where, t': Tree, p: Place, s: nat, e: nat)
    requires TailZero(t, at, e + 1) && First(p) <= e && s < End(p) && s <= e
    requires Cleared(t, at, t', at, Max(First(p), s), Min(End(p) - 1, e) + 1)
    ensures Cleared(t, at, t', at, Max(s, First(p)), End(p))
  {
    hide Addr, First, End, Cleared;
    if e < End(p) - 1 {
      ClearedWiden(t, at, t', at, Max(First(p), s), e + 1, End(p));
    }
  }
}
