/** Freeing below indirect nodes: a child is looked up, processed and, when it has become useless, deleted. */
module FileFreeTree {
  import opened Bytes
  import opened NodePath
  import opened Places
  import opened FileTree
  import opened FileFree

  /** The skip branch of a node of height `h` applies to its first child, hence to every child. */
  predicate SkipsAll(h: int, start: nat, s: nat) { h >= 2 && start + Stride(h - 1, 1) - 1 < s }

  /** No node is left directly below `p`. */
  ghost predicate Childless(at: Where, p: Place) { forall q | q in at && q != Root :: q.parent != p }

  /** Freeing within `c` was done right: blocks and nodes from `s` on are gone, the addresses given up. */
  ghost predicate Done(t: Tree, at: Where, t': Tree, at': Where, c: Place, s: nat) {
    && Cleared(t, at, t', at', Max(s, First(c)), End(c))
    && forall q | Within(q, c) :: q in at' <==> q in at && First(q) < s
  }

  // ----- the state in the middle of a node -----

  /** Children from `i` on are untouched. */
  ghost predicate Rest(at: Where, p: Place, i: nat, e: nat) {
    forall q | Valid(q) && Under(q, p) && First(p) + Stride(Height(p) - 1, i) <= First(q) :: q in at <==> First(q) <= e
  }

  /** Blocks of the children before `i` and all nodes within them are gone. */
  ghost predicate DoneUpTo(t: Tree, at: Where, t': Tree, at': Where, p: Place, i: nat) {
    && Cleared(t, at, t', at', First(p), First(p) + Stride(Height(p) - 1, i))
    && forall q | q in at' && Under(q, p) :: First(q) >= First(p) + Stride(Height(p) - 1, i)
  }

  ghost predicate GoneBefore(at: Where, p: Place, i: nat) { forall j | 0 <= j < i :: Child(p, j) !in at }

  lemma RestIntact(at: Where, p: Place, i: nat, e: nat)
    requires Rest(at, p, i, e) && Valid(p) && p != Root && Height(p) >= 2 && i < 1020
    ensures Intact(at, Child(p, i), e + 1)
  {
    hide First, Height;
    ChildRange(p, i);
    forall q | Valid(q) && Within(q, Child(p, i)) ensures q in at <==> First(q) < e + 1 {
      WithinUp(q, p, i);
      WithinRange(q, Child(p, i));
    }
  }

  lemma IntactRest(at: Where, p: Place, e: nat)
    requires Intact(at, p, e + 1)
    ensures Rest(at, p, 0, e)
  {
  }

  lemma RestStep(t: Tree, at: Where, t': Tree, at': Where, p: Place, i: nat, e: nat)
    requires Rest(at, p, i, e) && Local(t, at, t', at', Child(p, i))
    requires Valid(p) && p != Root && Height(p) >= 2 && i < 1020
    ensures Rest(at', p, i + 1, e)
  {
    hide First, Height, Under, Within, Valid, Local, Stride, Rest;
    forall q | Valid(q) && Under(q, p) && First(p) + Stride(Height(p) - 1, i + 1) <= First(q)
      ensures q in at' <==> First(q) <= e
    {
      WithinByRange(q, p, i);
      LocalSame(t, at, t', at', Child(p, i), q);
      StrideStep(Height(p) - 1, i);
      RestAt(at, p, i, e, q);
    }
    RestIntro(at', p, i + 1, e);
  }

  lemma RestAt(at: Where, p: Place, i: nat, e: nat, q: Place)
    requires Rest(at, p, i, e) && Valid(q) && Under(q, p) && First(p) + Stride(Height(p) - 1, i) <= First(q)
    ensures q in at <==> First(q) <= e
  {
  }

  lemma RestIntro(at: Where, p: Place, i: nat, e: nat)
    requires forall q | Valid(q) && Under(q, p) && First(p) + Stride(Height(p) - 1, i) <= First(q) :: q in at <==> First(q) <= e
    ensures Rest(at, p, i, e)
  {
    hide First, Height, Under, Valid, Stride;
  }

  lemma LocalSame(t: Tree, at: Where, t': Tree, at': Where, c: Place, q: Place)
    requires Local(t, at, t', at', c)
    ensures q in at' ==> q in at && at'[q] == at[q]
    ensures !Within(q, c) ==> (q in at' <==> q in at)
  {
    hide Addr, First, Within;
  }

  lemma StrideStep(h: int, i: nat)
    ensures Stride(h, i + 1) == Stride(h, i) + Stride(h, 1)
    ensures Stride(h, 0) == 0
  {
  }

  lemma RestSkip(at: Where, p: Place, i: nat, e: nat)
    requires Rest(at, p, i, e)
    ensures Rest(at, p, i + 1, e)
  {
    hide First, Height, Under;
    StrideStep(Height(p) - 1, i);
  }

  lemma DoneStep(t0: Tree, at0: Where, t: Tree, at: Where, t': Tree, at': Where, p: Place, i: nat, s: nat)
    requires DoneUpTo(t0, at0, t, at, p, i) && Done(t, at, t', at', Child(p, i), s) && Local(t, at, t', at', Child(p, i))
    requires Valid(p) && p != Root && Height(p) >= 2 && i < 1020 && s <= First(p)
    requires Linked(t', at')
    ensures DoneUpTo(t0, at0, t', at', p, i + 1)
  {
    hide First, Height, Addr, Under, Cleared, Linked;
    ChildRange(p, i);
    StrideStep(Height(p) - 1, i);
    var lo, mid, hi := First(p), First(p) + Stride(Height(p) - 1, i), First(p) + Stride(Height(p) - 1, i + 1);
    ClearedTrans(t0, at0, t, at, t', at', lo, mid, hi);
    forall q | q in at' && Under(q, p) ensures First(q) >= hi {
      LinkedHere(t', at', q);
      WithinByRange(q, p, i);
    }
  }

  lemma DoneNone(t: Tree, at: Where, p: Place)
    requires Linked(t, at) && p != Root
    ensures DoneUpTo(t, at, t, at, p, 0)
  {
    hide First, Addr, Linked, Height;
    StrideStep(Height(p) - 1, 0);
    ClearedNone(t, at, First(p), First(p));
    forall q | q in at && Under(q, p) ensures First(q) >= First(p) {
      LinkedHere(t, at, q);
      UnderRange(q, p);
    }
  }

  /** When the loop ends every child is done: all 1020 were visited, or the rest lies behind the file. */
  lemma DoneAll(t0: Tree, at0: Where, t: Tree, at: Where, p: Place, i: nat, e: nat)
    requires DoneUpTo(t0, at0, t, at, p, i) && Local(t0, at0, t, at, p) && Linked(t, at) && Intact(at0, p, e + 1) && TailZero(t0, at0, e + 1)
    requires Valid(p) && p != Root && Height(p) >= 2 && i <= 1020
    requires i == 1020 || e < First(p) + Stride(Height(p) - 1, i)
    ensures Cleared(t0, at0, t, at, First(p), End(p)) && forall q | q in at :: !Under(q, p)
  {
    hide First, Height, Addr, Under, Cleared, Linked;
    HeightBound(p);
    var c := First(p) + Stride(Height(p) - 1, i);
    assert c <= End(p) && (i == 1020 ==> c == End(p));
    ClearedWiden(t0, at0, t, at, First(p), c, End(p));
    forall q | q in at ensures !Under(q, p) {
      LinkedHere(t, at, q);
      if Under(q, p) { UnderRange(q, p); }
    }
  }

  /** No child is left: those before `i` were deleted, and the others do not exist. */
  lemma NoChildLeft(t: Tree, at: Where, p: Place, i: nat, e: nat)
    requires Linked(t, at) && Rest(at, p, i, e) && GoneBefore(at, p, i) && Valid(p) && p != Root && Height(p) >= 2 && i <= 1020
    requires i == 1020 || Child(p, i) !in at
    ensures Childless(at, p)
  {
    hide First, Height, Linked;
    forall q | q in at && q != Root ensures q.parent != p {
      LinkedHere(t, at, q);
      if q.parent == p {
        ChildSlot(q);
        assert q == Child(p, q.slot);
        LaterChild(at, p, i, q.slot, e);
      }
    }
  }

  lemma LaterChild(at: Where, p: Place, i: nat, j: nat, e: nat)
    requires Rest(at, p, i, e) && Valid(p) && p != Root && Height(p) >= 2 && i <= j < 1020 && Child(p, i) !in at
    ensures Child(p, j) !in at
  {
    hide First, Height, Under, Valid, Rest, Stride;
    ChildRange(p, i);
    ChildRange(p, j);
    DirectlyUnder(p, i);
    DirectlyUnder(p, j);
    assert Stride(Height(p) - 1, i) <= Stride(Height(p) - 1, j) by { StrideGrows(Height(p) - 1, i, j); }
    RestAt(at, p, i, e, Child(p, i));
    RestAt(at, p, i, e, Child(p, j));
  }

  lemma DirectlyUnder(p: Place, i: nat)
    ensures Under(Child(p, i), p)
  {
  }

  lemma StrideGrows(h: int, i: nat, j: nat)
    requires i <= j
    ensures Stride(h, i) <= Stride(h, j)
  {
  }

  /** The slot tells whether the child exists. */
  lemma SlotTells(t: Tree, at: Where, p: Place, i: nat)
    requires Linked(t, at) && p in at && Valid(Child(p, i))
    ensures Here(t, at[p], p) && i < |t.nodes[at[p]].nids|
    ensures if Child(p, i) in at then t.nodes[at[p]].nids[i] == at[Child(p, i)] != INVALID else t.nodes[at[p]].nids[i] == INVALID
  {
    hide Valid, Noffset, Height;
    LinkedHere(t, at, p);
    LinkedSlot(t, at, Child(p, i));
    if Child(p, i) in at { LinkedHere(t, at, Child(p, i)); }
  }

  // ----- the procedures -----

  /** Processes the node in slot `i` of the node `nid`, and deletes it when it has become useless. */
  method ProcChild(t: Tree, ghost at: Where, ghost p: Place, nid: u32, i: nat, h: nat, start: nat, s: nat, e: nat)
    returns (t': Tree, ghost at': Where, ok: bool)
    requires Linked(t, at) && TailZero(t, at, e + 1) && p in at && nid == at[p] && s <= e
    requires Valid(Child(p, i)) && h == Height(Child(p, i)) && Intact(at, Child(p, i), e + 1)
    ensures ok ==> Linked(t', at') && Local(t, at, t', at', Child(p, i))
    ensures ok && s <= start <= e ==> Child(p, i) !in at'
    ensures Aligned(Child(p, i), start, s, e) ==> ok && Done(t, at, t', at', Child(p, i), s)
    ensures ok ==> Child(p, i) in at
    ensures SkipsAll(h, start, s) ==> (ok <==> Child(p, i) in at) && (ok ==> t' == t && at' == at)
    decreases h, 1
  {
    ghost var c := Child(p, i);
    hide Linked, Valid, First, Height, End, Local, Cleared, TailZero, Intact, Aligned, Within, Delete;
    SlotTells(t, at, p, i);
    IntactSelf(at, c, e + 1);
    AlignedFirst(c, start, s, e);
    var child := t.nodes[nid].nids[i];
    if child == INVALID {
      return t, at, false;
    }
    HeightBound(c);
    var invalid;
    if h == 1 {
      t', invalid := ProcSingle(t, at, c, child, start, s, e);
      at', ok := at, true;
      LeafChildless(t', at', c);
    } else {
      t', at', ok, invalid := ProcNode(t, at, c, child, h, start, s, e);
      if !ok {
        return;
      }
    }
    ghost var t1, at1 := t', at';
    if invalid {
      DeleteLinked(t1, at1, c);
      LocalSame(t, at, t1, at1, c, p);
      LocalSame(t, at, t1, at1, c, c);
      DeleteLocal(t, at, t1, at1, c);
      t' := Delete(t', nid, i, child);
      at' := at' - {c};
    }
    if Aligned(c, start, s, e) {
      LocalSame(t, at, t1, at1, c, p);
      LocalSame(t, at, t1, at1, c, c);
      if h == 1 {
        LeafNoneUnder(t, at, c);
        LeafNoneUnder(t1, at1, c);
      } else {
        NodeAligned(c, start, s, e);
        UnderAfter(t, at, c, s);
      }
      ChildDone(t, at, t1, at1, c, s, invalid);
    }
  }

  lemma LeafNoneUnder(t: Tree, at: Where, c: Place)
    requires Linked(t, at) && c != Root && Height(c) == 1
    ensures forall q | q in at :: !Under(q, c)
  {
    hide Linked, First;
    forall q | q in at ensures !Under(q, c) {
      LinkedHere(t, at, q);
      if Under(q, c) { UnderRange(q, c); }
    }
  }

  lemma UnderAfter(t: Tree, at: Where, c: Place, s: nat)
    requires Linked(t, at) && c != Root && s <= First(c)
    ensures forall q | q in at && Under(q, c) :: s <= First(q)
  {
    hide Linked, First, Under;
    forall q | q in at && Under(q, c) ensures s <= First(q) {
      LinkedHere(t, at, q);
      UnderRange(q, c);
    }
  }

  lemma ChildDone(t: Tree, at: Where, t1: Tree, at1: Where, c: Place, s: nat, invalid: bool)
    requires Cleared(t, at, t1, at1, Max(s, First(c)), End(c)) && Linked(t1, at1) && c in at1 && c != Root
    requires (forall q | q in at1 :: !Under(q, c)) && (invalid <==> s <= First(c))
    requires c in at && forall q | q in at && Under(q, c) :: s <= First(q)
    ensures c.parent in at1 && at1[c.parent] in t1.nodes && c.slot < |t1.nodes[at1[c.parent]].nids| && at1[c.parent] != at1[c] && at1[c] in t1.nodes
    ensures if invalid then Done(t, at, Delete(t1, at1[c.parent], c.slot, at1[c]), at1 - {c}, c, s) else Done(t, at, t1, at1, c, s)
  {
    hide Linked, First, Height, Cleared, Delete, Under;
    DeleteFits(t1, at1, c);
    LinkedHere(t1, at1, c);
    if invalid {
      DeleteCleared(t, at, t1, at1, c, Max(s, First(c)), End(c));
    }
  }

  lemma IntactSelf(at: Where, c: Place, n: nat)
    requires Intact(at, c, n) && Valid(c)
    ensures c in at <==> First(c) < n
  {
  }

  lemma AlignedFirst(c: Place, start: nat, s: nat, e: nat)
    ensures Aligned(c, start, s, e) ==> First(c) == start <= e
  {
  }

  lemma LeafChildless(t: Tree, at: Where, c: Place)
    requires Linked(t, at) && c != Root && Height(c) == 1
    ensures Childless(at, c)
  {
    hide Linked, First;
    forall q | q in at && q != Root ensures q.parent != c { LinkedHere(t, at, q); }
  }

  method ProcNode(t: Tree, ghost at: Where, ghost p: Place, nid: u32, h: nat, start: nat, s: nat, e: nat)
    returns (t': Tree, ghost at': Where, ok: bool, invalid: bool)
    requires Linked(t, at) && TailZero(t, at, e + 1) && p in at && nid == at[p] && s <= e
    requires p != Root && h == Height(p) >= 2 && Intact(at, p, e + 1)
    ensures ok ==> Linked(t', at') && Local(t, at, t', at', p) && p in at' && at'[p] == at[p]
    ensures ok ==> invalid == (s <= start) && (invalid ==> Childless(at', p))
    ensures Aligned(p, start, s, e) ==> ok && Cleared(t, at, t', at', First(p), End(p)) && forall q | q in at' :: !Under(q, p)
    ensures SkipsAll(h, start, s) ==> ok && t' == t && at' == at
    decreases h, 0
  {
    hide Linked, Valid, First, Height, End, Local, Cleared, TailZero, Intact, Aligned, Rest, DoneUpTo, GoneBefore, Under, Childless;
    LinkedHere(t, at, p);
    HeightBound(p);
    IntactRest(at, p, e);
    LocalNone(t, at, p);
    DoneNone(t, at, p);
    t', at', ok := t, at, true;
    ghost var aligned := Aligned(p, start, s, e);
    NodeAligned(p, start, s, e);
    var cur, i := start, 0;
    StrideStep(h - 1, 0);
    assert GoneBefore(at', p, 0) by { NothingBefore(at', p); }
    while i < NIDS_PER_BLOCK
      invariant 0 <= i <= 1020 && Linked(t', at') && Local(t, at, t', at', p) && p in at' && at'[p] == nid
      invariant Rest(at', p, i, e) && start <= cur
      invariant s <= start ==> GoneBefore(at', p, i)
      invariant aligned ==> cur == First(p) + Stride(h - 1, i) && DoneUpTo(t, at, t', at', p, i)
      invariant SkipsAll(h, start, s) ==> t' == t && at' == at && cur == start
    {
      var end := cur + Stride(h - 1, 1) - 1;
      ChildRange(p, i);
      if end < s {
        RestSkip(at', p, i, e);
        i := i + 1;
        continue;
      }
      SlotTells(t', at', p, i);
      if cur > e {
        if t'.nodes[nid].nids[i] != INVALID {
          RestExists(at', p, i, e);
          return t', at', false, false;
        }
        break;
      }
      RestIntact(at', p, i, e);
      TailKept(t, at, t', at', p, e + 1);
      ghost var t1, at1 := t', at';
      if aligned { ChildAligned(p, i, cur, s, e); }
      t', at', ok := ProcChild(t', at', p, nid, i, h - 1, cur, s, e);
      if !ok {
        return t', at', false, false;
      }
      LoopStep(t, at, t1, at1, t', at', p, i, e);
      if s <= start { GoneStep(t1, at1, t', at', p, i); }
      if aligned { DoneStep(t, at, t1, at1, t', at', p, i, s); }
      StrideStep(h - 1, i);
      cur := cur + Stride(h - 1, 1);
      i := i + 1;
    }
    invalid := start >= s;
    if invalid { NoChildLeft(t', at', p, i, e); }
    if aligned { DoneAll(t, at, t', at', p, i, e); }
  }

  lemma NothingBefore(at: Where, p: Place)
    ensures GoneBefore(at, p, 0)
  {
  }

  lemma NodeAligned(p: Place, start: nat, s: nat, e: nat)
    requires Height(p) >= 2
    ensures Aligned(p, start, s, e) ==> start == First(p) && s <= First(p) <= e
  {
  }

  lemma ChildAligned(p: Place, i: nat, cur: nat, s: nat, e: nat)
    requires Valid(p) && p != Root && Height(p) >= 2 && i < 1020 && s <= First(p) && cur == First(p) + Stride(Height(p) - 1, i) <= e
    ensures Aligned(Child(p, i), cur, s, e)
  {
    hide First, Height, Valid;
    ChildRange(p, i);
    EndBound(Child(p, i));
  }

  /** A child that exists begins inside the file. */
  lemma RestExists(at: Where, p: Place, i: nat, e: nat)
    requires Rest(at, p, i, e) && Valid(p) && p != Root && Height(p) >= 2 && i < 1020 && Child(p, i) in at
    ensures First(p) + Stride(Height(p) - 1, i) <= e
  {
    hide First, Height, Under, Valid, Rest, Stride;
    ChildRange(p, i);
    DirectlyUnder(p, i);
    RestAt(at, p, i, e, Child(p, i));
  }

  lemma LoopStep(t0: Tree, at0: Where, t: Tree, at: Where, t': Tree, at': Where, p: Place, i: nat, e: nat)
    requires Local(t0, at0, t, at, p) && Rest(at, p, i, e) && Local(t, at, t', at', Child(p, i)) && p in at
    requires Valid(p) && p != Root && Height(p) >= 2 && i < 1020
    ensures Local(t0, at0, t', at', p) && Rest(at', p, i + 1, e) && p in at' && at'[p] == at[p]
  {
    hide First, Height, Rest, Valid, Addr;
    RestStep(t, at, t', at', p, i, e);
    LocalUp(t, at, t', at', p, i);
    LocalTrans(t0, at0, t, at, t', at', p);
    NotWithinChild(p, i);
  }

  lemma NotWithinChild(p: Place, i: nat)
    ensures !Within(p, Child(p, i))
  {
    if Within(p, Child(p, i)) { UnderSize(p, Child(p, i)); }
  }

  lemma {:induction false} UnderSize(q: Place, p: Place)
    requires Within(q, p)
    ensures Depth(q) >= Depth(p)
  {
    if q != p && q.parent != p { UnderSize(q.parent, p); }
  }

  function Depth(p: Place): nat { match p case Root => 0 case Child(q, _) => Depth(q) + 1 }

  lemma GoneStep(t: Tree, at: Where, t': Tree, at': Where, p: Place, i: nat)
    requires GoneBefore(at, p, i) && Local(t, at, t', at', Child(p, i)) && Child(p, i) !in at'
    ensures GoneBefore(at', p, i + 1)
  {
    hide Addr, First, Within;
  }
}
