/** Freeing blocks from the end of a file, slot by slot of the inode. */
module FreeBlocks {
  import opened Bytes
  import opened NodePath
  import opened Places
  import opened FileTree
  import opened FileFree
  import opened FileFreeTree

  /** The last block that the first node behind the inode manages. */
  const BOUND := 1951

  /** One node of nodes behind the inode's own addresses, where the lagging running start believes it ends. */
  const SKIPPED := 1041331

  /** There is something to free: a mapped block in [s, e], or a node that begins in it. */
  ghost predicate ToFree(t: Tree, at: Where, s: nat, e: nat) {
    (exists b :: s <= b <= e && Addr(t, at, b) != INVALID) || (exists p :: p in at && s <= First(p))
  }

  /** Beyond the bound the code gets to its end without failing, having skipped everything. */
  predicate Harmless(s: nat) { 2972 < s <= SKIPPED || 2083772 < s }

  /** The file was cut down to `s` blocks: nodes, addresses and the addresses given up are all right. */
  ghost predicate Freed(t: Tree, at: Where, t': Tree, at': Where, s: nat, e: nat) {
    && File(t', at', s)
    && (forall b | 0 <= b < s :: Addr(t', at', b) == Addr(t, at, b))
    && t'.invalidated == t.invalidated + Mapped(t, at, s, e + 1)
  }

  /** Below the inode's slots from `i` on nothing has happened yet. */
  ghost predicate TopRest(at: Where, i: nat, e: nat) {
    forall q | Valid(q) && q != Root && Base(i) <= First(q) :: q in at <==> First(q) <= e
  }

  /** Up to block `c` everything from `s` on is gone. */
  ghost predicate TopDone(t0: Tree, at0: Where, t: Tree, at: Where, s: nat, c: nat) {
    && Cleared(t0, at0, t, at, s, Max(s, c))
    && forall q | Valid(q) && q != Root && First(q) < c :: q in at <==> q in at0 && First(q) < s
  }

  /** The running start when `s` is beyond the bound: it lags behind. */
  function Lagging(i: nat, s: nat): nat {
    if i <= 2 || s > SKIPPED then 932 else if i == 3 then 1041332 else 2081732
  }

  /** The last node below the inode's third slot; it begins at block 1042352. */
  const DEEP := Child(Child(Root, 2), 1019)

  /** Beyond the bound: nothing happened, or a node that begins behind `s` is still there. */
  ghost predicate Left(t0: Tree, at0: Where, t: Tree, at: Where, s: nat, e: nat) {
    (t == t0 && at == at0) || (s <= SKIPPED && 1043372 <= e && DEEP in at)
  }

  ghost predicate TopInv(t0: Tree, at0: Where, t: Tree, at: Where, i: nat, cur: nat, s: nat, e: nat) {
    && Linked(t, at) && TailZero(t, at, e + 1) && t.ino == t0.ino && Ids(t) == Ids(t0) && TopRest(at, i, e)
    && (s <= BOUND ==> cur == Base(i) && TopDone(t0, at0, t, at, s, Base(i)))
    && (s > BOUND ==> (i < 5 ==> cur == Lagging(i, s)) && Addr(t, at, s) == Addr(t0, at0, s) && Left(t0, at0, t, at, s, e))
  }

  ghost predicate Outcome(t0: Tree, at0: Where, t: Tree, at: Where, s: nat, e: nat) {
    Ids(t) == Ids(t0) && t.ino == t0.ino &&
    if s <= BOUND then Freed(t0, at0, t, at, s, e) else Addr(t, at, s) == Addr(t0, at0, s) && Left(t0, at0, t, at, s, e)
  }

  // ----- one slot -----

  lemma TopIntact(at: Where, i: nat, e: nat)
    requires TopRest(at, i, e) && i < 5
    ensures Intact(at, Child(Root, i), e + 1)
  {
    hide First, Valid;
    TopRange(i);
    forall q | Valid(q) && Within(q, Child(Root, i)) ensures q in at <==> First(q) < e + 1 {
      WithinUp(q, Root, i);
      WithinRange(q, Child(Root, i));
    }
  }

  lemma TopRestStep(t: Tree, at: Where, t': Tree, at': Where, i: nat, e: nat)
    requires TopRest(at, i, e) && i < 5 && Local(t, at, t', at', Child(Root, i))
    ensures TopRest(at', i + 1, e)
  {
    hide First, Valid, Within, Local;
    BaseGrows(i);
    forall q | Valid(q) && q != Root && Base(i + 1) <= First(q) ensures q in at' <==> First(q) <= e {
      TopByRange(q, i);
      LocalSame(t, at, t', at', Child(Root, i), q);
    }
  }

  lemma BaseGrows(i: nat)
    requires i < 5
    ensures Base(i) < Base(i + 1)
  {
  }

  lemma TopDoneStep(t0: Tree, at0: Where, t: Tree, at: Where, t': Tree, at': Where, i: nat, s: nat, e: nat)
    requires TopDone(t0, at0, t, at, s, Base(i)) && i < 5 && Local(t, at, t', at', Child(Root, i))
    requires Done(t, at, t', at', Child(Root, i), s) && s < Base(i + 1)
    requires TopRest(at, i, e) && Sized(at0, e + 1)
    ensures TopDone(t0, at0, t', at', s, Base(i + 1))
  {
    hide First, Valid, Within, Local, Cleared;
    TopRange(i);
    BaseGrows(i);
    ClearedTrans(t0, at0, t, at, t', at', s, Max(s, Base(i)), Base(i + 1));
    forall q | Valid(q) && q != Root && First(q) < Base(i + 1) ensures q in at' <==> q in at0 && First(q) < s {
      TopByRange(q, i);
      LocalSame(t, at, t', at', Child(Root, i), q);
    }
  }

  lemma TopSkip(at: Where, i: nat, e: nat)
    requires TopRest(at, i, e) && i < 5
    ensures TopRest(at, i + 1, e)
  {
    hide First, Valid;
    BaseGrows(i);
  }

  /** With the running start behind everything in the file, the work is done. */
  lemma Finished(t0: Tree, at0: Where, t: Tree, at: Where, i: nat, s: nat, e: nat)
    requires TopDone(t0, at0, t, at, s, Base(i)) && TopRest(at, i, e) && Linked(t, at) && i <= 5
    requires File(t0, at0, e + 1) && s <= e && (e < Base(i) || i == 5)
    ensures Freed(t0, at0, t, at, s, e)
  {
    hide First, Valid, Linked, Addr, Base, Mapped;
    var c := Base(i);
    assert e < c by { BaseLast(i, e); }
    MappedNone(t0, at0, e + 1, c);
    MappedSplit(t0, at0, s, e + 1, c);
    assert Root in at by { RootHere(t, at); }
  }

  lemma BaseLast(i: nat, e: nat)
    requires e < Base(i) || (i == 5 && e < MAX_BLKNO_LIMIT)
    ensures e < Base(i)
  {
  }

  lemma RootHere(t: Tree, at: Where)
    requires Linked(t, at)
    ensures Root in at && at[Root] == t.ino
  {
  }

  /** What one processed slot does to the state, whether or not the running start is right. */
  lemma TopStep(t0: Tree, at0: Where, t: Tree, at: Where, t': Tree, at': Where, i: nat, cur: nat, s: nat, e: nat)
    requires TopInv(t0, at0, t, at, i, cur, s, e) && i < 5 && Sized(at0, e + 1) && s <= e
    requires Linked(t', at') && Local(t, at, t', at', Child(Root, i))
    requires Aligned(Child(Root, i), cur, s, e) ==> Done(t, at, t', at', Child(Root, i), s)
    requires SkipsAll(Height(Child(Root, i)), cur, s) ==> t' == t && at' == at
    requires First(Child(Root, i)) <= e
    requires cur <= e && (i < 4 ==> s <= cur + Stride(Height(Child(Root, i)), 1) - 1)
    ensures TopInv(t0, at0, t', at', i + 1, cur + Stride(Height(Child(Root, i)), 1), s, e)
  {
    hide Linked, Local, Addr, Done, TopRest, TopDone, TailZero, Sized, Left;
    TopRestStep(t, at, t', at', i, e);
    TailKept(t, at, t', at', Child(Root, i), e + 1);
    assert t'.ino == t.ino && Ids(t') == Ids(t) by { LocalIno(t, at, t', at', Child(Root, i)); }
    if s <= BOUND {
      TopRange(i);
      assert Aligned(Child(Root, i), cur, s, e);
      TopDoneStep(t0, at0, t, at, t', at', i, s, e);
    } else if i >= 3 && s <= SKIPPED {
      LocalAddr(t, at, t', at', Child(Root, i), s);
      DeepStays(t0, at0, t, at, t', at', i, s, e);
    }
  }

  lemma DeepStays(t0: Tree, at0: Where, t: Tree, at: Where, t': Tree, at': Where, i: nat, s: nat, e: nat)
    requires Left(t0, at0, t, at, s, e) && 3 <= i < 5 && First(Child(Root, i)) <= e && Sized(at0, e + 1) && s <= SKIPPED
    requires Local(t, at, t', at', Child(Root, i))
    ensures Left(t0, at0, t', at', s, e)
  {
    hide Local, Within;
    DeepIs();
    TopRange(i);
    TopByRange(DEEP, i);
    LocalSame(t, at, t', at', Child(Root, i), DEEP);
  }

  lemma DeepIs()
    ensures Valid(DEEP) && First(DEEP) == 1042352
  {
    ChildRange(Child(Root, 2), 1019);
  }

  lemma LocalIno(t: Tree, at: Where, t': Tree, at': Where, c: Place)
    requires Local(t, at, t', at', c)
    ensures t'.ino == t.ino && Ids(t') == Ids(t)
  {
  }

  lemma LocalAddr(t: Tree, at: Where, t': Tree, at': Where, c: Place, b: nat)
    requires Local(t, at, t', at', c) && b < First(c)
    ensures Addr(t', at', b) == Addr(t, at, b)
  {
    hide Addr, First, Within;
  }

  lemma TopSkipStep(t0: Tree, at0: Where, t: Tree, at: Where, i: nat, cur: nat, s: nat, e: nat)
    requires TopInv(t0, at0, t, at, i, cur, s, e) && i < 4 && cur + Stride(Height(Child(Root, i)), 1) - 1 < s
    ensures TopInv(t0, at0, t, at, i + 1, cur, s, e)
  {
    hide Linked, Addr, TopRest, TopDone, TailZero, Left;
    TopSkip(at, i, e);
  }

  lemma TopStop(t0: Tree, at0: Where, t: Tree, at: Where, i: nat, cur: nat, s: nat, e: nat)
    requires TopInv(t0, at0, t, at, i, cur, s, e) && i <= 5 && File(t0, at0, e + 1) && s <= e && (cur > e || i == 5)
    ensures Outcome(t0, at0, t, at, s, e)
  {
    hide Linked, Addr, TopRest, TopDone, TailZero, Freed;
    if s <= BOUND { Finished(t0, at0, t, at, i, s, e); }
  }

  // ----- the whole procedure -----

  /** The addresses in the inode itself. */
  method ProcInode(t: Tree, ghost at: Where, s: nat, e: nat) returns (t': Tree)
    requires File(t, at, e + 1) && s <= e
    ensures TopInv(t, at, t', at, 0, Base(0), s, e)
  {
    hide Linked, Addr, TopRest, TailZero, Sized, Cleared;
    RootHere(t, at);
    StartRest(t, at, e);
    t' := t;
    ClearedNone(t, at, s, s);
    if s <= ADDRS_PER_INODE - 1 {
      t' := ClearRange(t, at, Root, t.ino, s, Min(ADDRS_PER_INODE - 1, e));
      InodeCleared(t, at, t', s, e);
    }
    StartDone(t, at, t', s, e);
  }

  lemma StartRest(t: Tree, at: Where, e: nat)
    requires File(t, at, e + 1)
    ensures TopRest(at, 0, e)
  {
    hide First, Valid;
  }

  lemma InodeCleared(t: Tree, at: Where, t': Tree, s: nat, e: nat)
    requires File(t, at, e + 1) && s <= e && s <= 931 && Cleared(t, at, t', at, First(Root) + s, First(Root) + Min(931, e) + 1)
    ensures Cleared(t, at, t', at, s, 932)
  {
    hide Linked, Addr, Sized, Cleared;
    if e < 931 { ClearedWiden(t, at, t', at, s, e + 1, 932); }
  }

  lemma StartDone(t: Tree, at: Where, t': Tree, s: nat, e: nat)
    requires File(t, at, e + 1) && s <= e && Cleared(t, at, t', at, s, Max(s, 932))
    ensures TopDone(t, at, t', at, s, 932) && TailZero(t', at, e + 1) && (s > BOUND ==> Addr(t', at, s) == Addr(t, at, s))
  {
    hide Linked, Addr, Sized, First, Valid, Mapped;
    forall q | Valid(q) && q != Root ensures First(q) >= 932 { EndBound(q); }
  }

  /** The slots [i, to) of the inode, all of height `h`. A slot that ends before `s` is skipped. */
  method ProcSlots(ghost t0: Tree, ghost at0: Where, t: Tree, ghost at: Where, from: nat, to: nat, h: nat, start: nat, s: nat, e: nat)
    returns (t': Tree, ghost at': Where, cur: nat, ok: bool, finished: bool)
    requires File(t0, at0, e + 1) && s <= e && TopInv(t0, at0, t, at, from, start, s, e) && from <= to <= 4
    requires forall i | from <= i < to :: Height(Child(Root, i)) == h
    ensures s <= BOUND ==> ok
    ensures ok && finished ==> Outcome(t0, at0, t', at', s, e)
    ensures ok && !finished ==> TopInv(t0, at0, t', at', to, cur, s, e)
    ensures BOUND < s && !ok ==> to > 2 && s <= SKIPPED && (e < 2972 || SKIPPED < e)
    ensures BOUND < s && finished ==> to > 2 && s <= SKIPPED
    ensures BOUND < s <= SKIPPED && ok && from <= 2 && 3 < to ==> 2972 <= e && (finished || SKIPPED < e)
  {
    hide TopInv, Outcome, File, Linked, Local, TailZero, Intact, Aligned, Done, Height, Stride, SkipsAll;
    t', at', cur, ok, finished := t, at, start, true, false;
    var i := from;
    while i < to
      invariant from <= i <= to && ok && !finished && TopInv(t0, at0, t', at', i, cur, s, e)
      invariant BOUND < s <= SKIPPED && from <= 2 < i ==> 2972 <= e
      invariant BOUND < s <= SKIPPED && from <= 2 && 3 < i ==> SKIPPED < e
    {
      SlotLags(t0, at0, t', at', i, h, cur, s, e);
      var end := cur + Stride(h, 1) - 1;
      if end < s {
        TopSkipStep(t0, at0, t', at', i, cur, s, e);
        i := i + 1;
        continue;
      }
      if cur > e {
        TopStop(t0, at0, t', at', i, cur, s, e);
        finished := true;
        return;
      }
      t', at', ok := ProcSlot(t0, at0, t', at', i, h, cur, s, e);
      if !ok {
        return;
      }
      cur := cur + Stride(h, 1);
      i := i + 1;
    }
  }

  method ProcSlot(ghost t0: Tree, ghost at0: Where, t: Tree, ghost at: Where, i: nat, h: nat, cur: nat, s: nat, e: nat)
    returns (t': Tree, ghost at': Where, ok: bool)
    requires File(t0, at0, e + 1) && s <= e && TopInv(t0, at0, t, at, i, cur, s, e) && i < 5 && h == Height(Child(Root, i))
    requires cur <= e && (i < 4 ==> s <= cur + Stride(h, 1) - 1)
    ensures s <= BOUND ==> ok
    ensures ok ==> Base(i) <= e
    ensures SkipsAll(h, cur, s) ==> (ok <==> Base(i) <= e)
    ensures ok ==> TopInv(t0, at0, t', at', i + 1, cur + Stride(h, 1), s, e)
  {
    hide TopInv, File, Linked, Local, TailZero, Intact, Aligned, Done, Height, Stride, SkipsAll, TopRest;
    SlotReady(t0, at0, t, at, i, cur, s, e);
    t', at', ok := ProcChild(t, at, Root, t.ino, i, h, cur, s, e);
    if ok {
      TopStep(t0, at0, t, at, t', at', i, cur, s, e);
    }
  }

  lemma SlotReady(t0: Tree, at0: Where, t: Tree, at: Where, i: nat, cur: nat, s: nat, e: nat)
    requires File(t0, at0, e + 1) && s <= e && TopInv(t0, at0, t, at, i, cur, s, e) && i < 5 && cur <= e
    ensures Linked(t, at) && TailZero(t, at, e + 1) && Root in at && at[Root] == t.ino && Sized(at0, e + 1)
    ensures Valid(Child(Root, i)) && Intact(at, Child(Root, i), e + 1)
    ensures Child(Root, i) in at <==> Base(i) <= e
    ensures First(Child(Root, i)) == Base(i)
    ensures s <= BOUND ==> Aligned(Child(Root, i), cur, s, e)
  {
    hide Linked, Addr, TopRest, TopDone, TailZero, Intact, Left;
    RootHere(t, at);
    TopIntact(at, i, e);
    TopRange(i);
    IntactSelf(at, Child(Root, i), e + 1);
  }

  /** Beyond the bound the first two slots are always skipped, the next two when `s` is far enough. */
  lemma SlotLags(t0: Tree, at0: Where, t: Tree, at: Where, i: nat, h: nat, cur: nat, s: nat, e: nat)
    requires TopInv(t0, at0, t, at, i, cur, s, e) && i < 5 && h == Height(Child(Root, i))
    ensures BOUND < s && i < 4 ==> (cur + Stride(h, 1) - 1 < s <==> i < 2 || s > SKIPPED)
    ensures BOUND < s && i == 3 && s <= SKIPPED ==> cur == SKIPPED + 1
    ensures BOUND < s && (i == 2 || (i == 4 && s > SKIPPED)) ==> cur == 932 && SkipsAll(h, cur, s)
  {
    hide Linked, Addr, TopRest, TopDone, TailZero, Left;
  }

  /**
   Frees the blocks [s, e] at the end of a file. This is done right, every mapped block given up
   once, exactly when `s` is not beyond the bound, or there was nothing to free and the code happens
   to get through by skipping everything. Beyond the bound block `s` always keeps its address.
   */
  method FreeBlocksInRange(t: Tree, ghost at: Where, s: nat, e: nat) returns (t': Tree, ghost at': Where, ok: bool)
    requires File(t, at, e + 1) && s <= e
    ensures ok && Freed(t, at, t', at', s, e) <==> s <= BOUND || (!ToFree(t, at, s, e) && Harmless(s))
    ensures ok ==> Ids(t') == Ids(t) && t'.ino == t.ino
    ensures ok && s > BOUND ==> Addr(t', at', s) == Addr(t, at, s)
  {
    hide TopInv, Outcome, File, Freed, Height, Stride, Addr, Ids, ToFree, SkipsAll, First;
    OutcomeMeans(t, at, s, e);
    assert Height(Child(Root, 0)) == Height(Child(Root, 1)) == 1 && Height(Child(Root, 2)) == Height(Child(Root, 3)) == 2
        && Height(Child(Root, 4)) == 3 by { SlotHeights(); }
    if s > BOUND && !ToFree(t, at, s, e) { NothingMeans(t, at, s, e); }
    t' := ProcInode(t, at, s, e);
    at' := at;
    var cur, finished := ADDRS_PER_INODE, false;
    t', at', cur, ok, finished := ProcSlots(t, at, t', at', 0, 2, 1, cur, s, e);
    if !ok || finished {
      return;
    }
    t', at', cur, ok, finished := ProcSlots(t, at, t', at', 2, 4, 2, cur, s, e);
    if !ok || finished {
      return;
    }
    if cur > e {
      TopStop(t, at, t', at', 4, cur, s, e);
      SlotLags(t, at, t', at', 4, 3, cur, s, e);
      return;
    }
    SlotLags(t, at, t', at', 4, 3, cur, s, e);
    t', at', ok := ProcSlot(t, at, t', at', 4, 3, cur, s, e);
    if ok {
      TopStop(t, at, t', at', 5, cur + Stride(3, 1), s, e);
    }
  }

  /** With nothing to free, no node begins in [s, e]. */
  lemma NothingMeans(t: Tree, at: Where, s: nat, e: nat)
    requires File(t, at, e + 1) && BOUND < s <= e && !ToFree(t, at, s, e)
    ensures 2972 <= e ==> 2972 < s
    ensures 2083772 <= e ==> 2083772 < s
    ensures s <= SKIPPED ==> e <= SKIPPED
  {
    hide Linked, Addr, TailZero;
    TopRange(2);
    TopRange(4);
    ChildRange(Child(Root, 2), 1018);
    assert First(Child(Child(Root, 2), 1018)) == 1041332;
  }

  lemma SlotHeights()
    ensures Height(Child(Root, 0)) == 1 && Height(Child(Root, 1)) == 1 && Height(Child(Root, 2)) == 2 && Height(Child(Root, 3)) == 2
    ensures Height(Child(Root, 4)) == 3
  {
  }

  lemma OutcomeMeans(t: Tree, at: Where, s: nat, e: nat)
    requires File(t, at, e + 1) && s <= e
    ensures forall t', at' :: Outcome(t, at, t', at', s, e) ==>
              && Ids(t') == Ids(t) && t'.ino == t.ino
              && (s <= BOUND ==> Freed(t, at, t', at', s, e))
              && (s > BOUND ==> Addr(t', at', s) == Addr(t, at, s))
              && (s > BOUND && (s <= SKIPPED ==> e <= SKIPPED) && !ToFree(t, at, s, e) ==> Freed(t, at, t', at', s, e))
              && (s > BOUND && ToFree(t, at, s, e) ==> !Freed(t, at, t', at', s, e))
  {
    hide Linked, Addr, Mapped, Freed, ToFree, Left;
    forall t', at' | Outcome(t, at, t', at', s, e) && s > BOUND
      ensures (s <= SKIPPED ==> e <= SKIPPED) && !ToFree(t, at, s, e) ==> Freed(t, at, t', at', s, e)
      ensures ToFree(t, at, s, e) ==> !Freed(t, at, t', at', s, e)
    {
      LeftMeans(t, at, t', at', s, e);
    }
  }

  lemma LeftMeans(t: Tree, at: Where, t': Tree, at': Where, s: nat, e: nat)
    requires File(t, at, e + 1) && BOUND < s <= e && Left(t, at, t', at', s, e)
    ensures ToFree(t, at, s, e) ==> !Freed(t, at, t', at', s, e)
    ensures !ToFree(t, at, s, e) && (s <= SKIPPED ==> e <= SKIPPED) ==> Freed(t, at, t', at', s, e)
  {
    hide Linked, Addr, Mapped, First;
    DeepIs();
    if ToFree(t, at, s, e) {
      if Freed(t, at, t', at', s, e) { StillThere(t, at, t', at', s, e); }
    } else if s <= SKIPPED ==> e <= SKIPPED {
      MappedNone(t, at, s, e + 1);
      NoNodeBehind(t, at, s, e);
    }
  }

  lemma StillThere(t: Tree, at: Where, t': Tree, at': Where, s: nat, e: nat)
    requires File(t, at, e + 1) && BOUND < s <= e && Left(t, at, t', at', s, e) && ToFree(t, at, s, e)
    ensures !File(t', at', s)
  {
    hide Addr, First, Linked, Valid;
    DeepIs();
    if p :| p in at && s <= First(p) {
      LinkedHere(t, at, p);
      assert p != Root by { assert First(Root) == 0 by { RootFirst(); } }
    }
  }

  lemma RootFirst()
    ensures First(Root) == 0
  {
  }

  lemma NoNodeBehind(t: Tree, at: Where, s: nat, e: nat)
    requires File(t, at, e + 1) && s <= e && !ToFree(t, at, s, e)
    ensures File(t, at, s)
  {
    hide Linked, Addr, First, Valid;
  }
}
