/**
 Coherence of the SIT cache over every interleaving of the threads: cached blocks are current,
 and a block that is read back from the SSD is not stale.
 */
module Coherence {
  import opened Wrappers
  import opened Bytes
  import opened Tables
  import opened Seqs
  import opened JournalFormat
  import opened JournalWriter
  import opened ReplaceProtect
  import Ring = JournalRing

  // ----- entries outside a block leave the block alone -----

  lemma {:induction false} PartReplay(t: Table, es: seq<Entry>, l: nat)
    requires Count(es, l) == 0
    ensures Part(ReplayTable(t, es), l) == Part(t, l)
  {
    if es != [] {
      PartReplay(t, es[..|es| - 1], l);
    }
  }

  lemma {:induction false} PartReplayAll(m: Metadata, ts: seq<TxJournal>, l: nat)
    requires CountAll(ts, l) == 0
    ensures Part(ReplayAll(m, ts).sits, l) == Part(m.sits, l)
  {
    hide Part, ReplayTable, Count;
    if ts != [] {
      var init := ts[..|ts| - 1];
      PartReplayAll(m, init, l);
      PartReplay(ReplayAll(m, init).sits, ts[|ts| - 1].journal.sits, l);
    }
  }

  lemma PartReplayItems(m: Metadata, items: seq<Item>, l: nat)
    requires Count(Project(Sits, items), l) == 0
    ensures Part(Replay(m, items).sits, l) == Part(m.sits, l)
  {
    hide Part, ReplayTable, Count, Replay, Project;
    ReplayByKind(m, items, Sits);
    PartReplay(m.sits, Project(Sits, items), l);
  }

  // ----- blocks of unreported journals touch only pinned SIT blocks -----

  /** The SIT entries that a ring block carries. */
  function SitsIn(b: Ring.Block): seq<Entry> {
    Project(Sits, BlockItems(b))
  }

  lemma {:induction false} CountItemsOf(bs: seq<Ring.Block>, l: nat)
    requires forall i | 0 <= i < |bs| :: Count(SitsIn(bs[i]), l) == 0
    ensures Count(Project(Sits, ItemsOf(bs)), l) == 0
  {
    hide Count, Project, BlockItems, ItemsOf;
    if bs == [] {
      ItemsOfNone();
      CountEmpty(l);
    } else {
      var init, last := bs[..|bs| - 1], bs[|bs| - 1];
      CountItemsOf(init, l);
      assert bs == init + [last];
      ItemsOfConcat(init, [last]);
      ItemsOfOne(last);
      ProjectConcat(Sits, ItemsOf(init), BlockItems(last));
      CountConcat(Project(Sits, ItemsOf(init)), SitsIn(last), l);
    }
  }

  lemma ItemsOfNone()
    ensures ItemsOf([]) == [] && Project(Sits, []) == []
  {
  }

  lemma CountBlockBelow(bs: seq<Ring.Block>, i: nat, l: nat)
    requires i < |bs|
    ensures Count(SitsIn(bs[i]), l) <= Count(Project(Sits, ItemsOf(bs)), l)
  {
    hide Count, Project, BlockItems, ItemsOf;
    var x, y := bs[..i], bs[i + 1..];
    assert bs == x + [bs[i]] + y;
    ItemsOfConcat(x + [bs[i]], y);
    ItemsOfConcat(x, [bs[i]]);
    ItemsOfOne(bs[i]);
    ProjectConcat(Sits, ItemsOf(x) + BlockItems(bs[i]), ItemsOf(y));
    ProjectConcat(Sits, ItemsOf(x), BlockItems(bs[i]));
    CountConcat(Project(Sits, ItemsOf(x)) + SitsIn(bs[i]), Project(Sits, ItemsOf(y)), l);
    CountConcat(Project(Sits, ItemsOf(x)), SitsIn(bs[i]), l);
  }

  /** Merging adds no block: a SIT block that no raw entry touches is touched by no merged entry. */
  lemma {:induction false} CountMerged(out: seq<Entry>, es: seq<Entry>, l: nat, n: nat)
    requires Merges(out, es) && n <= |out| && Count(es, l) == 0
    ensures Count(out[..n], l) == 0
  {
    hide LastIndex;
    if n > 0 {
      CountMerged(out, es, l, n - 1);
      assert out[..n][..n - 1] == out[..n - 1];
      var i := LastIndex(es)[out[n - 1].key];
      CountPositive(es, i);
    }
  }

  lemma CountEncoded(j: Journal, bs: seq<Ring.Block>, l: nat)
    requires Encodes(j, bs) && Count(j.sits, l) == 0
    ensures Count(Project(Sits, ItemsOf(bs)), l) == 0
  {
    hide Count, Project, ItemsOf, DecodeBlock, Tag, Merges, SortedByKey;
    var s, n, p :| MergedItems(j, ItemsOf(bs), s, n, p);
    ProjectConcat(Sits, Tag(Sits, s) + Tag(Nats, n), Tag(SuperBlock, p));
    ProjectConcat(Sits, Tag(Sits, s), Tag(Nats, n));
    ProjectTag(Sits, Sits, s);
    ProjectTag(Sits, Nats, n);
    ProjectTag(Sits, SuperBlock, p);
    CountMerged(s, j.sits, l, |s|);
    assert s[..|s|] == s;
    assert s + [] + [] == s;
  }

  lemma {:induction false} RangeAround(a: Ring.Area, rs: seq<Ring.Range>, end: nat, i: nat) returns (j: nat)
    requires a.Valid() && Ring.Tiled(a, rs, end) && i < end
    ensures j < |rs| && rs[j].from <= i < rs[j].to
  {
    j := |rs| - 1;
    while i < rs[j].from
      invariant j < |rs| && i < rs[j].to
    {
      j := j - 1;
    }
  }

  /** A ring block that the SSD has not applied belongs to a journal that is still listed. */
  lemma UnappliedBlockAvoids(s: System, i: nat, l: nat)
    requires Listed(s) && Encoded(s) && CountAll(s.trpList, l) == 0
    requires |s.ring.read| <= i < |s.ring.log|
    ensures Count(SitsIn(s.ring.log[i]), l) == 0
  {
    hide Encodes, CountAll, Count, SitsIn, ItemsOf, System.Waiting, Ring.Contents;
    var j := RangeAround(s.ring.area, s.ring.ranges, |s.ring.log|, i);
    Ring.RangesBounded(s.ring.area, s.ring.ranges, |s.ring.log|, j);
    assert j >= s.ring.reported;
    var k := j - s.ring.reported;
    assert s.trpList[k] == s.logged[j];
    CountAllAt(s.trpList, k, l);
    var bs := RangeBlocks(s.ring, j);
    assert Encodes(s.logged[j].journal, bs);
    CountEncoded(s.logged[j].journal, bs, l);
    CountBlockBelow(bs, i - s.ring.ranges[j].from, l);
  }

  /** A SIT block without unreleased entries is the same on the SSD as in truth. */
  lemma UnpinnedIsCurrent(s: System, l: nat)
    requires Listed(s) && Encoded(s) && Unreleased(s, l) == 0
    ensures Part(s.Ssd().sits, l) == Part(s.Truth().sits, l)
  {
    hide Encodes, CountAll, Count, SitsIn, ItemsOf, System.Waiting, Part, Replay, ReplayAll, ReplayTable, Project, Encoded;
    var read, rest := s.ring.read, s.ring.log[|s.ring.read|..];
    assert Ring.Contents(s.ring);
    assert s.ring.log == read + rest;
    ItemsOfConcat(read, rest);
    ReplayConcat(s.base, ItemsOf(read), ItemsOf(rest));
    forall i | 0 <= i < |rest| ensures Count(SitsIn(rest[i]), l) == 0 {
      UnappliedBlockAvoids(s, |read| + i, l);
    }
    CountItemsOf(rest, l);
    PartReplayItems(s.Ssd(), ItemsOf(rest), l);
    var m := Replay(s.base, ItemsOf(s.ring.log));
    ReportedBound(s);
    CountAllConcat(s.logged[s.ring.reported..], s.Waiting(), l);
    PartReplayAll(m, s.Waiting(), l);
    PartReplay(ReplayAll(m, s.Waiting()).sits, s.curJournal.sits, l);
  }

  // ----- every action keeps the invariant -----

  lemma PartUpdate(t: Table, seg: u32, value: seq<byte>, l: nat)
    ensures Part(t[seg := value], l) == if SitBlock(seg) == l then Part(t, l)[seg := value] else Part(t, l)
  {
  }

  /** The content an action leaves in a cached block. */
  lemma CacheStep(s: System, a: Action, l: nat)
    requires Enabled(s, a) && Asserted(s, a) && l in Do(s, a).cache
    ensures
      var c := Do(s, a).cache[l].content;
      if l in s.cache then
        c == if a.Change? && SitBlock(a.seg) == l then s.cache[l].content[a.seg := a.value] else s.cache[l].content
      else
        a == Get(l) && c == Part(s.Ssd().sits, l)
  {
    hide Encodes, Part, System.Ssd, System.Waiting, Ring.Counters, Ring.Write, Ring.Observe, Ring.Pop, Ring.Apply, Ring.CanWrite, WellSized;
  }

  lemma CoherentStep(s: System, a: Action)
    requires Inv(s) && Enabled(s, a) && Asserted(s, a)
    ensures Coherent(Do(s, a))
  {
    hide Encodes, Do, Enabled, Asserted, Part, System.Truth, System.Ssd, Listed, Encoded, Numbered, Unreleased;
    TruthStep(s, a);
    forall l | l in Do(s, a).cache ensures Do(s, a).cache[l].content == Part(Do(s, a).Truth().sits, l) {
      CacheStep(s, a, l);
      if l !in s.cache {
        UnpinnedIsCurrent(s, l);
      } else if a.Change? {
        PartUpdate(s.Truth().sits, a.seg, a.value, l);
      }
    }
  }

  lemma InvStep(s: System, a: Action)
    requires Inv(s) && Enabled(s, a)
    ensures Asserted(s, a) && Inv(Do(s, a))
  {
    hide Encodes, Do, Enabled, Asserted, Listed, Numbered, Counted, Coherent;
    AssertedHolds(s, a);
    ListedStep(s, a);
    EncodedStep(s, a);
    NumberedStep(s, a);
    CountedStep(s, a);
    CoherentStep(s, a);
  }

  // ----- runs -----

  /** A freshly mounted file system: nothing cached, nothing journalled. */
  function Mounted(area: Ring.Area, mem: map<nat, Ring.Block>, base: Metadata): System
    requires area.Valid()
  {
    System(map[], multiset{}, EMPTY, 0, None, [], [], None, None, Ring.Init(area, mem), [], base, [], {}, [], Idle)
  }

  lemma MountedInv(area: Ring.Area, mem: map<nat, Ring.Block>, base: Metadata)
    requires area.Valid()
    ensures Inv(Mounted(area, mem, base))
  {
    Ring.InitInv(area, mem);
  }

  /** The state after any interleaving of actions; an action whose guard is false does not happen. */
  ghost function Exec(s: System, acts: seq<Action>): (s': System)
    requires Inv(s)
    ensures Inv(s')
  {
    if acts == [] then s
    else
      var p := Exec(s, acts[..|acts| - 1]);
      var a := acts[|acts| - 1];
      if Enabled(p, a) then InvStep(p, a); Do(p, a) else p
  }

  /**
   In every interleaving: a cached SIT block is the SSD's block with all unapplied journals replayed,
   its count is its live handles plus its unreleased entries, and a block that is not cached has none
   and is current on the SSD, so reading it back is never stale. The protection list is exactly the
   unreported journals in commit order, and no assertion of the code can fail in the next action.
   */
  lemma EveryRunIsCoherent(area: Ring.Area, mem: map<nat, Ring.Block>, base: Metadata, acts: seq<Action>)
    requires area.Valid()
    ensures Inv(Mounted(area, mem, base))
    ensures
      var s := Exec(Mounted(area, mem, base), acts);
      && (forall l | l in s.cache ::
            && s.cache[l].content == Part(s.Truth().sits, l)
            && s.cache[l].refCount == s.handles[l] + Unreleased(s, l))
      && (forall l | l !in s.cache ::
            Unreleased(s, l) == 0 && Part(s.Ssd().sits, l) == Part(s.Truth().sits, l))
      && s.ring.reported <= |s.logged|
      && s.trpList == s.logged[s.ring.reported..] + s.Waiting()
      && (forall a | Enabled(s, a) :: Asserted(s, a))
  {
    hide Encodes, Part, System.Truth, System.Ssd, Unreleased, Numbered, Enabled, Asserted;
    MountedInv(area, mem, base);
    var s := Exec(Mounted(area, mem, base), acts);
    forall l | l !in s.cache ensures Unreleased(s, l) == 0 && Part(s.Ssd().sits, l) == Part(s.Truth().sits, l) {
      UnpinnedIsCurrent(s, l);
    }
    forall a | Enabled(s, a) ensures Asserted(s, a) {
      AssertedHolds(s, a);
    }
    ReportedBound(s);
  }

  /** Truth is what it is called: the SSD's tables with everything not yet applied replayed in order. */
  lemma TruthIsSsdPlusUnapplied(s: System)
    requires Listed(s)
    ensures s.ring.read <= s.ring.log
    ensures s.Truth() ==
            RawReplay(ReplayAll(Replay(s.Ssd(), ItemsOf(s.ring.log[|s.ring.read|..])), s.Waiting()), s.curJournal)
  {
    hide ItemsOf, Replay, ReplayAll, RawReplay, System.Waiting;
    var read, rest := s.ring.read, s.ring.log[|s.ring.read|..];
    assert Ring.Contents(s.ring);
    assert s.ring.log == read + rest;
    ItemsOfConcat(read, rest);
    ReplayConcat(s.base, ItemsOf(read), ItemsOf(rest));
  }

  // ----- waiting for the protect tasks -----

  /** The list alone: when it is empty, every committed journal is on the ring and the SSD has applied all of it. */
  lemma EmptyListIsApplied(s: System)
    requires Inv(s) && s.trpList == []
    ensures s.Waiting() == [] && s.ring.reported == |s.logged| && s.ring.read == s.ring.log
    ensures s.Truth() == RawReplay(s.Ssd(), s.curJournal)
  {
    hide Encodes, Count, CountAll, Part, System.Waiting, Coherent, Counted, Encoded, Numbered;
    ReportedBound(s);
    assert s.logged[s.ring.reported..] == [] && s.Waiting() == [];
    if s.ring.ranges != [] {
      var j := |s.ring.ranges| - 1;
      assert s.ring.ranges[j].to <= s.ring.observed;
    }
    assert s.ring.read == s.ring.log;
  }

  /**
   When both conditions of the wait hold, nothing is missed: every committed journal was applied by
   the SSD and released, no task is queued or running, and only the entries of the journal that is
   still being collected pin SIT blocks.
   */
  lemma WaitMissesNothing(s: System, l: nat)
    requires Inv(s) && s.trpList == [] && s.processing == {}
    ensures s.Waiting() == [] && s.ring.reported == |s.logged|
    ensures s.ring.read == s.ring.log
    ensures s.tasks == [] && s.posting == None && s.server == Idle
    ensures Unreleased(s, l) == Count(s.curJournal.sits, l)
  {
    hide Encodes, Count, CountAll, Part, System.Truth, System.Waiting, Coherent, Counted, Encoded;
    EmptyListIsApplied(s);
    NothingInProcess(s);
    CountEmpty(l);
  }

  lemma NothingInProcess(s: System)
    requires Numbered(s) && s.processing == {}
    ensures InProcess(s) == []
  {
    hide InProcess, Increasing;
    var p := InProcess(s);
    if p != [] {
      HasElement(p);
    }
  }

  /** Once the list is empty it stays so as long as nobody adds a transaction. */
  lemma {:induction false} ListStaysEmpty(s: System, acts: seq<Action>)
    requires Inv(s) && s.trpList == [] && AddTx !in acts
    ensures Exec(s, acts).trpList == []
  {
    hide Encodes, Do, Enabled, Asserted, Listed, Numbered, Counted, Coherent, Encoded;
    if acts != [] {
      var init, a := acts[..|acts| - 1], acts[|acts| - 1];
      ListStaysEmpty(s, init);
      var p := Exec(s, init);
      if Enabled(p, a) {
        AssertedHolds(p, a);
        Frame(p, a);
        if a == Notify {
          NotifyNeedsList(p);
        }
      }
    }
  }

  lemma NotifyNeedsList(s: System)
    requires Enabled(s, Notify) && Asserted(s, Notify)
    ensures s.trpList != []
  {
  }

  /**
   The wait: it sees the list empty in `s`, then the processing set empty in a later state. If no
   transaction was added meanwhile, every transaction committed before is applied and released then.
   */
  lemma WaitIsSound(s: System, acts: seq<Action>, l: nat)
    requires Inv(s) && s.trpList == [] && AddTx !in acts
    requires Exec(s, acts).processing == {}
    ensures
      var s' := Exec(s, acts);
      && s'.trpList == [] && s'.Waiting() == [] && s'.tasks == [] && s'.posting == None && s'.server == Idle
      && s'.ring.read == s'.ring.log
      && Unreleased(s', l) == Count(s'.curJournal.sits, l)
  {
    hide Encodes, Listed, Numbered, Counted, Coherent, Encoded, Exec, Unreleased, Count, System.Waiting;
    ListStaysEmpty(s, acts);
    WaitMissesNothing(Exec(s, acts), l);
  }

  // ----- the one writer outside the protocol -----

  /** Linking a full segment into a list: the SIT entry changes and is journalled, but no version is added. */
  function AddSegToList(s: System, seg: u32, value: seq<byte>): System
    requires SitBlock(seg) in s.cache
  {
    var l := SitBlock(seg);
    s.(cache := s.cache[l := s.cache[l].(content := s.cache[l].content[seg := value])],
       curJournal := s.curJournal.(sits := s.curJournal.sits + [Entry(seg, value)]))
  }

  /** It always breaks the count: the block is left with one more unreleased entry than its count shows. */
  lemma AddSegToListBreaksCount(s: System, seg: u32, value: seq<byte>)
    requires Counted(s) && SitBlock(seg) in s.cache
    ensures
      var s', l := AddSegToList(s, seg, value), SitBlock(seg);
      s'.cache[l].refCount + 1 == s'.handles[l] + Unreleased(s', l)
    ensures !Counted(AddSegToList(s, seg, value))
  {
    hide Count, CountAll;
    var s', l, e := AddSegToList(s, seg, value), SitBlock(seg), Entry(seg, value);
    CountConcat(s.curJournal.sits, [e], l);
    CountHead([e], l);
    assert [e][1..] == [];
    CountEmpty(l);
    assert s.cache[l].refCount == s.handles[l] + Unreleased(s, l);
  }

  /** So a run exists in which the block is evicted while its change is unapplied, and read back stale. */
  lemma AddSegToListReadsStale(area: Ring.Area, value: seq<byte>) returns (s1: System, s2: System, s: System)
    requires area.Valid() && |value| == 68
    ensures
      var m := Mounted(area, map[], Metadata(map[], map[], map[]));
      && s1 == Do(m, Get(0))
      && 0 in s1.cache && Enabled(AddSegToList(s1, 0, value), Drop(0)) && Asserted(AddSegToList(s1, 0, value), Drop(0))
      && s2 == Do(AddSegToList(s1, 0, value), Drop(0))
      && Enabled(s2, Evict(0)) && Enabled(Do(s2, Evict(0)), Get(0))
      && s == Do(Do(s2, Evict(0)), Get(0))
    ensures 0 in s.cache && s.cache[0].content != Part(s.Truth().sits, 0)
  {
    hide Encodes, System.Truth, ItemsOf, Part;
    var m := Mounted(area, map[], Metadata(map[], map[], map[]));
    assert Part(m.Ssd().sits, 0) == map[] by { SsdOfNothing(m); }
    s1 := Do(m, Get(0));
    var x := AddSegToList(s1, 0, value);
    s2 := Do(x, Drop(0));
    s := Do(Do(s2, Evict(0)), Get(0));
    assert s.cache[0].content == map[] by { SsdOfNothing(s); }
    TruthOfOneEntry(s, Entry(0, value));
  }

  lemma SsdOfNothing(s: System)
    requires s.ring.read == [] && s.base == Metadata(map[], map[], map[])
    ensures Part(s.Ssd().sits, 0) == map[]
  {
    ItemsOfNone();
  }

  lemma TruthOfOneEntry(s: System, e: Entry)
    requires s.ring.log == [] && s.base == Metadata(map[], map[], map[]) && s.Waiting() == []
    requires s.curJournal == Journal([e], [], []) && e.key == 0
    ensures 0 in Part(s.Truth().sits, 0)
  {
    ItemsOfNone();
    assert [e][..0] == [];
  }
}
