/**
 The NAT cache's side of replacement protection: the same protocol with the references to NAT
 blocks added. Each NAT entry that is journalled adds one under a live handle, and the protect task
 gives one back per entry before it turns to the SIT entries.
 */
module NatCounts {
  import opened Bytes
  import opened Tables
  import opened Wrappers
  import opened JournalWriter
  import RP = ReplaceProtect
  import Coherence
  import Ring = JournalRing

  type TxJournal = RP.TxJournal

  /** The NAT blocks of a journal's NAT entries, one per entry. */
  function NatBlocks(es: seq<Entry>): seq<nat> { seq(|es|, i requires 0 <= i < |es| => NatBlock(es[i].key)) }

  /** The same for several transactions together. */
  function AllBlocks(ts: seq<TxJournal>): multiset<nat> {
    if ts == [] then multiset{} else AllBlocks(ts[..|ts| - 1]) + multiset(NatBlocks(ts[|ts| - 1].journal.nats))
  }

  /** The protocol, the counts of the cached NAT blocks, the live NAT handles, and what the running task has still to give back. */
  datatype State = State(sys: RP.System, counts: map<nat, nat>, handles: multiset<nat>, rest: seq<Entry>)

  datatype Step = Sys(act: RP.Action) | Get(l: nat) | Drop(l: nat) | Note(entry: Entry) | Evict(l: nat) | Release

  /** The task gives back its NAT references first. */
  ghost predicate Enabled(c: State, st: Step) {
    match st
    case Sys(a) => RP.Enabled(c.sys, a) && !(a.Note? && a.kind == Nats) && (c.rest != [] ==> !a.Release? && !a.Mark?)
    case Get(l) => true
    case Drop(l) => l in c.handles
    case Note(e) => NatBlock(e.key) in c.handles && RP.Enabled(c.sys, RP.Note(Nats, e))
    case Evict(l) => l in c.counts && c.counts[l] == 0
    case Release => c.rest != []
  }

  ghost predicate Asserted(c: State, st: Step)
    requires Enabled(c, st)
  {
    match st
    case Sys(a) => RP.Asserted(c.sys, a)
    case Drop(l) => l in c.counts && c.counts[l] > 0
    case Note(e) => NatBlock(e.key) in c.counts && RP.Asserted(c.sys, RP.Note(Nats, e))
    case Release => var l := NatBlock(c.rest[0].key); l in c.counts && c.counts[l] > 0
    case _ => true
  }

  ghost function Do(c: State, st: Step): State
    requires Enabled(c, st) && Asserted(c, st)
  {
    match st
    case Sys(a) =>
      c.(sys := RP.Do(c.sys, a), rest := if a == RP.Start then c.sys.tasks[0].journal.nats else c.rest)
    case Get(l) =>
      c.(counts := c.counts[l := (if l in c.counts then c.counts[l] else 0) + 1], handles := c.handles + multiset{l})
    case Drop(l) => c.(counts := c.counts[l := c.counts[l] - 1], handles := c.handles - multiset{l})
    case Note(e) =>
      var l := NatBlock(e.key);
      c.(sys := RP.Do(c.sys, RP.Note(Nats, e)), counts := c.counts[l := c.counts[l] + 1])
    case Evict(l) => c.(counts := c.counts - {l})
    case Release =>
      var l := NatBlock(c.rest[0].key);
      c.(counts := c.counts[l := c.counts[l] - 1], rest := c.rest[1..])
  }

  // ----- the invariant -----

  /** Journalled entries of a NAT block whose reference has not been given back. */
  function Owed(c: State, l: nat): nat {
    multiset(NatBlocks(c.rest))[l] + AllBlocks(c.sys.tasks)[l] + AllBlocks(RP.AsSeq(c.sys.posting))[l] + AllBlocks(c.sys.trpList)[l]
    + multiset(NatBlocks(c.sys.curJournal.nats))[l]
  }

  function CountOf(c: State, l: nat): nat { if l in c.counts then c.counts[l] else 0 }

  /** A cached block's count is its handles plus what is owed; an uncached block has neither. */
  ghost predicate Counted(c: State) {
    forall l: nat :: CountOf(c, l) == c.handles[l] + Owed(c, l)
  }

  ghost predicate Inv(c: State) {
    RP.Inv(c.sys) && Counted(c) && (c.rest != [] ==> !c.sys.server.Idle?)
  }

  // ----- what is owed -----

  lemma {:induction false} AllBlocksConcat(xs: seq<TxJournal>, ys: seq<TxJournal>)
    ensures AllBlocks(xs + ys) == AllBlocks(xs) + AllBlocks(ys)
    decreases |ys|
  {
    hide NatBlocks;
    if ys == [] {
      assert xs + ys == xs;
    } else {
      var init, t := ys[..|ys| - 1], multiset(NatBlocks(ys[|ys| - 1].journal.nats));
      AllBlocksConcat(xs, init);
      assert (xs + ys)[..|xs + ys| - 1] == xs + init;
      assert AllBlocks(xs + ys) == AllBlocks(xs + init) + t;
    }
  }

  lemma AllBlocksOne(t: TxJournal)
    ensures AllBlocks([t]) == multiset(NatBlocks(t.journal.nats)) && AllBlocks([]) == multiset{}
  {
    assert [t][..0] == [];
  }

  lemma AllBlocksHead(ts: seq<TxJournal>)
    requires ts != []
    ensures AllBlocks(ts) == multiset(NatBlocks(ts[0].journal.nats)) + AllBlocks(ts[1..])
  {
    assert ts == [ts[0]] + ts[1..];
    AllBlocksConcat([ts[0]], ts[1..]);
    AllBlocksOne(ts[0]);
  }

  lemma NatBlocksSplit(es: seq<Entry>, fs: seq<Entry>)
    ensures NatBlocks(es + fs) == NatBlocks(es) + NatBlocks(fs)
  {
  }

  /** The actions of the protocol move journals along without changing what is owed. */
  lemma OwedKept(c: State, a: RP.Action, l: nat)
    requires Enabled(c, Sys(a)) && Asserted(c, Sys(a)) && (c.rest != [] ==> !c.sys.server.Idle?)
    ensures Owed(Do(c, Sys(a)), l) == Owed(c, l)
  {
    hide RP.Do, RP.Enabled, RP.Asserted, AllBlocks, NatBlocks, RP.AsSeq;
    RP.Frame(c.sys, a);
    match a {
      case AddTx => AddTxMoves(c.sys, l);
      case Notify => NotifyMoves(c.sys, l);
      case Post => PostMoves(c.sys, l);
      case Start =>
        StartMoves(c.sys);
        AllBlocksHead(c.sys.tasks);
        NoBlocks();
      case Change(seg, value) => ChangeMoves(c.sys, seg, value);
      case Note(kind, e) => NoteMoves(c.sys, kind, e);
      case _ =>
    }
  }

  lemma NoBlocks()
    ensures NatBlocks([]) == []
  {
  }

  lemma AddTxMoves(s: RP.System, l: nat)
    requires RP.Enabled(s, RP.AddTx) && RP.Asserted(s, RP.AddTx)
    ensures
      var s' := RP.Do(s, RP.AddTx);
      AllBlocks(s'.trpList)[l] + multiset(NatBlocks(s'.curJournal.nats))[l] == AllBlocks(s.trpList)[l] + multiset(NatBlocks(s.curJournal.nats))[l]
  {
    var t := RP.TxJournal(s.nextTx, s.curJournal);
    AllBlocksConcat(s.trpList, [t]);
    AllBlocksOne(t);
    NoBlocks();
  }

  lemma NotifyMoves(s: RP.System, l: nat)
    requires RP.Enabled(s, RP.Notify) && RP.Asserted(s, RP.Notify)
    ensures
      var s' := RP.Do(s, RP.Notify);
      AllBlocks(s'.trpList)[l] + AllBlocks(RP.AsSeq(s'.posting))[l] == AllBlocks(s.trpList)[l] + AllBlocks(RP.AsSeq(s.posting))[l]
  {
    AllBlocksHead(s.trpList);
    AllBlocksOne(s.trpList[0]);
  }

  lemma PostMoves(s: RP.System, l: nat)
    requires RP.Enabled(s, RP.Post)
    ensures
      var s' := RP.Do(s, RP.Post);
      AllBlocks(s'.tasks)[l] + AllBlocks(RP.AsSeq(s'.posting))[l] == AllBlocks(s.tasks)[l] + AllBlocks(RP.AsSeq(s.posting))[l]
  {
    AllBlocksConcat(s.tasks, [s.posting.value]);
    AllBlocksOne(s.posting.value);
  }

  lemma StartMoves(s: RP.System)
    requires RP.Enabled(s, RP.Start)
    ensures s.server.Idle? && s.tasks != [] && RP.Do(s, RP.Start).tasks == s.tasks[1..]
  {
  }

  lemma ChangeMoves(s: RP.System, seg: u32, value: seq<byte>)
    requires RP.Enabled(s, RP.Change(seg, value)) && RP.Asserted(s, RP.Change(seg, value))
    ensures RP.Do(s, RP.Change(seg, value)).curJournal.nats == s.curJournal.nats
  {
  }

  lemma NoteMoves(s: RP.System, kind: Kind, e: Entry)
    requires RP.Enabled(s, RP.Note(kind, e))
    ensures RP.Do(s, RP.Note(kind, e)).curJournal.nats == if kind == Nats then s.curJournal.nats + [e] else s.curJournal.nats
  {
  }

  /** Journalling a NAT entry owes one more reference, and nothing else changes. */
  lemma OwedMore(c: State, e: Entry, l: nat)
    requires Enabled(c, Note(e)) && Asserted(c, Note(e))
    ensures Owed(Do(c, Note(e)), l) == Owed(c, l) + if l == NatBlock(e.key) then 1 else 0
  {
    hide RP.Do, RP.Enabled, RP.Asserted, AllBlocks, NatBlocks, RP.AsSeq;
    RP.Frame(c.sys, RP.Note(Nats, e));
    NoteMoves(c.sys, Nats, e);
    NatBlocksSplit(c.sys.curJournal.nats, [e]);
    OneBlock(e);
  }

  lemma OneBlock(e: Entry)
    ensures NatBlocks([e]) == [NatBlock(e.key)]
  {
  }

  lemma RestHead(es: seq<Entry>)
    requires es != []
    ensures multiset(NatBlocks(es)) == multiset{NatBlock(es[0].key)} + multiset(NatBlocks(es[1..]))
  {
    assert es == [es[0]] + es[1..];
    NatBlocksSplit([es[0]], es[1..]);
    OneBlock(es[0]);
  }

  // ----- every step -----

  lemma CountedMeans(c: State, l: nat)
    requires Counted(c)
    ensures c.handles[l] + Owed(c, l) > 0 ==> l in c.counts && c.counts[l] == c.handles[l] + Owed(c, l)
  {
    hide Owed;
    assert CountOf(c, l) == c.handles[l] + Owed(c, l);
  }

  /** No assertion on the NAT cache fails either: a counted block is cached, and no count underflows. */
  lemma AssertedHolds(c: State, st: Step)
    requires Inv(c) && Enabled(c, st)
    ensures Asserted(c, st)
  {
    hide RP.Inv, Counted, RP.Asserted, RP.Enabled, AllBlocks, NatBlocks;
    match st {
      case Sys(a) => RP.AssertedHolds(c.sys, a);
      case Drop(l) => CountedMeans(c, l);
      case Note(e) =>
        CountedMeans(c, NatBlock(e.key));
        RP.AssertedHolds(c.sys, RP.Note(Nats, e));
      case Release =>
        RestHead(c.rest);
        CountedMeans(c, NatBlock(c.rest[0].key));
      case _ =>
    }
  }

  lemma CountedStep(c: State, st: Step)
    requires Inv(c) && Enabled(c, st) && Asserted(c, st)
    ensures Counted(Do(c, st))
  {
    hide RP.Inv, RP.Asserted, RP.Enabled, RP.Do, Owed;
    var c' := Do(c, st);
    forall l: nat ensures CountOf(c', l) == c'.handles[l] + Owed(c', l) {
      assert CountOf(c, l) == c.handles[l] + Owed(c, l);
      match st {
        case Sys(a) => OwedKept(c, a, l);
        case Note(e) => OwedMore(c, e, l);
        case Release => OwedLess(c, l);
        case _ => OwedSame(c, c', l);
      }
    }
  }

  lemma OwedSame(c: State, c': State, l: nat)
    requires c'.sys == c.sys && c'.rest == c.rest
    ensures Owed(c', l) == Owed(c, l)
  {
  }

  lemma OwedLess(c: State, l: nat)
    requires Enabled(c, Release) && Asserted(c, Release)
    ensures Owed(c, l) == Owed(Do(c, Release), l) + if l == NatBlock(c.rest[0].key) then 1 else 0
  {
    hide AllBlocks, NatBlocks;
    RestHead(c.rest);
  }

  lemma InvStep(c: State, st: Step)
    requires Inv(c) && Enabled(c, st)
    ensures Asserted(c, st) && Inv(Do(c, st))
  {
    hide RP.Inv, RP.Asserted, RP.Enabled, RP.Do, Counted;
    AssertedHolds(c, st);
    CountedStep(c, st);
    match st {
      case Sys(a) => Coherence.InvStep(c.sys, a); ServerStep(c.sys, a);
      case Note(e) => Coherence.InvStep(c.sys, RP.Note(Nats, e)); ServerStep(c.sys, RP.Note(Nats, e));
      case _ =>
    }
  }

  /** Only the mark ends a task; a started task is never idle. */
  lemma ServerStep(s: RP.System, a: RP.Action)
    requires RP.Enabled(s, a) && RP.Asserted(s, a)
    ensures a == RP.Start ==> !RP.Do(s, a).server.Idle?
    ensures !s.server.Idle? && !a.Mark? && !a.Release? ==> !RP.Do(s, a).server.Idle?
  {
    RP.Frame(s, a);
  }

  // ----- runs -----

  function Mounted(area: Ring.Area, mem: map<nat, Ring.Block>, base: Metadata): State
    requires area.Valid()
  {
    State(Coherence.Mounted(area, mem, base), map[], multiset{}, [])
  }

  ghost function Exec(c: State, steps: seq<Step>): (c': State)
    requires Inv(c)
    ensures Inv(c')
  {
    if steps == [] then c
    else
      var p := Exec(c, steps[..|steps| - 1]);
      var st := steps[|steps| - 1];
      if Enabled(p, st) then InvStep(p, st); Do(p, st) else p
  }

  /**
   In every interleaving, now with NAT entries as well: a NAT block's count is its live handles plus
   the journalled entries not given back, so a block with any of them is cached and cannot be
   evicted, no assertion fails, and everything proved of the protocol still holds.
   */
  lemma EveryRunCounts(area: Ring.Area, mem: map<nat, Ring.Block>, base: Metadata, steps: seq<Step>)
    requires area.Valid()
    ensures Inv(Mounted(area, mem, base))
    ensures
      var c := Exec(Mounted(area, mem, base), steps);
      && RP.Inv(c.sys)
      && (forall l | l in c.counts :: c.counts[l] == c.handles[l] + Owed(c, l))
      && (forall l: nat | l !in c.counts :: c.handles[l] == 0 && Owed(c, l) == 0)
      && (forall st | Enabled(c, st) :: Asserted(c, st))
  {
    hide RP.Inv, Owed, Enabled, Asserted;
    MountedInv(area, mem, base);
    var c := Exec(Mounted(area, mem, base), steps);
    forall l: nat ensures CountOf(c, l) == c.handles[l] + Owed(c, l) { }
    forall st | Enabled(c, st) ensures Asserted(c, st) { AssertedHolds(c, st); }
  }

  lemma MountedInv(area: Ring.Area, mem: map<nat, Ring.Block>, base: Metadata)
    requires area.Valid()
    ensures Inv(Mounted(area, mem, base))
  {
    hide RP.Inv;
    Coherence.MountedInv(area, mem, base);
    NoBlocks();
  }

  /** When the wait for all protect tasks ends, only the journal still being collected pins NAT blocks. */
  lemma WaitMissesNothing(c: State, l: nat)
    requires Inv(c) && c.sys.trpList == [] && c.sys.processing == {}
    ensures Owed(c, l) == multiset(NatBlocks(c.sys.curJournal.nats))[l]
  {
    hide Counted, NatBlocks, RP.Inv;
    Coherence.WaitMissesNothing(c.sys, l);
    NoBlocks();
  }
}
