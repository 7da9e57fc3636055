/**
 Replacement protection. Three threads share the SIT cache: user threads change SIT blocks and
 commit journals, the journal thread writes journals to the ring and learns what the SSD applied,
 and the server thread releases the cache blocks of applied transactions. The SSD applies ring
 blocks at its own pace. Each action below is what one thread does in one critical section.
 */
module ReplaceProtect {
  import opened Wrappers
  import opened Bytes
  import opened Tables
  import opened Seqs
  import opened JournalFormat
  import opened JournalWriter
  import Ring = JournalRing

  /** The entries of one SIT block. */
  function Part(t: Table, l: nat): Table {
    map k | k in t && SitBlock(k) == l :: t[k]
  }

  datatype TxJournal = TxJournal(tx: nat, journal: Journal)

  function AsSeq<T>(o: Option<T>): seq<T> {
    match o case None => [] case Some(v) => [v]
  }

  /** A cached SIT block: its content, and live handles plus unreleased journal entries. */
  datatype CacheEntry = CacheEntry(content: Table, refCount: nat)

  /** The journal thread's current journal and the blocks it was collected into. */
  datatype Loaded = Loaded(txj: TxJournal, blocks: seq<Ring.Block>)

  /** The server thread: idle, releasing a transaction's remaining SIT entries, or about to mark it. */
  datatype Server = Idle | Releasing(tx: nat, rest: seq<Entry>) | Marking(tx: nat)

  datatype System = System(
    // SIT cache and user threads
    cache: map<nat, CacheEntry>,
    handles: multiset<nat>,
    curJournal: Journal,
    nextTx: nat,
    adding: Option<TxJournal>,      // added to trpList, not yet committed
    // journal thread
    commitQueue: seq<TxJournal>,
    pending: seq<TxJournal>,
    loaded: Option<Loaded>,
    posting: Option<TxJournal>,     // taken from trpList, task not yet posted
    ring: Ring.Ring,
    logged: seq<TxJournal>,         // the journals behind the ring's ranges
    base: Metadata,                 // what the SSD held before the first journal
    // replace_protect_manager and server thread
    trpList: seq<TxJournal>,
    processing: set<nat>,
    tasks: seq<TxJournal>,
    server: Server)
  {
    /** The SSD's tables: everything it has read from the ring, decoded and applied. */
    function Ssd(): Metadata { Replay(base, ItemsOf(ring.read)) }

    /** Committed journals that are not on the ring yet, oldest first. */
    function Waiting(): seq<TxJournal> {
      (match loaded case None => [] case Some(l) => [l.txj]) + pending + commitQueue + AsSeq(adding)
    }

    /** The SSD's tables with every journal it has not applied replayed on top. */
    function Truth(): Metadata {
      RawReplay(ReplayAll(Replay(base, ItemsOf(ring.log)), Waiting()), curJournal)
    }
  }

  function ReplayAll(m: Metadata, ts: seq<TxJournal>): Metadata {
    if ts == [] then m else RawReplay(ReplayAll(m, ts[..|ts| - 1]), ts[|ts| - 1].journal)
  }

  /** How many of the entries lie in SIT block `l`. */
  function Count(es: seq<Entry>, l: nat): nat {
    if es == [] then 0
    else Count(es[..|es| - 1], l) + if SitBlock(es[|es| - 1].key) == l then 1 else 0
  }

  function CountAll(ts: seq<TxJournal>, l: nat): nat {
    if ts == [] then 0
    else CountAll(ts[..|ts| - 1], l) + Count(ts[|ts| - 1].journal.sits, l)
  }

  /** Journal entries of SIT block `l` that no protect task has released. */
  function Unreleased(s: System, l: nat): nat {
    (match s.server case Releasing(_, rest) => Count(rest, l) case _ => 0)
    + CountAll(s.tasks, l) + CountAll(AsSeq(s.posting), l)
    + CountAll(s.trpList, l) + Count(s.curJournal.sits, l)
  }

  const EMPTY := Journal([], [], [])

  // ----- actions -----

  datatype Action =
    // user threads, under fs_meta_lock
    | Get(l: nat)
    | Drop(l: nat)
    | Change(seg: u32, value: seq<byte>)
    | Note(kind: Kind, entry: Entry)
    | Evict(l: nat)
    | AddTx
    | Commit
    // journal thread
    | Fetch
    | Load(blocks: seq<Ring.Block>)
    | WriteOut
    | Observe
    | Notify
    | Post
    // SSD
    | SsdApply
    // server thread
    | Start
    | Release
    | Mark

  /** The guard of an action: when its thread gets to do it. */
  ghost predicate Enabled(s: System, a: Action) {
    match a
    case Get(l) => true
    case Drop(l) => l in s.handles
    case Change(seg, value) => SitBlock(seg) in s.handles && |value| == 68
    case Note(kind, e) => kind != Sits && WellSized(kind, [e])
    case Evict(l) => l in s.cache && s.cache[l].refCount == 0
    case AddTx => s.adding.None? && s.curJournal != EMPTY
    case Commit => s.adding.Some?
    case Fetch => true
    case Load(bs) => s.loaded.None? && s.pending != [] && Encodes(s.pending[0].journal, bs)
    case WriteOut => s.loaded.Some? && Ring.CanWrite(s.ring.host, |s.loaded.value.blocks|)
    case Observe => true
    case Notify =>
      && s.posting.None? && s.ring.host.records != []
      && s.ring.host.records[0].IsApplied(s.ring.host.head, s.ring.host.tail)
    case Post => s.posting.Some?
    case SsdApply => s.ring.Applied() < |s.ring.log|
    case Start => s.server.Idle? && s.tasks != []
    case Release => s.server.Releasing? && s.server.rest != []
    case Mark => s.server.Marking?
  }

  /** What the code asserts, or relies on without a test, when it performs an action. */
  ghost predicate Asserted(s: System, a: Action)
    requires Enabled(s, a)
  {
    match a
    case Drop(l) => l in s.cache && s.cache[l].refCount > 0
    case Change(seg, _) => SitBlock(seg) in s.cache
    case Notify =>
      // the list is not empty, its front is the completed transaction, which is not being processed
      && s.trpList != []
      && s.trpList[0].tx == s.ring.host.records[0].tx
      && s.trpList[0].tx !in s.processing
    case WriteOut => Ring.Counters(s.ring) && s.loaded.value.txj in s.trpList
    case Observe => Ring.Counters(s.ring)
    case SsdApply => s.ring.area.Valid() && s.ring.area.start <= s.ring.ssdHead < s.ring.area.end && s.ring.ssdHead in s.ring.mem
    case Release =>
      // the block is cached, so no stale copy is read back, and its count does not underflow
      var l := SitBlock(s.server.rest[0].key);
      l in s.cache && s.cache[l].refCount > 0
    case Mark => s.server.tx in s.processing
    case _ => true
  }

  function AfterRest(tx: nat, rest: seq<Entry>): Server {
    if rest == [] then Marking(tx) else Releasing(tx, rest)
  }

  function Pinned(c: map<nat, CacheEntry>, l: nat, delta: int): map<nat, CacheEntry>
    requires l in c && c[l].refCount + delta >= 0
  {
    c[l := c[l].(refCount := c[l].refCount + delta)]
  }

  /** The state after an action. */
  ghost function Do(s: System, a: Action): System
    requires Enabled(s, a) && Asserted(s, a)
  {
    match a
    case Get(l) =>
      // a miss reads the block from the SSD
      var cache := if l in s.cache then s.cache else s.cache[l := CacheEntry(Part(s.Ssd().sits, l), 0)];
      s.(cache := Pinned(cache, l, 1), handles := s.handles + multiset{l})
    case Drop(l) =>
      s.(cache := Pinned(s.cache, l, -1), handles := s.handles - multiset{l})
    case Change(seg, value) =>
      var l := SitBlock(seg);
      var e := s.cache[l];
      s.(cache := s.cache[l := CacheEntry(e.content[seg := value], e.refCount + 1)],
         curJournal := s.curJournal.(sits := s.curJournal.sits + [Entry(seg, value)]))
    case Note(kind, e) =>
      s.(curJournal := if kind == Nats then s.curJournal.(nats := s.curJournal.nats + [e])
                       else s.curJournal.(super := s.curJournal.super + [e]))
    case Evict(l) => s.(cache := s.cache - {l})
    case AddTx =>
      var t := TxJournal(s.nextTx, s.curJournal);
      s.(curJournal := EMPTY, nextTx := s.nextTx + 1, adding := Some(t), trpList := s.trpList + [t])
    case Commit => s.(commitQueue := s.commitQueue + [s.adding.value], adding := None)
    case Fetch => s.(pending := s.pending + s.commitQueue, commitQueue := [])
    case Load(bs) => s.(loaded := Some(Loaded(s.pending[0], bs)), pending := s.pending[1..])
    case WriteOut =>
      var l := s.loaded.value;
      s.(ring := Ring.Write(s.ring, l.txj.tx, l.blocks), logged := s.logged + [l.txj], loaded := None)
    case Observe => s.(ring := Ring.Observe(s.ring))
    case Notify =>
      var t := s.trpList[0];
      s.(ring := Ring.Pop(s.ring, 1), trpList := s.trpList[1..], processing := s.processing + {t.tx},
         posting := Some(t))
    case Post => s.(tasks := s.tasks + [s.posting.value], posting := None)
    case SsdApply => s.(ring := Ring.Apply(s.ring))
    case Start =>
      var t := s.tasks[0];
      s.(tasks := s.tasks[1..], server := AfterRest(t.tx, t.journal.sits))
    case Release =>
      var r := s.server;
      s.(cache := Pinned(s.cache, SitBlock(r.rest[0].key), -1), server := AfterRest(r.tx, r.rest[1..]))
    case Mark => s.(processing := s.processing - {s.server.tx}, server := Idle)
  }

  // ----- the invariant -----

  /** trpList is, in order, the unreported journals on the ring and everything still on its way there. */
  ghost predicate Listed(s: System) {
    && Ring.Inv(s.ring)
    && |s.logged| == |s.ring.ranges|
    && (forall i | 0 <= i < |s.logged| :: s.logged[i].tx == s.ring.ranges[i].tx)
    && s.trpList == s.logged[s.ring.reported..] + s.Waiting()
  }

  function RangeBlocks(r: Ring.Ring, i: nat): seq<Ring.Block>
    requires i < |r.ranges|
  {
    var g := r.ranges[i];
    if g.from <= g.to <= |r.log| then r.log[g.from..g.to] else []
  }

  /** What lies on the ring, or is about to, encodes the journals it belongs to. */
  ghost predicate Encoded(s: System)
    requires |s.logged| == |s.ring.ranges|
  {
    && (forall i | 0 <= i < |s.logged| :: Encodes(s.logged[i].journal, RangeBlocks(s.ring, i)))
    && (s.loaded.Some? ==> Encodes(s.loaded.value.txj.journal, s.loaded.value.blocks))
  }

  function Ids(ts: seq<TxJournal>): seq<nat> {
    seq(|ts|, i requires 0 <= i < |ts| => ts[i].tx)
  }

  /** Transactions between notification and the end of their protect task. */
  function InProcess(s: System): seq<nat> {
    (match s.server case Idle => [] case Releasing(tx, _) => [tx] case Marking(tx) => [tx])
    + Ids(s.tasks) + Ids(AsSeq(s.posting))
  }

  ghost predicate Increasing(ids: seq<nat>, bound: nat) {
    && (forall i, j | 0 <= i < j < |ids| :: ids[i] < ids[j])
    && (forall i | 0 <= i < |ids| :: ids[i] < bound)
  }

  ghost predicate Numbered(s: System) {
    && Increasing(InProcess(s) + Ids(s.trpList), s.nextTx)
    && (forall x :: x in s.processing <==> x in InProcess(s))
  }

  /** A cached block's count is its handles plus its unreleased entries; an uncached block has neither. */
  ghost predicate Counted(s: System) {
    && (forall l | l in s.cache :: s.cache[l].refCount == s.handles[l] + Unreleased(s, l))
    && (forall l | l !in s.cache :: s.handles[l] == 0 && Unreleased(s, l) == 0)
  }

  /** A cached block is the SSD's block with every unapplied journal replayed. */
  ghost predicate Coherent(s: System) {
    forall l | l in s.cache :: s.cache[l].content == Part(s.Truth().sits, l)
  }

  ghost predicate Inv(s: System) {
    Listed(s) && Encoded(s) && Numbered(s) && Counted(s) && Coherent(s)
  }

  // ----- counting -----

  lemma {:induction false} CountConcat(xs: seq<Entry>, ys: seq<Entry>, l: nat)
    ensures Count(xs + ys, l) == Count(xs, l) + Count(ys, l)
    decreases |ys|
  {
    if ys == [] {
      assert xs + ys == xs;
    } else {
      CountConcat(xs, ys[..|ys| - 1], l);
      assert (xs + ys)[..|xs + ys| - 1] == xs + ys[..|ys| - 1];
    }
  }

  lemma CountHead(es: seq<Entry>, l: nat)
    requires es != []
    ensures Count(es, l) == Count(es[1..], l) + if SitBlock(es[0].key) == l then 1 else 0
  {
    CountConcat([es[0]], es[1..], l);
    assert [es[0]] + es[1..] == es;
    assert [es[0]][..0] == [];
  }

  lemma {:induction false} CountPositive(es: seq<Entry>, i: nat)
    requires i < |es|
    ensures Count(es, SitBlock(es[i].key)) > 0
  {
    CountConcat(es[..i], es[i..], SitBlock(es[i].key));
    assert es == es[..i] + es[i..];
    CountHead(es[i..], SitBlock(es[i].key));
  }

  lemma {:induction false} CountAllConcat(xs: seq<TxJournal>, ys: seq<TxJournal>, l: nat)
    ensures CountAll(xs + ys, l) == CountAll(xs, l) + CountAll(ys, l)
    decreases |ys|
  {
    if ys == [] {
      assert xs + ys == xs;
    } else {
      CountAllConcat(xs, ys[..|ys| - 1], l);
      assert (xs + ys)[..|xs + ys| - 1] == xs + ys[..|ys| - 1];
    }
  }

  lemma CountAllOne(t: TxJournal, l: nat)
    ensures CountAll([t], l) == Count(t.journal.sits, l)
  {
    assert [t][..0] == [];
  }

  lemma CountAllHead(ts: seq<TxJournal>, l: nat)
    requires ts != []
    ensures CountAll(ts, l) == Count(ts[0].journal.sits, l) + CountAll(ts[1..], l)
  {
    CountAllConcat([ts[0]], ts[1..], l);
    CountAllOne(ts[0], l);
    assert [ts[0]] + ts[1..] == ts;
  }

  lemma CountAllAt(ts: seq<TxJournal>, i: nat, l: nat)
    requires i < |ts|
    ensures Count(ts[i].journal.sits, l) <= CountAll(ts, l)
  {
    CountAllConcat(ts[..i], ts[i..], l);
    assert ts == ts[..i] + ts[i..];
    CountAllHead(ts[i..], l);
  }

  /** How an action changes the number of unreleased entries of a block. */
  function Delta(s: System, a: Action, l: nat): int {
    match a
    case Change(seg, _) => if SitBlock(seg) == l then 1 else 0
    case Release =>
      if s.server.Releasing? && s.server.rest != [] && SitBlock(s.server.rest[0].key) == l then -1 else 0
    case _ => 0
  }

  lemma UnreleasedStep(s: System, a: Action, l: nat)
    requires Enabled(s, a) && Asserted(s, a)
    ensures Unreleased(Do(s, a), l) == Unreleased(s, l) + Delta(s, a, l)
  {
    hide Count, CountAll, Encodes, Part;
    match a {
      case Change(seg, value) =>
        var e := Entry(seg, value);
        CountConcat(s.curJournal.sits, [e], l);
        CountHead([e], l);
        assert [e][1..] == [];
        CountEmpty(l);
      case AddTx =>
        var t := TxJournal(s.nextTx, s.curJournal);
        CountAllConcat(s.trpList, [t], l);
        CountAllOne(t, l);
        CountEmpty(l);
      case Notify =>
        CountAllHead(s.trpList, l);
        CountAllOne(s.trpList[0], l);
        CountEmpty(l);
      case Post =>
        CountAllConcat(s.tasks, [s.posting.value], l);
        CountEmpty(l);
      case Start =>
        CountAllHead(s.tasks, l);
        CountEmpty(l);
      case Release =>
        CountHead(s.server.rest, l);
        CountEmpty(l);
      case _ =>
    }
  }

  lemma CountEmpty(l: nat)
    ensures Count([], l) == 0 && CountAll([], l) == 0
  {
  }

  lemma CountedStep(s: System, a: Action)
    requires Counted(s) && Enabled(s, a) && Asserted(s, a)
    ensures Counted(Do(s, a))
  {
    var s' := Do(s, a);
    forall l: nat
      ensures l in s'.cache ==> s'.cache[l].refCount == s'.handles[l] + Unreleased(s', l)
      ensures l !in s'.cache ==> s'.handles[l] == 0 && Unreleased(s', l) == 0
    {
      UnreleasedStep(s, a, l);
      CountedAt(s, a, l);
    }
  }

  lemma CountedAt(s: System, a: Action, l: nat)
    requires Counted(s) && Enabled(s, a) && Asserted(s, a)
    requires Unreleased(Do(s, a), l) == Unreleased(s, l) + Delta(s, a, l)
    ensures
      var s' := Do(s, a);
      && (l in s'.cache ==> s'.cache[l].refCount == s'.handles[l] + Unreleased(s', l))
      && (l !in s'.cache ==> s'.handles[l] == 0 && Unreleased(s', l) == 0)
  {
    hide Unreleased, Part, Encodes;
    assert l in s.cache ==> s.cache[l].refCount == s.handles[l] + Unreleased(s, l);
    assert l !in s.cache ==> s.handles[l] == 0 && Unreleased(s, l) == 0;
    match a {
      case Get(k) =>
      case Drop(k) =>
      case Change(seg, value) =>
      case Note(kind, e) =>
      case Evict(k) =>
      case Release =>
      case _ =>
    }
  }

  // ----- lists and numbers -----

  lemma WaitingStep(s: System, a: Action)
    requires Enabled(s, a) && Asserted(s, a)
    ensures
      var s' := Do(s, a);
      match a
      case AddTx => s'.Waiting() == s.Waiting() + [TxJournal(s.nextTx, s.curJournal)]
      case WriteOut => s.Waiting() == [s.loaded.value.txj] + s'.Waiting()
      case _ => s'.Waiting() == s.Waiting()
  {
    hide Encodes, Part, System.Ssd;
    match a {
      case WriteOut => WaitingWriteOut(s);
      case Load(bs) => assert [s.pending[0]] + s.pending[1..] == [] + s.pending;
      case _ =>
    }
  }

  lemma WaitingWriteOut(s: System)
    requires Enabled(s, WriteOut) && Asserted(s, WriteOut)
    ensures s.Waiting() == [s.loaded.value.txj] + Do(s, WriteOut).Waiting()
  {
    hide Encodes, Part, System.Ssd;
    var rest := s.pending + s.commitQueue + AsSeq(s.adding);
    assert s.Waiting() == [s.loaded.value.txj] + rest;
    assert Do(s, WriteOut).Waiting() == rest;
  }

  lemma RingStep(s: System, a: Action)
    requires Listed(s) && Encoded(s) && Enabled(s, a) && Asserted(s, a)
    ensures Ring.Inv(Do(s, a).ring)
  {
    hide Ring.Counters, Ring.Contents, Ring.Reports, Part;
    match a {
      case WriteOut =>
        var l := s.loaded.value;
        Ring.WriteKeepsCounters(s.ring, l.txj.tx, l.blocks);
        Ring.WriteKeepsContents(s.ring, l.txj.tx, l.blocks);
        Ring.WriteKeepsReports(s.ring, l.txj.tx, l.blocks);
      case Observe => ObserveInv(s.ring);
      case Notify => NotifyInv(s.ring);
      case SsdApply => Ring.ApplyInv(s.ring);
      case _ =>
    }
  }

  lemma ObserveInv(r: Ring.Ring)
    requires Ring.Inv(r)
    ensures Ring.Inv(Ring.Observe(r))
  {
    Ring.ObserveKeepsCounters(r);
  }

  lemma NotifyInv(r: Ring.Ring)
    requires Ring.Inv(r) && r.host.records != [] && r.host.records[0].IsApplied(r.host.head, r.host.tail)
    ensures Ring.Inv(Ring.Pop(r, 1))
  {
    Ring.PopKeepsReports(r, 1);
  }

  /** Which fields an action leaves alone. */
  lemma Frame(s: System, a: Action)
    requires Enabled(s, a) && Asserted(s, a)
    ensures
      var s' := Do(s, a);
      && (!a.WriteOut? && !a.Observe? && !a.Notify? && !a.SsdApply? ==> s'.ring == s.ring)
      && (a.Observe? || a.Notify? || a.SsdApply? ==>
            s'.ring.log == s.ring.log && s'.ring.ranges == s.ring.ranges && (!a.Notify? ==> s'.ring.reported == s.ring.reported))
      && (!a.WriteOut? ==> s'.logged == s.logged)
      && (!a.Load? && !a.WriteOut? ==> s'.loaded == s.loaded)
      && (!a.AddTx? && !a.Notify? ==> s'.trpList == s.trpList)
      && (!a.AddTx? ==> s'.nextTx == s.nextTx)
      && (!a.Notify? && !a.Mark? ==> s'.processing == s.processing)
      && (!a.Notify? && !a.Post? ==> s'.posting == s.posting)
      && (!a.Post? && !a.Start? ==> s'.tasks == s.tasks)
      && (!a.Start? && !a.Release? && !a.Mark? ==> s'.server == s.server)
      && (!a.Change? && !a.Note? && !a.AddTx? ==> s'.curJournal == s.curJournal)
      && s'.base == s.base
  {
    hide Encodes, Part, System.Waiting, System.Ssd;
  }

  lemma ListedStep(s: System, a: Action)
    requires Listed(s) && Encoded(s) && Enabled(s, a) && Asserted(s, a)
    ensures Listed(Do(s, a))
  {
    hide Ring.Inv, Encodes, Do, System.Waiting;
    RingStep(s, a);
    WaitingStep(s, a);
    Frame(s, a);
    ReportedBound(s);
    var rest := s.logged[s.ring.reported..];
    match a {
      case AddTx =>
        var t := TxJournal(s.nextTx, s.curJournal);
        assert Do(s, a).trpList == s.trpList + [t] by { AddTxLists(s); }
        assert s.trpList + [t] == rest + (s.Waiting() + [t]);
      case WriteOut => ListedWriteOut(s);
      case Notify => ListedNotify(s);
      case _ =>
    }
  }

  lemma AddTxLists(s: System)
    requires Enabled(s, AddTx)
    ensures Do(s, AddTx).trpList == s.trpList + [TxJournal(s.nextTx, s.curJournal)]
    ensures Do(s, AddTx).nextTx == s.nextTx + 1
  {
  }

  lemma ListedWriteOut(s: System)
    requires Listed(s) && Encoded(s) && Enabled(s, WriteOut) && Asserted(s, WriteOut)
    ensures Listed(Do(s, WriteOut))
  {
    hide Ring.Inv, Encodes, System.Waiting, Do, Ring.Counters, Encoded, Asserted;
    RingStep(s, WriteOut);
    WaitingStep(s, WriteOut);
    WriteOutFields(s);
    ReportedBound(s);
    var s' := Do(s, WriteOut);
    forall i | 0 <= i < |s'.logged| ensures s'.logged[i].tx == s'.ring.ranges[i].tx {
      if i < |s.logged| {
        assert s.logged[i].tx == s.ring.ranges[i].tx;
      }
    }
    DropSnoc(s.logged, s.ring.reported, s.loaded.value.txj, s'.Waiting());
  }

  lemma WriteOutFields(s: System)
    requires Enabled(s, WriteOut) && Asserted(s, WriteOut)
    ensures
      var s', l := Do(s, WriteOut), s.loaded.value;
      && s'.logged == s.logged + [l.txj] && s'.trpList == s.trpList && s'.loaded == None
      && s'.ring.reported == s.ring.reported && s'.ring.read == s.ring.read
      && s'.ring.log == s.ring.log + l.blocks
      && s'.ring.ranges == s.ring.ranges + [Ring.Range(l.txj.tx, |s.ring.log|, |s.ring.log| + |l.blocks|)]
  {
    hide Encodes, Ring.WriteSlots, Ring.Written, Ring.Counters;
  }

  lemma ListedNotify(s: System)
    requires Listed(s) && Encoded(s) && Enabled(s, Notify) && Asserted(s, Notify)
    ensures Listed(Do(s, Notify))
  {
    hide Ring.Inv, Encodes, System.Waiting;
    RingStep(s, Notify);
    WaitingStep(s, Notify);
    ReportedBound(s);
    var rest := s.logged[s.ring.reported..];
    assert s.trpList[1..] == rest[1..] + s.Waiting();
    assert rest[1..] == s.logged[s.ring.reported + 1..];
  }

  lemma ReportedBound(s: System)
    requires Listed(s)
    ensures s.ring.reported <= |s.logged|
    ensures |s.ring.host.records| == |s.logged| - s.ring.reported
    ensures s.ring.host.records != [] ==> s.ring.host.records[0].tx == s.logged[s.ring.reported].tx
  {
    if s.ring.host.records != [] {
      assert Ring.Describes(s.ring.area, s.ring.host.records[0], s.ring.ranges[s.ring.reported + 0]);
    }
  }

  lemma NumberedStep(s: System, a: Action)
    requires Numbered(s) && Enabled(s, a) && Asserted(s, a)
    ensures Numbered(Do(s, a))
  {
    hide Increasing, Do, Enabled, Asserted;
    Frame(s, a);
    match a {
      case AddTx =>
        AddTxLists(s);
        var ids := InProcess(s) + Ids(s.trpList);
        assert InProcess(Do(s, a)) + Ids(Do(s, a).trpList) == ids + [s.nextTx];
        IncreasingSnoc(ids, s.nextTx);
      case Notify => NumberedNotify(s);
      case Post => NumberedTasks(s, a);
      case Start => NumberedTasks(s, a);
      case Release => NumberedTasks(s, a);
      case Mark => NumberedMark(s);
      case _ =>
    }
  }

  lemma NumberedTasks(s: System, a: Action)
    requires Numbered(s) && Enabled(s, a) && Asserted(s, a)
    requires a == Post || a == Start || a == Release
    ensures Numbered(Do(s, a))
  {
    hide Increasing, Encodes;
    assert InProcess(Do(s, a)) == InProcess(s);
  }

  lemma NumberedNotify(s: System)
    requires Numbered(s) && Enabled(s, Notify) && Asserted(s, Notify)
    ensures Numbered(Do(s, Notify))
  {
    hide Increasing, Encodes;
    var s' := Do(s, Notify);
    assert InProcess(s') == InProcess(s) + [s.trpList[0].tx];
    assert InProcess(s') + Ids(s'.trpList) == InProcess(s) + Ids(s.trpList);
  }

  lemma NumberedMark(s: System)
    requires Numbered(s) && Enabled(s, Mark) && Asserted(s, Mark)
    ensures Numbered(Do(s, Mark))
  {
    hide Increasing, Encodes;
    var s' := Do(s, Mark);
    var ids, ids' := InProcess(s) + Ids(s.trpList), InProcess(s') + Ids(s'.trpList);
    assert InProcess(s) == [s.server.tx] + InProcess(s');
    assert ids == [s.server.tx] + ids';
    IncreasingTail(ids, s.nextTx);
    IncreasingHead(s.server.tx, ids', InProcess(s'), s.nextTx);
  }

  lemma IncreasingSnoc(ids: seq<nat>, n: nat)
    requires Increasing(ids, n)
    ensures Increasing(ids + [n], n + 1)
  {
  }

  lemma IncreasingTail(ids: seq<nat>, n: nat)
    requires Increasing(ids, n) && ids != []
    ensures Increasing(ids[1..], n)
  {
  }

  lemma IncreasingHead(x: nat, ids: seq<nat>, front: seq<nat>, n: nat)
    requires Increasing([x] + ids, n) && front <= ids
    ensures x !in front
  {
    forall i | 0 <= i < |front| ensures front[i] != x {
      assert ([x] + ids)[0] == x && ([x] + ids)[i + 1] == front[i];
    }
  }

  // ----- what the code asserts holds -----

  lemma CountedHandle(s: System, l: nat)
    requires Counted(s) && (l in s.handles || Unreleased(s, l) > 0)
    ensures l in s.cache && s.cache[l].refCount > 0
  {
    hide Unreleased;
    if l !in s.cache {
      assert false;
    }
    assert s.cache[l].refCount == s.handles[l] + Unreleased(s, l);
  }

  lemma NotifyAsserted(s: System)
    requires Listed(s) && Numbered(s) && Enabled(s, Notify)
    ensures Asserted(s, Notify)
  {
    hide System.Waiting, Ring.Inv;
    ReportedBound(s);
    var t := s.trpList[0];
    assert t == s.logged[s.ring.reported];
    var ids, p := InProcess(s) + Ids(s.trpList), InProcess(s);
    forall i | 0 <= i < |p| ensures p[i] != t.tx {
      assert ids[i] == p[i] && ids[|p|] == t.tx;
    }
  }

  /** In every state that satisfies the invariant, no assertion fails and no count underflows. */
  lemma AssertedHolds(s: System, a: Action)
    requires Inv(s) && Enabled(s, a)
    ensures Asserted(s, a)
  {
    hide Encodes, Coherent, Counted;
    match a {
      case Drop(l) => CountedHandle(s, l);
      case Change(seg, value) => CountedHandle(s, SitBlock(seg));
      case Notify => NotifyAsserted(s);
      case WriteOut => assert s.Waiting()[0] == s.loaded.value.txj;
      case SsdApply => Ring.ApplyInv(s.ring);
      case Release =>
        CountPositive(s.server.rest, 0);
        CountedHandle(s, SitBlock(s.server.rest[0].key));
      case Mark => assert InProcess(s)[0] == s.server.tx;
      case _ =>
    }
  }

  // ----- what is on the ring encodes the journals -----

  lemma EncodedStep(s: System, a: Action)
    requires Listed(s) && Encoded(s) && Enabled(s, a) && Asserted(s, a)
    ensures |Do(s, a).logged| == |Do(s, a).ring.ranges| && Encoded(Do(s, a))
  {
    hide Encodes, Do, Ring.Inv, System.Waiting;
    Frame(s, a);
    match a {
      case WriteOut => EncodedWriteOut(s);
      case Load(bs) => assert Do(s, a).loaded == Some(Loaded(s.pending[0], bs)) by { LoadFields(s, bs); }
      case _ =>
    }
    if !a.WriteOut? {
      forall i | 0 <= i < |s.logged| ensures RangeBlocks(Do(s, a).ring, i) == RangeBlocks(s.ring, i) {
      }
    }
  }

  lemma LoadFields(s: System, bs: seq<Ring.Block>)
    requires Enabled(s, Load(bs))
    ensures Do(s, Load(bs)).loaded == Some(Loaded(s.pending[0], bs))
  {
    hide Encodes;
  }

  /** Blocks written later do not disturb a journal's blocks. */
  lemma RangeBlocksKept(r: Ring.Ring, r': Ring.Ring, i: nat)
    requires Ring.Inv(r) && i < |r.ranges|
    requires r.log <= r'.log && r.ranges <= r'.ranges
    ensures RangeBlocks(r', i) == RangeBlocks(r, i)
  {
    hide Ring.Contents, Ring.Describes;
    Ring.RangesBounded(r.area, r.ranges, |r.log|, i);
  }

  lemma EncodedWriteOut(s: System)
    requires Listed(s) && Encoded(s) && Enabled(s, WriteOut) && Asserted(s, WriteOut)
    ensures |Do(s, WriteOut).logged| == |Do(s, WriteOut).ring.ranges| && Encoded(Do(s, WriteOut))
  {
    hide Encodes, Do, System.Waiting, Ring.Inv, Asserted, RangeBlocks;
    WriteOutFields(s);
    var s', l, n := Do(s, WriteOut), s.loaded.value, |s.logged|;
    forall i | 0 <= i < |s'.logged| ensures Encodes(s'.logged[i].journal, RangeBlocks(s'.ring, i)) {
      if i < n {
        RangeBlocksKept(s.ring, s'.ring, i);
        assert Encodes(s.logged[i].journal, RangeBlocks(s.ring, i));
      } else {
        LastRangeBlocks(s.ring, s'.ring, l.txj.tx, l.blocks);
      }
    }
  }

  lemma LastRangeBlocks(r: Ring.Ring, r': Ring.Ring, tx: nat, bs: seq<Ring.Block>)
    requires r'.log == r.log + bs
    requires r'.ranges == r.ranges + [Ring.Range(tx, |r.log|, |r.log| + |bs|)]
    ensures RangeBlocks(r', |r.ranges|) == bs
  {
  }

  // ----- the truth is unaffected by everything but changes -----

  lemma {:induction false} ReplayAllConcat(m: Metadata, xs: seq<TxJournal>, ys: seq<TxJournal>)
    ensures ReplayAll(m, xs + ys) == ReplayAll(ReplayAll(m, xs), ys)
    decreases |ys|
  {
    hide RawReplay;
    if ys == [] {
      assert xs + ys == xs;
    } else {
      ReplayAllConcat(m, xs, ys[..|ys| - 1]);
      assert (xs + ys)[..|xs + ys| - 1] == xs + ys[..|ys| - 1];
    }
  }

  lemma ReplayAllOne(m: Metadata, t: TxJournal)
    ensures ReplayAll(m, [t]) == RawReplay(m, t.journal)
  {
    hide RawReplay;
    assert [t][..0] == [];
  }

  /** Moving a journal from memory to the ring changes nothing: its blocks mean its entries. */
  lemma TruthWriteOut(s: System)
    requires Listed(s) && Encoded(s) && Enabled(s, WriteOut) && Asserted(s, WriteOut)
    ensures Do(s, WriteOut).Truth() == s.Truth()
  {
    hide Encodes, Do, System.Waiting, RawReplay, ReplayAll, Replay, ItemsOf, Ring.Inv;
    WriteOutFields(s);
    WaitingStep(s, WriteOut);
    Frame(s, WriteOut);
    var s', l := Do(s, WriteOut), s.loaded.value;
    var m := Replay(s.base, ItemsOf(s.ring.log));
    ItemsOfConcat(s.ring.log, l.blocks);
    ReplayConcat(s.base, ItemsOf(s.ring.log), ItemsOf(l.blocks));
    EncodedReplay(m, l.txj.journal, l.blocks);
    ReplayAllConcat(m, [l.txj], s'.Waiting());
    ReplayAllOne(m, l.txj);
  }

  lemma TruthAddTx(s: System)
    requires Enabled(s, AddTx)
    ensures Do(s, AddTx).Truth() == s.Truth()
  {
    hide System.Waiting, ReplayAll, Replay, ItemsOf;
    WaitingStep(s, AddTx);
    var t := TxJournal(s.nextTx, s.curJournal);
    var m := Replay(s.base, ItemsOf(s.ring.log));
    ReplayAllConcat(m, s.Waiting(), [t]);
    ReplayAllOne(ReplayAll(m, s.Waiting()), t);
  }

  lemma TruthStep(s: System, a: Action)
    requires Listed(s) && Encoded(s) && Enabled(s, a) && Asserted(s, a)
    ensures
      var t, t' := s.Truth().sits, Do(s, a).Truth().sits;
      match a
      case Change(seg, value) => t' == t[seg := value]
      case _ => t' == t
  {
    hide Encodes, System.Waiting, ReplayAll, Replay, ItemsOf, Ring.Inv, ReplayTable, Do, Asserted;
    WaitingStep(s, a);
    Frame(s, a);
    match a {
      case WriteOut => TruthWriteOut(s);
      case AddTx => TruthAddTx(s);
      case Change(seg, value) =>
        ChangeFields(s, a);
        ReplayTableSnoc(ReplayAll(Replay(s.base, ItemsOf(s.ring.log)), s.Waiting()).sits, s.curJournal.sits, Entry(seg, value));
      case Note(_, _) => ChangeFields(s, a);
      case _ =>
    }
  }

  lemma ChangeFields(s: System, a: Action)
    requires Enabled(s, a) && Asserted(s, a) && (a.Change? || a.Note?)
    ensures Do(s, a).curJournal.sits == if a.Change? then s.curJournal.sits + [Entry(a.seg, a.value)] else s.curJournal.sits
  {
    hide Encodes, Part;
  }
}
