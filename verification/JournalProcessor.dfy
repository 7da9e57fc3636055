/**
 The journal thread as the program runs it: it takes committed journals in order, collects each
 into buffer blocks, writes them round the ring when there is room, and reports transactions whose
 journal the SSD has applied. The ghost ring is the history that its fields describe.
 */
module JournalProcessor {
  import opened Wrappers
  import opened JournalRing

  /** A committed journal and the blocks the journal writer collects it into. */
  datatype Job = Job(tx: nat, blocks: seq<Block>)

  datatype State = NewlyFetched | WrittenInBuffer

  function Txs(rs: seq<Range>): seq<nat> { seq(|rs|, i requires 0 <= i < |rs| => rs[i].tx) }
  function JobTxs(js: seq<Job>): seq<nat> { seq(|js|, i requires 0 <= i < |js| => js[i].tx) }
  function CurTx(cur: Option<Job>): seq<nat> { match cur case None => [] case Some(j) => [j.tx] }

  /** A journal has at least one block, and a collected one is what the buffer holds. */
  ghost predicate Ready(cur: Option<Job>, pending: seq<Job>, state: State, buffer: seq<Block>) {
    && (forall i | 0 <= i < |pending| :: pending[i].blocks != [])
    && (cur.Some? ==> cur.value.blocks != [] && (state == WrittenInBuffer ==> buffer == cur.value.blocks))
  }

  /** Nothing fetched is lost or overtaken, and the reported transactions come first. */
  ghost predicate InOrder(ring: Ring, cur: Option<Job>, pending: seq<Job>, fetched: seq<nat>, notified: seq<nat>) {
    && fetched == Txs(ring.ranges) + CurTx(cur) + JobTxs(pending)
    && ring.reported <= |ring.ranges| && notified == Txs(ring.ranges[..ring.reported])
  }

  /** The slots are written one after the other, back to the start of the area at its end. */
  method WriteToSsd(area: Area, mem: map<nat, Block>, buffer: seq<Block>, tail: nat) returns (mem': map<nat, Block>)
    requires area.Valid() && area.start <= tail < area.end && |buffer| <= area.Blocks()
    ensures mem' == WriteSlots(area, mem, tail, buffer)
  {
    mem' := mem;
    var cur, i := tail, 0;
    while i < |buffer|
      invariant 0 <= i <= |buffer| && area.start <= cur <= area.end
      invariant i < area.Blocks() ==> area.Slot(tail, i) == if cur == area.end then area.start else cur
      invariant mem' == WriteSlots(area, mem, tail, buffer[..i])
    {
      if cur == area.end {
        cur := area.start;
      }
      mem' := mem'[cur := buffer[i]];
      assert buffer[..i + 1][..i] == buffer[..i];
      cur := cur + 1;
      i := i + 1;
    }
    assert buffer[..i] == buffer;
  }

  class JournalProcessor {
    const area: Area
    const totalAvail: nat
    var head: nat
    var tail: nat
    var avail: nat
    var records: seq<TxRecord>
    var pending: seq<Job>
    var cur: Option<Job>
    var state: State
    var buffer: seq<Block>
    var curStart: nat
    var curEnd: nat
    var mem: map<nat, Block>        // the journal area of the SSD
    var notified: seq<nat>          // what replace_protect_manager was told
    ghost var ring: Ring
    ghost var fetched: seq<nat>     // every transaction ever taken from the commit queue

    ghost predicate Valid()
      reads this
    {
      && Inv(ring) && ring.area == area && ring.mem == mem
      && ring.host == Host(head, tail, avail, records)
      && totalAvail == area.Blocks() - 1
      && Ready(cur, pending, state, buffer)
      && InOrder(ring, cur, pending, fetched, notified)
    }

    constructor (area: Area, mem: map<nat, Block>)
      requires area.Valid()
      ensures Valid() && ring == Init(area, mem) && fetched == [] && pending == [] && cur == None
    {
      InitInv(area, mem);
      this.area, this.mem, totalAvail := area, mem, area.end - area.start - 1;
      head, tail, avail, records := area.origin, area.origin, area.end - area.start - 1, [];
      curStart, curEnd := area.origin, area.origin;
      pending, cur, state, buffer, notified := [], None, NewlyFetched, [], [];
      ring, fetched := Init(area, mem), [];
    }

    /** Idle: everything written is known to be applied, and no journal waits. */
    predicate IsWorking()
      reads this
    {
      !(avail == totalAvail && pending == [] && cur == None)
    }

    /** The thread may sleep exactly when every journal it ever took is written and known to be applied. */
    lemma IdleMeansDone()
      requires Valid()
      ensures !IsWorking() <==> ring.observed == |ring.log| && fetched == Txs(ring.ranges)
    {
      hide Contents, Reports, Area.Pos;
      assert |fetched| == |ring.ranges| + |CurTx(cur)| + |pending|;
      if pending == [] && cur == None {
        assert Txs(ring.ranges) + CurTx(cur) + JobTxs(pending) == Txs(ring.ranges);
      }
    }

    /** Takes the whole commit queue, in its order. */
    method FetchNewJournal(commitQueue: seq<Job>)
      requires Valid() && forall i | 0 <= i < |commitQueue| :: commitQueue[i].blocks != []
      modifies this`pending, this`fetched
      ensures Valid() && pending == old(pending) + commitQueue && fetched == old(fetched) + JobTxs(commitQueue)
    {
      pending := pending + commitQueue;
      fetched := fetched + JobTxs(commitQueue);
      assert JobTxs(pending) == JobTxs(old(pending)) + JobTxs(commitQueue);
    }

    /** Takes the next journal if there is none in hand, and writes it out if the ring has room for it. */
    method ProcessPendingJournal()
      requires Valid()
      modifies this`pending, this`cur, this`state, this`buffer, this`mem, this`tail, this`avail, this`records, this`ring, this`curStart, this`curEnd
      ensures Valid()
      ensures
        var job := if old(cur).Some? then old(cur) else if old(pending) != [] then Some(old(pending)[0]) else None;
        var rest := if old(cur).None? && old(pending) != [] then old(pending)[1..] else old(pending);
        && pending == rest
        && (job == None ==> ring == old(ring) && cur == None)
        && (job.Some? ==> ring == Write(old(ring), job.value.tx, job.value.blocks))
        && (job.Some? ==> cur == if CanWrite(old(ring).host, |job.value.blocks|) then None else job)
    {
      hide Inv, Contents, Reports, Area.Pos, WriteSlots, Area.Slot;
      if cur == None {
        if pending == [] {
          return;
        }
        cur, pending, state := Some(pending[0]), pending[1..], NewlyFetched;
        assert JobTxs(old(pending)) == CurTx(cur) + JobTxs(pending);
      }
      if state == NewlyFetched {
        buffer, state := cur.value.blocks, WrittenInBuffer;
      }
      FinishJournal();
    }

    /** The collected journal goes out if there is room; then its record is made. */
    method FinishJournal()
      requires Valid() && cur.Some? && state == WrittenInBuffer
      modifies this`cur, this`mem, this`tail, this`avail, this`records, this`ring, this`curStart, this`curEnd
      ensures Valid()
      ensures ring == Write(old(ring), old(cur).value.tx, old(cur).value.blocks)
      ensures cur == if CanWrite(old(ring).host, |old(cur).value.blocks|) then None else old(cur)
    {
      hide Inv, Counters, Write, Ready, WriteSlots, Written, InOrder;
      ghost var r, job := ring, cur.value;
      ReadyBuffer(job, pending, state, buffer);
      WriteInv(r, job);
      var done := WriteJournalToSsd();
      if done {
        records := records + [TxRecord(cur.value.tx, curStart, curEnd)];
        WriteOrder(r, job, pending, fetched, notified);
        ring := Write(r, job.tx, job.blocks);
        cur := None;
      }
    }

    /** Writes the buffered journal behind the tail and moves the tail, or leaves everything as it is. */
    method WriteJournalToSsd() returns (done: bool)
      requires area.Valid() && area.start <= tail < area.end && avail < area.Blocks()
      modifies this`mem, this`tail, this`avail, this`curStart, this`curEnd
      ensures done == CanWrite(Host(head, old(tail), old(avail), records), |buffer|)
      ensures done ==> mem == WriteSlots(area, old(mem), old(tail), buffer)
      ensures done ==> forall tx ::
                Host(head, tail, avail, records + [TxRecord(tx, curStart, curEnd)])
                == Written(area, Host(head, old(tail), old(avail), records), tx, |buffer|)
      ensures !done ==> unchanged(this)
    {
      hide WriteSlots;
      done := |buffer| <= avail;
      if done {
        mem := WriteToSsd(area, mem, buffer, tail);
        curStart := tail;
        tail := tail + |buffer|;
        if tail >= area.end {
          tail := tail - area.end + area.start;
        }
        curEnd := tail;
        avail := avail - |buffer|;
      }
    }

    /** The SSD applies one more block of the ring. */
    ghost method SsdApplies()
      requires Valid() && ring.Applied() < |ring.log|
      modifies this`ring
      ensures Valid() && ring.read == old(ring.read) + [old(ring.log)[|old(ring.read)|]]
    {
      ApplyInv(ring);
      ring := Apply(ring);
    }

    /** Asks the SSD for its head and frees the slots it has passed. */
    method SyncWithSsd(newHead: nat) returns (moved: bool)
      requires Valid() && newHead == ring.ssdHead
      modifies this`head, this`avail, this`ring
      ensures Valid() && ring == Observe(old(ring)) && moved == (old(ring).Applied() > old(ring).observed)
    {
      hide Area.Pos, Contents, Reports;
      ObserveKeepsCounters(ring);
      ObserveKeepsRest(ring);
      var released := if newHead >= head then newHead - head else newHead + area.end - area.start - head;
      head := newHead;
      avail := avail + released;
      ring := Observe(ring);
      moved := released != 0;
    }

    /** Reports the transactions at the front that are applied, in order, and drops their records. */
    method ProcessTxRecord()
      requires Valid()
      modifies this`records, this`notified, this`ring
      ensures Valid()
      ensures ring == Pop(old(ring), AppliedFront(old(ring).host.records, head, tail))
    {
      hide Inv, TxRecord.IsApplied, InOrder, Ready, Pop;
      PopInv(ring);
      PopNone(ring);
      ghost var n, r := 0, ring;
      ghost var front := AppliedFront(r.host.records, head, tail);
      while records != []
        invariant ring == r && n <= front && records == r.host.records[n..]
        invariant InOrder(Pop(r, n), cur, pending, fetched, notified)
        decreases |records|
      {
        var first := records[0];
        if !first.IsApplied(head, tail) {
          break;
        }
        PopOrder(r, n, cur, pending, fetched, notified);
        notified := notified + [first.tx];
        records := records[1..];
        n := n + 1;
      }
      ring := Pop(r, front);
    }

    /** One poll, skipped when nothing is outstanding. */
    method ProcessCpltJournal(newHead: nat)
      requires Valid() && newHead == ring.ssdHead
      modifies this`head, this`avail, this`records, this`notified, this`ring
      ensures Valid()
      ensures ring == Sync(old(ring)) || (ring == old(ring) && old(ring).observed == |old(ring).log|)
    {
      if avail == totalAvail {
        return;
      }
      ObserveKeepsCounters(ring);
      var moved := SyncWithSsd(newHead);
      if moved {
        ProcessTxRecord();
      }
    }
  }

  lemma ReadyBuffer(job: Job, pending: seq<Job>, state: State, buffer: seq<Block>)
    requires Ready(Some(job), pending, state, buffer) && state == WrittenInBuffer
    ensures buffer == job.blocks != [] && Ready(None, pending, state, buffer)
  {
  }

  lemma WriteOrder(r: Ring, job: Job, pending: seq<Job>, fetched: seq<nat>, notified: seq<nat>)
    requires Inv(r) && CanWrite(r.host, |job.blocks|) && InOrder(r, Some(job), pending, fetched, notified)
    ensures InOrder(Write(r, job.tx, job.blocks), None, pending, fetched, notified)
  {
    hide Contents, Reports, Area.Pos, WriteSlots;
    var r' := Write(r, job.tx, job.blocks);
    assert r'.ranges[..r.reported] == r.ranges[..r.reported];
    assert Txs(r'.ranges) == Txs(r.ranges) + [job.tx];
  }

  /** The record in front carries the next transaction to be reported. */
  lemma PopOrder(r: Ring, n: nat, cur: Option<Job>, pending: seq<Job>, fetched: seq<nat>, notified: seq<nat>)
    requires Inv(r) && n < |r.host.records| && InOrder(Pop(r, n), cur, pending, fetched, notified)
    ensures InOrder(Pop(r, n + 1), cur, pending, fetched, notified + [r.host.records[n].tx])
  {
    assert Describes(r.area, r.host.records[n], r.ranges[r.reported + n]);
    hide Inv, CurTx, JobTxs;
    assert Txs(r.ranges[..r.reported + n + 1]) == Txs(r.ranges[..r.reported + n]) + [r.host.records[n].tx];
  }

  lemma PopNone(r: Ring)
    ensures Pop(r, 0) == r
  {
  }

  /** Writing a journal keeps the ring's invariant and puts its transaction behind the others. */
  lemma WriteInv(r: Ring, job: Job)
    requires Inv(r) && job.blocks != []
    ensures Counters(r) && r.area.Valid() && r.area.start <= r.host.tail < r.area.end && r.host.avail < r.area.Blocks()
    ensures
      var r', n := Write(r, job.tx, job.blocks), |job.blocks|;
      && Inv(r') && r'.area == r.area && r'.reported == r.reported <= |r.ranges|
      && if !CanWrite(r.host, n) then r' == r
         else
           && r'.host == Written(r.area, r.host, job.tx, n)
           && r'.mem == WriteSlots(r.area, r.mem, r.host.tail, job.blocks)
  {
    hide WriteSlots, Contents, Area.Pos, Area.Slot, Tiled;
    if CanWrite(r.host, |job.blocks|) {
      WriteKeepsCounters(r, job.tx, job.blocks);
      WriteKeepsContents(r, job.tx, job.blocks);
      WriteKeepsReports(r, job.tx, job.blocks);
    }
  }

  lemma PopInv(r: Ring)
    requires Inv(r)
    ensures Inv(Pop(r, AppliedFront(r.host.records, r.host.head, r.host.tail)))
    ensures
      var n := AppliedFront(r.host.records, r.host.head, r.host.tail);
      var r' := Pop(r, n);
      r'.host == r.host.(records := r.host.records[n..]) && r'.area == r.area && r'.mem == r.mem
  {
    hide Area.Pos, TxRecord.IsApplied, AppliedFront, Tiled;
    PopKeepsReports(r, AppliedFront(r.host.records, r.host.head, r.host.tail));
  }

  lemma ObserveKeepsRest(r: Ring)
    requires Inv(r)
    ensures Contents(Observe(r)) && Reports(Observe(r))
  {
    hide Area.Pos, Tiled;
  }
}
