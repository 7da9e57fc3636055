/**
 The journal area as a ring: the host writes journals at the tail, the SSD applies blocks
 from its head at its own pace, and the host learns about progress only by asking for the
 head. Host fields hold ring addresses; the history counts blocks from the beginning of time.
 */
module JournalRing {
  import opened Bytes

  type Block = seq<byte>

  /** The journal area [start, end) of the SSD; `origin` is the queue position found at start-up. */
  datatype Area = Area(start: nat, end: nat, origin: nat) {
    predicate Valid() { start + 2 <= end && start <= origin < end }
    function Blocks(): nat requires Valid() { end - start }

    /** The address `k` slots behind `p`. */
    function Slot(p: nat, k: nat): nat
      requires start <= p < end && k <= end - start
    {
      if p + k < end then p + k else p + k - (end - start)
    }

    /** The address of the `i`-th block ever written. */
    function Pos(i: nat): (p: nat)
      requires Valid()
      ensures start <= p < end
    {
      if i == 0 then origin else Slot(Pos(i - 1), 1)
    }
  }

  lemma {:induction false} PosSlot(a: Area, i: nat, k: nat)
    requires a.Valid() && k <= a.Blocks()
    ensures a.Pos(i + k) == a.Slot(a.Pos(i), k)
  {
    if k > 0 {
      PosSlot(a, i, k - 1);
    }
  }

  /** Fewer than a ring apart means different addresses. */
  lemma PosDistinct(a: Area, i: nat, j: nat)
    requires a.Valid() && i < j < i + a.Blocks()
    ensures a.Pos(i) != a.Pos(j)
  {
    PosSlot(a, i, j - i);
  }

  // ----- the host's operations -----

  /** Where a transaction's journal lies, [start, end) around the ring. */
  datatype TxRecord = TxRecord(tx: nat, start: nat, end: nat) {
    predicate IsApplied(head: nat, tail: nat) {
      if start < end then
        if head <= tail then head >= end || tail < start else head >= end
      else
        head <= tail && head >= end
    }
  }

  datatype Host = Host(head: nat, tail: nat, avail: nat, records: seq<TxRecord>)

  predicate CanWrite(h: Host, n: nat) { n <= h.avail }

  /** Host state after a journal of `n` blocks went to the SSD. */
  function Written(a: Area, h: Host, tx: nat, n: nat): Host
    requires a.Valid() && n <= h.avail <= a.Blocks() && a.start <= h.tail < a.end
  {
    var t := h.tail + n;
    var tail := if t >= a.end then t - a.end + a.start else t;
    Host(h.head, tail, h.avail - n, h.records + [TxRecord(tx, h.tail, tail)])
  }

  /** Slots the SSD released between two observed heads. */
  function Released(a: Area, head: nat, newHead: nat): nat
    requires a.start <= head < a.end && a.start <= newHead < a.end
  {
    if newHead >= head then newHead - head else newHead + a.end - a.start - head
  }

  /** Host state after asking the SSD for its head. */
  function Synced(a: Area, h: Host, newHead: nat): Host
    requires a.start <= h.head < a.end && a.start <= newHead < a.end
  {
    h.(head := newHead, avail := h.avail + Released(a, h.head, newHead))
  }

  /** How many records at the front are applied. */
  function AppliedFront(rs: seq<TxRecord>, head: nat, tail: nat): (n: nat)
    ensures n <= |rs|
    ensures forall i | 0 <= i < n :: rs[i].IsApplied(head, tail)
    ensures n < |rs| ==> !rs[n].IsApplied(head, tail)
  {
    if rs != [] && rs[0].IsApplied(head, tail) then 1 + AppliedFront(rs[1..], head, tail) else 0
  }

  // ----- the ring in motion -----

  /** A transaction's journal in block counts: blocks [from, to) of all blocks ever written. */
  datatype Range = Range(tx: nat, from: nat, to: nat)

  /**
   The host, the SSD and what happened so far: `log` is every block ever written, `applied` and
   `observed` count the blocks the SSD has applied and the host knows to be applied, `ranges` lists
   the journals in commit order, and the first `reported` of them were reported complete. `read` is
   what the SSD took from the ring when it applied blocks.
   */
  datatype Ring = Ring(area: Area, host: Host, mem: map<nat, Block>, ssdHead: nat,
                       log: seq<Block>, read: seq<Block>, observed: nat, ranges: seq<Range>, reported: nat)
  {
    function Applied(): nat { |read| }
  }

  /** The host's counters describe the ring. */
  ghost predicate Counters(r: Ring) {
    && r.area.Valid()
    && r.observed <= r.Applied() <= |r.log| < r.observed + r.area.Blocks()
    && r.host.head == r.area.Pos(r.observed)
    && r.host.tail == r.area.Pos(|r.log|)
    && r.ssdHead == r.area.Pos(r.Applied())
    && r.host.avail == r.area.Blocks() - 1 - (|r.log| - r.observed)
  }

  /** Every block the SSD has not applied is intact, and the SSD applied what was written. */
  ghost predicate Contents(r: Ring)
    requires r.area.Valid()
  {
    && r.read <= r.log
    && forall i | |r.read| <= i < |r.log| :: r.area.Pos(i) in r.mem && r.mem[r.area.Pos(i)] == r.log[i]
  }

  /** Journals lie back to back, none is as long as the ring. */
  ghost predicate Tiled(a: Area, rs: seq<Range>, end: nat)
    requires a.Valid()
  {
    && (rs == [] ==> end == 0)
    && (rs != [] ==> rs[0].from == 0 && rs[|rs| - 1].to == end)
    && (forall i | 0 <= i < |rs| :: rs[i].from < rs[i].to < rs[i].from + a.Blocks())
    && (forall i | 0 < i < |rs| :: rs[i].from == rs[i - 1].to)
  }

  predicate Describes(a: Area, rec: TxRecord, r: Range)
    requires a.Valid()
  {
    rec == TxRecord(r.tx, a.Pos(r.from), a.Pos(r.to))
  }

  /** The records are exactly the unreported journals, and only applied journals are reported. */
  ghost predicate Reports(r: Ring)
    requires r.area.Valid()
  {
    && Tiled(r.area, r.ranges, |r.log|)
    && r.reported <= |r.ranges|
    && |r.host.records| == |r.ranges| - r.reported
    && (forall i | 0 <= i < |r.host.records| :: Describes(r.area, r.host.records[i], r.ranges[r.reported + i]))
    && (forall i | 0 <= i < r.reported :: r.ranges[i].to <= r.observed)
  }

  ghost predicate Inv(r: Ring) {
    Counters(r) && Contents(r) && Reports(r)
  }

  function Init(a: Area, mem: map<nat, Block>): Ring
    requires a.Valid()
  {
    Ring(a, Host(a.origin, a.origin, a.end - a.start - 1, []), mem, a.origin, [], [], 0, [], 0)
  }

  /** `mem` after writing `bs` at consecutive slots from `p`. */
  function WriteSlots(a: Area, mem: map<nat, Block>, p: nat, bs: seq<Block>): map<nat, Block>
    requires a.Valid() && a.start <= p < a.end && |bs| <= a.Blocks()
  {
    if bs == [] then mem
    else WriteSlots(a, mem, p, bs[..|bs| - 1])[a.Slot(p, |bs| - 1) := bs[|bs| - 1]]
  }

  /** The host writes the journal `bs` of transaction `tx` if there is room for it. */
  function Write(r: Ring, tx: nat, bs: seq<Block>): Ring
    requires Counters(r)
  {
    if !CanWrite(r.host, |bs|) then r
    else
      var from, to := |r.log|, |r.log| + |bs|;
      r.(host := Written(r.area, r.host, tx, |bs|),
         mem := WriteSlots(r.area, r.mem, r.host.tail, bs),
         log := r.log + bs,
         ranges := r.ranges + [Range(tx, from, to)])
  }

  /** The SSD applies the block at its head. */
  function Apply(r: Ring): Ring
    requires r.area.Valid() && r.area.start <= r.ssdHead < r.area.end && r.ssdHead in r.mem
  {
    r.(ssdHead := r.area.Slot(r.ssdHead, 1), read := r.read + [r.mem[r.ssdHead]])
  }

  /** The host asks for the SSD's head. */
  function Observe(r: Ring): Ring
    requires Counters(r)
  {
    r.(host := Synced(r.area, r.host, r.ssdHead), observed := r.Applied())
  }

  /** The host drops its first `n` records and reports their transactions complete. */
  function Pop(r: Ring, n: nat): Ring
    requires n <= |r.host.records|
  {
    r.(host := r.host.(records := r.host.records[n..]), reported := r.reported + n)
  }

  /** One poll: observe the head and, if it moved, drop the records found applied. */
  function Sync(r: Ring): Ring
    requires Counters(r)
  {
    var o := Observe(r);
    if Released(r.area, r.host.head, r.ssdHead) == 0 then o
    else Pop(o, AppliedFront(o.host.records, o.host.head, o.host.tail))
  }

  // ----- every step keeps the invariant -----

  lemma InitInv(a: Area, mem: map<nat, Block>)
    requires a.Valid()
    ensures Inv(Init(a, mem))
  {
  }

  lemma {:induction false} WriteSlotsContents(a: Area, mem: map<nat, Block>, p: nat, bs: seq<Block>)
    requires a.Valid() && a.start <= p < a.end && |bs| <= a.Blocks()
    ensures forall k | 0 <= k < |bs| ::
              a.Slot(p, k) in WriteSlots(a, mem, p, bs) && WriteSlots(a, mem, p, bs)[a.Slot(p, k)] == bs[k]
    ensures forall q | q in mem && (forall k | 0 <= k < |bs| :: q != a.Slot(p, k)) ::
              q in WriteSlots(a, mem, p, bs) && WriteSlots(a, mem, p, bs)[q] == mem[q]
  {
    if bs != [] {
      WriteSlotsContents(a, mem, p, bs[..|bs| - 1]);
    }
  }

  /** A journal goes to the next free slots only: whatever the SSD has still to apply stays intact. */
  lemma WriteKeepsContents(r: Ring, tx: nat, bs: seq<Block>)
    requires Counters(r) && Contents(r) && CanWrite(r.host, |bs|)
    ensures Contents(Write(r, tx, bs))
  {
    hide Area.Pos, Area.Slot, WriteSlots;
    var r' := Write(r, tx, bs);
    var a := r.area;
    WriteSlotsContents(a, r.mem, r.host.tail, bs);
    forall i | |r'.read| <= i < |r'.log| ensures a.Pos(i) in r'.mem && r'.mem[a.Pos(i)] == r'.log[i] {
      if i < |r.log| {
        forall k | 0 <= k < |bs| ensures a.Pos(i) != a.Slot(r.host.tail, k) {
          PosSlot(a, |r.log|, k);
          PosDistinct(a, i, |r.log| + k);
        }
        assert a.Pos(i) in r.mem;
      } else {
        var k := i - |r.log|;
        PosSlot(a, |r.log|, k);
        assert bs[k] == r'.log[i];
      }
    }
  }

  lemma WriteKeepsCounters(r: Ring, tx: nat, bs: seq<Block>)
    requires Counters(r) && CanWrite(r.host, |bs|)
    ensures Counters(Write(r, tx, bs))
  {
    PosSlot(r.area, |r.log|, |bs|);
  }

  lemma WriteKeepsReports(r: Ring, tx: nat, bs: seq<Block>)
    requires Counters(r) && Reports(r) && CanWrite(r.host, |bs|) && bs != []
    ensures Reports(Write(r, tx, bs))
  {
    hide WriteSlots, Area.Pos;
    var r' := Write(r, tx, bs);
    PosSlot(r.area, |r.log|, |bs|);
    var g := Range(tx, |r.log|, |r.log| + |bs|);
    assert Tiled(r.area, r.ranges + [g], |r.log| + |bs|);
    forall i | 0 <= i < |r'.host.records|
      ensures Describes(r.area, r'.host.records[i], r'.ranges[r.reported + i])
    {
      if i < |r.host.records| {
        assert Describes(r.area, r.host.records[i], r.ranges[r.reported + i]);
      }
    }
  }

  lemma ApplyInv(r: Ring)
    requires Inv(r) && r.Applied() < |r.log|
    ensures r.ssdHead in r.mem && Inv(Apply(r))
  {
    PosSlot(r.area, r.Applied(), 1);
    assert r.area.Pos(r.Applied()) in r.mem;
    var r' := Apply(r);
    assert r'.read == r.log[..|r.read| + 1];
  }

  lemma ObserveKeepsCounters(r: Ring)
    requires Counters(r)
    ensures Counters(Observe(r))
    ensures Released(r.area, r.host.head, r.ssdHead) == r.Applied() - r.observed
  {
    PosSlot(r.area, r.observed, r.Applied() - r.observed);
  }

  lemma PartlyAppliedArithmetic(a: Area, s: nat, len: nat, x: nat, d: nat)
    requires a.Valid() && a.start <= s < a.end
    requires x < len < a.Blocks() && len - x <= d < a.Blocks()
    ensures
      var h := a.Slot(s, x);
      forall tx :: !TxRecord(tx, s, a.Slot(s, len)).IsApplied(h, a.Slot(h, d))
  {
  }

  lemma AppliedArithmetic(a: Area, s: nat, len: nat, x: nat, y: nat)
    requires a.Valid() && a.start <= s < a.end
    requires 0 < len <= y && x <= y < a.Blocks()
    ensures forall tx :: TxRecord(tx, s, a.Slot(s, len)).IsApplied(a.Slot(s, x), a.Slot(s, y)) <==> len <= x
  {
  }

  /** The journal `g`, described by `rec`, is one of those the host has written. */
  ghost predicate OnRing(r: Ring, g: Range, rec: TxRecord)
    requires r.area.Valid()
  {
    && Describes(r.area, rec, g)
    && g.from < g.to < g.from + r.area.Blocks()
    && g.to <= |r.log|
  }

  /**
   The applied test never errs on the unsafe side: once the host head has reached a journal's first
   block, a positive answer means the head has passed its last one. This needs no assumption about
   where the head stands, nor that the tail stays out of the journal's slots.
   */
  lemma IsAppliedIsSafe(r: Ring, g: Range, rec: TxRecord)
    requires Counters(r) && OnRing(r, g, rec)
    requires g.from <= r.observed
    requires rec.IsApplied(r.host.head, r.host.tail)
    ensures g.to <= r.observed
  {
    hide Area.Pos, Area.Slot, TxRecord.IsApplied;
    if r.observed < g.to {
      PosSlot(r.area, g.from, g.to - g.from);
      PosSlot(r.area, g.from, r.observed - g.from);
      PosSlot(r.area, r.observed, |r.log| - r.observed);
      PartlyAppliedArithmetic(r.area, rec.start, g.to - g.from, r.observed - g.from, |r.log| - r.observed);
      assert false;
    }
  }

  /** While the tail has not come round to a journal again, the applied test is exact. */
  lemma IsAppliedIsExact(r: Ring, g: Range, rec: TxRecord)
    requires Counters(r) && OnRing(r, g, rec)
    requires g.from <= r.observed && |r.log| < g.from + r.area.Blocks()
    ensures rec.IsApplied(r.host.head, r.host.tail) <==> g.to <= r.observed
  {
    hide Area.Pos, Area.Slot, TxRecord.IsApplied;
    PosSlot(r.area, g.from, g.to - g.from);
    PosSlot(r.area, g.from, r.observed - g.from);
    PosSlot(r.area, g.from, |r.log| - g.from);
    AppliedArithmetic(r.area, rec.start, g.to - g.from, r.observed - g.from, |r.log| - g.from);
  }

  /** How many slots `q` lies behind `p`, going round. */
  function Behind(a: Area, p: nat, q: nat): nat
    requires a.start <= p < a.end && a.start <= q < a.end
  {
    if q >= p then q - p else q - p + (a.end - a.start)
  }

  /**
   When the test recognises a journal of `len` blocks at [s, e), with the head `x` slots behind `s`
   and `d` blocks outstanding. As long as the outstanding blocks do not reach round to `s`: when the
   head stands outside the journal's slots, or journal and outstanding blocks share the end of the
   area. Once they do reach round: when the head stands outside, and has not wrapped since it left
   the journal (for a journal that wraps itself: the tail has not).
   */
  predicate Recognised(a: Area, s: nat, e: nat, len: nat, x: nat, d: nat)
    requires a.Valid() && a.start <= s < a.end && x < a.Blocks() && d < a.Blocks()
  {
    var h, t := a.Slot(s, x), a.Slot(a.Slot(s, x), d);
    if x + d < a.Blocks() then len <= x || (e <= s && s + x + d < a.end)
    else len <= x && if s < e then e <= h else h <= t
  }

  lemma RecognisedArithmetic(a: Area, s: nat, len: nat, h: nat, d: nat)
    requires a.Valid() && a.start <= s < a.end && a.start <= h < a.end
    requires 0 < len < a.Blocks() && d < a.Blocks()
    ensures
      var e, x := a.Slot(s, len), Behind(a, s, h);
      forall tx :: TxRecord(tx, s, e).IsApplied(h, a.Slot(h, d)) <==> Recognised(a, s, e, len, x, d)
  {
  }

  /** The host's test on journal `g`, in any state of the ring, however long ago the journal was written. */
  ghost predicate Sees(r: Ring, g: Range)
    requires Counters(r)
  {
    var s := r.area.Pos(g.from);
    g.from <= g.to && Recognised(r.area, s, r.area.Pos(g.to), g.to - g.from, Behind(r.area, s, r.host.head), |r.log| - r.observed)
  }

  /** The applied test answers yes exactly for the journals whose place on the ring it can recognise. */
  lemma AppliedTestExactly(r: Ring, g: Range, rec: TxRecord)
    requires Counters(r) && OnRing(r, g, rec)
    ensures rec.IsApplied(r.host.head, r.host.tail) <==> Sees(r, g)
  {
    hide Area.Pos, Area.Slot, TxRecord.IsApplied, Recognised;
    PosSlot(r.area, g.from, g.to - g.from);
    PosSlot(r.area, r.observed, |r.log| - r.observed);
    RecognisedArithmetic(r.area, rec.start, g.to - g.from, r.host.head, |r.log| - r.observed);
  }

  /** The records popped at a sync are applied journals, front first. */
  lemma {:induction false} PoppedAreApplied(r: Ring, n: nat)
    requires Counters(r) && Reports(r)
    requires n <= AppliedFront(r.host.records, r.host.head, r.host.tail)
    ensures forall i | 0 <= i < r.reported + n :: r.ranges[i].to <= r.observed
  {
    hide Area.Pos, Area.Slot, TxRecord.IsApplied;
    if n > 0 {
      PoppedAreApplied(r, n - 1);
      var j := r.reported + n - 1;
      RangesBounded(r.area, r.ranges, |r.log|, j);
      assert Describes(r.area, r.host.records[n - 1], r.ranges[j]);
      assert r.ranges[j].from <= r.observed by {
        if j > 0 { assert r.ranges[j].from == r.ranges[j - 1].to; }
      }
      IsAppliedIsSafe(r, r.ranges[j], r.host.records[n - 1]);
    }
  }

  lemma {:induction false} RangesBounded(a: Area, rs: seq<Range>, end: nat, j: nat)
    requires a.Valid() && Tiled(a, rs, end) && j < |rs|
    ensures rs[j].to <= end
    decreases |rs| - j
  {
    if j + 1 < |rs| {
      RangesBounded(a, rs, end, j + 1);
    }
  }

  lemma PopKeepsReports(r: Ring, n: nat)
    requires Counters(r) && Reports(r)
    requires n <= AppliedFront(r.host.records, r.host.head, r.host.tail)
    ensures Reports(Pop(r, n))
  {
    hide Area.Pos, TxRecord.IsApplied, AppliedFront, Tiled;
    PoppedAreApplied(r, n);
    var r' := Pop(r, n);
    forall i | 0 <= i < |r'.host.records|
      ensures Describes(r.area, r'.host.records[i], r'.ranges[r'.reported + i])
    {
      assert Describes(r.area, r.host.records[n + i], r.ranges[r.reported + (n + i)]);
    }
  }

  lemma SyncInv(r: Ring)
    requires Inv(r)
    ensures Inv(Sync(r))
  {
    hide Area.Pos, TxRecord.IsApplied, AppliedFront, Tiled, Released;
    ObserveKeepsCounters(r);
    var o := Observe(r);
    assert Inv(o);
    if Released(r.area, r.host.head, r.ssdHead) != 0 {
      PopKeepsReports(o, AppliedFront(o.host.records, o.host.head, o.host.tail));
    }
  }

  // ----- runs -----

  datatype Step = SWrite(tx: nat, blocks: seq<Block>) | SApply | SSync

  /** One step; a journal always has at least one block, and the SSD applies only what was written. */
  function Next(r: Ring, s: Step): (r': Ring)
    requires Inv(r)
    ensures Inv(r') && r'.area == r.area
  {
    match s
    case SWrite(tx, bs) =>
      if bs == [] || !CanWrite(r.host, |bs|) then r
      else
        WriteKeepsCounters(r, tx, bs); WriteKeepsContents(r, tx, bs); WriteKeepsReports(r, tx, bs);
        Write(r, tx, bs)
    case SApply =>
      if r.Applied() == |r.log| then r else ApplyInv(r); Apply(r)
    case SSync =>
      SyncInv(r); Sync(r)
  }

  function Run(r: Ring, steps: seq<Step>): (r': Ring)
    requires Inv(r)
    ensures Inv(r') && r'.area == r.area
  {
    if steps == [] then r else Next(Run(r, steps[..|steps| - 1]), steps[|steps| - 1])
  }

  /**
   Whatever the host writes, whenever the SSD applies and whenever the host polls: the free count
   is exact, the SSD reads back what was written in the order it was written, and transactions are
   reported in commit order, each only after the SSD has applied its whole journal.
   */
  lemma RunSafety(a: Area, mem: map<nat, Block>, steps: seq<Step>)
    requires a.Valid()
    ensures Inv(Init(a, mem))
    ensures
      var r := Run(Init(a, mem), steps);
      && r.host.avail == a.Blocks() - 1 - (|r.log| - r.observed)
      && r.read == r.log[..|r.read|]
      && (forall i | |r.read| <= i < |r.log| :: r.area.Pos(i) in r.mem && r.mem[r.area.Pos(i)] == r.log[i])
      && r.reported <= |r.ranges|
      && (forall i | 0 <= i < r.reported :: r.ranges[i].to <= |r.read|)
      && (forall i | 0 <= i < |r.host.records| ::
            r.reported + i < |r.ranges| && r.host.records[i].tx == r.ranges[r.reported + i].tx)
  {
    InitInv(a, mem);
    var r := Run(Init(a, mem), steps);
    forall i | 0 <= i < |r.host.records|
      ensures r.reported + i < |r.ranges| && r.host.records[i].tx == r.ranges[r.reported + i].tx
    {
      assert Describes(r.area, r.host.records[i], r.ranges[r.reported + i]);
    }
  }

  // ----- when every applied transaction is reported -----

  /** The block count at which journal `j` begins. */
  function Boundary(rs: seq<Range>, j: nat): nat
    requires j <= |rs|
  {
    if j == 0 then 0 else rs[j - 1].to
  }

  /** Everything applied is reported, and the host head stands at the next journal. */
  ghost predicate UpToDate(r: Ring)
    requires r.reported <= |r.ranges|
  {
    r.observed == Boundary(r.ranges, r.reported)
  }

  lemma {:induction false} BoundaryIncreases(a: Area, rs: seq<Range>, end: nat, i: nat, j: nat)
    requires a.Valid() && Tiled(a, rs, end) && i <= j <= |rs|
    ensures Boundary(rs, i) + (j - i) <= Boundary(rs, j)
    ensures Boundary(rs, |rs|) == end
  {
    if i < j {
      BoundaryIncreases(a, rs, end, i, j - 1);
      assert j > 1 ==> rs[j - 1].from == rs[j - 2].to;
    }
  }

  lemma RangeAt(r: Ring, i: nat)
    requires Inv(r) && r.reported <= i < |r.ranges|
    ensures
      var rec := r.host.records[i - r.reported];
      OnRing(r, r.ranges[i], rec) && (i > 0 ==> r.ranges[i].from == r.ranges[i - 1].to) && (i == 0 ==> r.ranges[i].from == 0)
  {
    hide Area.Pos;
    var k := i - r.reported;
    assert Describes(r.area, r.host.records[k], r.ranges[r.reported + k]);
    RangesBounded(r.area, r.ranges, |r.log|, i);
  }

  lemma ObserveInv(r: Ring)
    requires Inv(r)
    ensures Inv(Observe(r))
  {
    hide Area.Pos, Tiled, Released;
    ObserveKeepsCounters(r);
  }

  /**
   What a poll reports, with no assumption on the run or on where the head is: a transaction is
   reported exactly when the test recognises its journal and all unreported ones before it.
   */
  lemma PollReportsExactly(r: Ring, i: nat)
    requires Inv(r) && r.observed < r.Applied() && r.reported <= i < |r.ranges|
    ensures Counters(Observe(r))
    ensures i < Sync(r).reported <==> forall j | r.reported <= j <= i :: Sees(Observe(r), r.ranges[j])
  {
    hide Area.Pos, TxRecord.IsApplied, Released, Contents, Tiled, Sees;
    ObserveKeepsCounters(r);
    ObserveInv(r);
    var o := Observe(r);
    var n := AppliedFront(o.host.records, o.host.head, o.host.tail);
    assert Sync(r).reported == r.reported + n;
    forall j | r.reported <= j <= i
      ensures Sees(o, r.ranges[j]) <==> o.host.records[j - r.reported].IsApplied(o.host.head, o.host.tail)
    {
      RangeAt(o, j);
      AppliedTestExactly(o, o.ranges[j], o.host.records[j - r.reported]);
    }
    if n <= i - r.reported {
      assert !o.host.records[n].IsApplied(o.host.head, o.host.tail);
      var j := r.reported + n;
      assert !Sees(o, r.ranges[j]);
    }
  }

  /**
   A poll reports every applied transaction if and only if the test recognises the journal of every
   applied transaction not yet reported.
   */
  lemma PollIsComplete(r: Ring)
    requires Inv(r) && r.observed < r.Applied()
    ensures Counters(Observe(r))
    ensures (forall i | r.reported <= i < |r.ranges| && r.ranges[i].to <= r.Applied() :: i < Sync(r).reported) <==>
            (forall j | r.reported <= j < |r.ranges| && r.ranges[j].to <= r.Applied() :: Sees(Observe(r), r.ranges[j]))
  {
    hide Area.Pos, TxRecord.IsApplied, Released, Contents, Describes, Sees, AppliedFront, Sync, Observe;
    assert Counters(Observe(r)) by { ObserveInv(r); }
    var o := Observe(r);
    forall i | r.reported <= i < |r.ranges| && r.ranges[i].to <= r.Applied()
      ensures i < Sync(r).reported <==> forall j | r.reported <= j <= i :: Sees(o, r.ranges[j])
    {
      PollReportsExactly(r, i);
    }
    if forall j | r.reported <= j < |r.ranges| && r.ranges[j].to <= r.Applied() :: Sees(o, r.ranges[j]) {
      forall i | r.reported <= i < |r.ranges| && r.ranges[i].to <= r.Applied() ensures i < Sync(r).reported {
        forall j | r.reported <= j <= i ensures Sees(o, r.ranges[j]) {
          BoundaryIncreases(r.area, r.ranges, |r.log|, j + 1, i + 1);
        }
      }
    }
  }

  /** The tail has not come round to the first journal that is not reported. */
  ghost predicate NotOvertaken(r: Ring)
    requires r.area.Valid()
  {
    r.reported < |r.ranges| ==> |r.log| < r.ranges[r.reported].from + r.area.Blocks()
  }

  /** The reported transactions are exactly those that the host can know to be applied. */
  ghost predicate Complete(r: Ring) {
    forall i | 0 <= i < |r.ranges| :: i < r.reported <==> r.ranges[i].to <= r.observed
  }

  /** As long as the tail has not come round, a poll reports exactly the applied transactions, wherever the head is. */
  lemma PollReportsApplied(r: Ring, i: nat)
    requires Inv(r) && NotOvertaken(r) && r.observed < r.Applied() && r.reported <= i < |r.ranges|
    ensures i < Sync(r).reported <==> r.ranges[i].to <= r.Applied()
  {
    hide Area.Pos, Contents, Describes, Sees, Sync, Observe, NotOvertaken;
    ReportedIsApplied(r, i);
    PollReportsExactly(r, i);
    if r.ranges[i].to <= r.Applied() {
      forall j | r.reported <= j <= i ensures Sees(Observe(r), r.ranges[j]) {
        BoundaryIncreases(r.area, r.ranges, |r.log|, j + 1, i + 1);
        StillExact(r, j);
      }
    }
  }

  lemma ReportedIsApplied(r: Ring, i: nat)
    requires Inv(r) && i < |r.ranges|
    ensures Sync(r).ranges == r.ranges && Sync(r).observed == r.Applied()
    ensures i < Sync(r).reported ==> r.ranges[i].to <= r.Applied()
    ensures r.reported <= Sync(r).reported
  {
    hide Area.Pos, Contents, Describes, Tiled, AppliedFront, Released;
    SyncInv(r);
  }

  lemma StillExact(r: Ring, j: nat)
    requires Inv(r) && NotOvertaken(r) && r.reported <= j < |r.ranges| && r.ranges[j].to <= r.Applied()
    ensures Counters(Observe(r)) && Sees(Observe(r), r.ranges[j])
  {
    hide Area.Pos, Area.Slot, TxRecord.IsApplied, Released, Contents, Describes, Sees;
    ObserveInv(r);
    var o := Observe(r);
    RangeAt(o, j);
    BoundaryIncreases(r.area, r.ranges, |r.log|, r.reported, j);
    if r.reported > 0 { assert r.ranges[r.reported].from == r.ranges[r.reported - 1].to; }
    IsAppliedIsExact(o, o.ranges[j], o.host.records[j - r.reported]);
    AppliedTestExactly(o, o.ranges[j], o.host.records[j - r.reported]);
  }

  /** A poll that finds the SSD between two journals reports every journal the SSD has applied. */
  lemma AlignedSyncReportsAll(r: Ring, j: nat)
    requires Inv(r) && UpToDate(r)
    requires j <= |r.ranges| && r.Applied() == Boundary(r.ranges, j)
    ensures
      var r' := Sync(r);
      r'.reported == j && r'.observed == r.Applied() && r'.ranges == r.ranges && UpToDate(r')
  {
    hide Area.Pos, Area.Slot, TxRecord.IsApplied, Tiled, Released, Contents, Describes;
    ObserveKeepsCounters(r);
    if j < r.reported {
      BoundaryIncreases(r.area, r.ranges, |r.log|, j, r.reported);
      assert false;
    }
    BoundaryIncreases(r.area, r.ranges, |r.log|, r.reported, j);
    if r.observed < r.Applied() {
      FirstUnreported(r);
      if j > r.reported { PollReportsApplied(r, j - 1); }
      if j < |r.ranges| {
        BoundaryIncreases(r.area, r.ranges, |r.log|, j, j + 1);
        PollReportsApplied(r, j);
      }
    }
  }

  lemma FirstUnreported(r: Ring)
    requires Inv(r) && UpToDate(r)
    ensures NotOvertaken(r)
  {
    hide Area.Pos, Contents, Describes;
    if r.reported < |r.ranges| { RangeAt(r, r.reported); }
  }

  /** Each poll of the run happens while the SSD stands between two journals. */
  ghost predicate AlignedRun(r: Ring, steps: seq<Step>)
    requires Inv(r)
  {
    steps == [] ||
    var init := steps[..|steps| - 1];
    var r' := Run(r, init);
    && AlignedRun(r, init)
    && (steps[|steps| - 1] == SSync ==> exists j :: 0 <= j <= |r'.ranges| && r'.Applied() == Boundary(r'.ranges, j))
  }

  /** In such a run no applied transaction is ever left unreported by a poll. */
  lemma {:induction false} AlignedRunUpToDate(a: Area, mem: map<nat, Block>, steps: seq<Step>)
    requires a.Valid() && Inv(Init(a, mem)) && AlignedRun(Init(a, mem), steps)
    ensures UpToDate(Run(Init(a, mem), steps))
  {
    hide Inv, Next;
    assert Init(a, mem).reported == 0 && Init(a, mem).observed == 0;
    if steps != [] {
      var init, last := steps[..|steps| - 1], steps[|steps| - 1];
      AlignedRunUpToDate(a, mem, init);
      var r := Run(Init(a, mem), init);
      match last {
        case SSync =>
          var j: nat :| j <= |r.ranges| && r.Applied() == Boundary(r.ranges, j);
          SyncIsNext(r);
          AlignedSyncReportsAll(r, j);
        case SWrite(_, _) => OtherStepUpToDate(r, last);
        case SApply => OtherStepUpToDate(r, last);
      }
    }
  }

  lemma SyncIsNext(r: Ring)
    requires Inv(r)
    ensures Counters(r) && Next(r, SSync) == Sync(r)
  {
    hide Contents, Reports, Area.Pos, AppliedFront, Released;
  }

  /** Writing and applying leave what is reported and observed alone. */
  lemma OtherStepUpToDate(r: Ring, s: Step)
    requires Inv(r) && UpToDate(r) && s != SSync
    ensures Next(r, s).reported <= |Next(r, s).ranges| && UpToDate(Next(r, s))
  {
    hide Contents, Tiled, Describes, Area.Pos, WriteSlots;
  }

  /** No poll of the run happens after the tail has come round to a journal that is not reported. */
  ghost predicate UnovertakenRun(r: Ring, steps: seq<Step>)
    requires Inv(r)
  {
    steps == [] ||
    var init := steps[..|steps| - 1];
    UnovertakenRun(r, init) && (steps[|steps| - 1] == SSync ==> NotOvertaken(Run(r, init)))
  }

  /** In such a run the reported transactions are at all times exactly those known to be applied. */
  lemma {:induction false} UnovertakenRunIsComplete(a: Area, mem: map<nat, Block>, steps: seq<Step>)
    requires a.Valid() && Inv(Init(a, mem)) && UnovertakenRun(Init(a, mem), steps)
    ensures Complete(Run(Init(a, mem), steps))
  {
    hide Inv, Next, NotOvertaken;
    assert Complete(Init(a, mem));
    if steps != [] {
      var init, last := steps[..|steps| - 1], steps[|steps| - 1];
      UnovertakenRunIsComplete(a, mem, init);
      var r := Run(Init(a, mem), init);
      match last {
        case SSync => SyncIsNext(r); PollKeepsComplete(r);
        case SWrite(_, _) => OtherStepComplete(r, last);
        case SApply => OtherStepComplete(r, last);
      }
    }
  }

  lemma PollKeepsComplete(r: Ring)
    requires Inv(r) && NotOvertaken(r) && Complete(r)
    ensures Complete(Sync(r))
  {
    hide Contents, Reports, Area.Pos, AppliedFront, Released, NotOvertaken, Sync;
    if r.observed == r.Applied() {
      IdlePollChangesNothing(r);
    } else {
      forall i | 0 <= i < |r.ranges| ensures i < Sync(r).reported <==> r.ranges[i].to <= Sync(r).observed {
        ReportedIsApplied(r, i);
        if i >= r.reported { PollReportsApplied(r, i); }
      }
      if r.ranges != [] { ReportedIsApplied(r, 0); } else { NothingWritten(r); }
    }
  }

  lemma NothingWritten(r: Ring)
    requires Inv(r) && r.ranges == []
    ensures Sync(r).ranges == []
  {
  }

  lemma OtherStepComplete(r: Ring, s: Step)
    requires Inv(r) && Complete(r) && s != SSync
    ensures Complete(Next(r, s))
  {
    hide Contents, Tiled, Describes, Area.Pos, WriteSlots;
  }

  // ----- when an applied transaction is not reported -----

  /** With nothing new applied a poll changes nothing, so what it left unreported stays so. */
  lemma IdlePollChangesNothing(r: Ring)
    requires Inv(r) && r.observed == r.Applied()
    ensures Sync(r) == r
  {
    ObserveKeepsCounters(r);
  }

  function ApplyMany(r: Ring, n: nat): (r': Ring)
    requires Inv(r)
    ensures Inv(r') && r'.area == r.area
  {
    if n == 0 then r else Next(ApplyMany(r, n - 1), SApply)
  }

  lemma {:induction false} ApplyManyEffect(r: Ring, n: nat)
    requires Inv(r) && r.Applied() + n <= |r.log|
    ensures
      var r' := ApplyMany(r, n);
      && r'.host == r.host && r'.log == r.log && r'.ranges == r.ranges
      && r'.observed == r.observed && r'.reported == r.reported
      && r'.Applied() == r.Applied() + n
  {
    hide Inv;
    if n > 0 {
      ApplyManyEffect(r, n - 1);
    }
  }

  /** The host's view after a write, some applied blocks and a poll. */
  lemma WriteApplyPoll(r: Ring, tx: nat, bs: seq<Block>, n: nat) returns (r': Ring)
    requires Inv(r) && r.observed == r.Applied()
    requires bs != [] && |bs| <= r.host.avail && r.Applied() + n <= |r.log| + |bs|
    ensures r' == Next(ApplyMany(Next(r, SWrite(tx, bs)), n), SSync)
    ensures Inv(r') && r'.area == r.area
    ensures r'.log == r.log + bs && r'.Applied() == r.Applied() + n == r'.observed
    ensures |r'.ranges| == |r.ranges| + 1
    ensures
      var h := Synced(r.area, Written(r.area, r.host, tx, |bs|), r.area.Pos(r.Applied() + n));
      var k := if n == 0 then 0 else AppliedFront(h.records, h.head, h.tail);
      r'.host == h.(records := h.records[k..]) && r'.reported == r.reported + k
  {
    hide Contents, Reports, Area.Pos, Area.Slot, AppliedFront, Released, WriteSlots;
    var w := Next(r, SWrite(tx, bs));
    ApplyManyEffect(w, n);
    var m := ApplyMany(w, n);
    ObserveKeepsCounters(m);
    r' := Next(m, SSync);
  }

  /**
   The comment beside the applied test claims that the tail cannot re-enter a journal whose record
   is still listed. It can, after a poll inside a journal. On every ring, and for whatever blocks: a
   journal of two blocks polled after one, then one that fills the rest. Both end up applied in full,
   the ring is empty, neither is reported, and polling again changes nothing. Only a further journal
   that moves the head on lets the test recognise them.
   */
  lemma MisalignedPollLeavesUnreported(a: Area, mem: map<nat, Block>, first: seq<Block>, second: seq<Block>, third: seq<Block>)
    returns (r1: Ring, r2: Ring, r3: Ring)
    requires a.Valid() && a.origin + 2 < a.end && |first| == |third| == 2 && |second| == a.Blocks() - 2
    ensures Inv(Init(a, mem)) && Inv(r1) && Inv(r2)
    ensures r1 == Next(ApplyMany(Next(Init(a, mem), SWrite(1, first)), 1), SSync)
    ensures r2 == Next(ApplyMany(Next(r1, SWrite(2, second)), a.Blocks() - 1), SSync)
    ensures r2.Applied() == |r2.log| == a.Blocks() && r2.host.avail == a.Blocks() - 1
    ensures r2.reported == 0 && |r2.ranges| == 2 && Sync(r2) == r2
    ensures r3 == Next(ApplyMany(Next(r2, SWrite(3, third)), 2), SSync) && r3.reported == |r3.ranges| == 3
  {
    hide Inv, Next, ApplyMany, Area.Pos, Area.Slot, Synced, Written, AppliedFront, Sync;
    var n, o := a.Blocks(), a.origin;
    InitInv(a, mem);
    var r0 := Init(a, mem);
    StartPositions(a);
    r1 := WriteApplyPoll(r0, 1, first, 1);
    assert r1.host == Host(o + 1, o + 2, n - 2, [TxRecord(1, o, o + 2)]) && r1.reported == 0 by { FirstPoll(a); }
    r2 := WriteApplyPoll(r1, 2, second, n - 1);
    assert r2.host == Host(o, o, n - 1, [TxRecord(1, o, o + 2), TxRecord(2, o + 2, o)]) && r2.reported == 0 by { SecondPoll(a); }
    IdlePollChangesNothing(r2);
    r3 := WriteApplyPoll(r2, 3, third, 2);
    ThirdPoll(a);
  }

  lemma StartPositions(a: Area)
    requires a.Valid() && a.origin + 2 < a.end
    ensures a.Pos(0) == a.origin && a.Pos(1) == a.origin + 1 && a.Pos(a.Blocks()) == a.origin && a.Pos(a.Blocks() + 2) == a.origin + 2
  {
    PosSlot(a, 0, 1);
    PosSlot(a, 0, a.Blocks());
    PosSlot(a, a.Blocks(), 2);
  }

  lemma FirstPoll(a: Area)
    requires a.Valid() && a.origin + 2 < a.end
    ensures
      var o, n := a.origin, a.Blocks();
      var h := Synced(a, Written(a, Host(o, o, n - 1, []), 1, 2), o + 1);
      h == Host(o + 1, o + 2, n - 2, [TxRecord(1, o, o + 2)]) && AppliedFront(h.records, h.head, h.tail) == 0
  {
  }

  lemma SecondPoll(a: Area)
    requires a.Valid() && a.origin + 2 < a.end
    ensures
      var o, n := a.origin, a.Blocks();
      var h := Synced(a, Written(a, Host(o + 1, o + 2, n - 2, [TxRecord(1, o, o + 2)]), 2, n - 2), o);
      && h == Host(o, o, n - 1, [TxRecord(1, o, o + 2), TxRecord(2, o + 2, o)])
      && AppliedFront(h.records, h.head, h.tail) == 0
  {
  }

  lemma ThirdPoll(a: Area)
    requires a.Valid() && a.origin + 2 < a.end
    ensures
      var o, n := a.origin, a.Blocks();
      var h := Synced(a, Written(a, Host(o, o, n - 1, [TxRecord(1, o, o + 2), TxRecord(2, o + 2, o)]), 3, 2), o + 2);
      AppliedFront(h.records, h.head, h.tail) == 3
  {
    AllSeen(a);
    var o, n := a.origin, a.Blocks();
    var h := Synced(a, Written(a, Host(o, o, n - 1, [TxRecord(1, o, o + 2), TxRecord(2, o + 2, o)]), 3, 2), o + 2);
    assert h.records == [TxRecord(1, o, o + 2), TxRecord(2, o + 2, o), TxRecord(3, o, o + 2)];
  }

  lemma AllSeen(a: Area)
    requires a.Valid() && a.origin + 2 < a.end
    ensures
      var o := a.origin;
      AppliedFront([TxRecord(1, o, o + 2), TxRecord(2, o + 2, o), TxRecord(3, o, o + 2)], o + 2, o + 2) == 3
  {
    var o := a.origin;
    var rs := [TxRecord(1, o, o + 2), TxRecord(2, o + 2, o), TxRecord(3, o, o + 2)];
    assert rs[1..] == [TxRecord(2, o + 2, o), TxRecord(3, o, o + 2)];
    assert rs[1..][1..] == [TxRecord(3, o, o + 2)];
  }
}
