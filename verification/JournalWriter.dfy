/**
 The journal writer: merges the entries of a transaction, packs them into 4 KB blocks and
 closes the journal with an END record. Blocks are reused from one journal to the next, so
 everything after the last record of a block is left over from earlier journals.
 */
module JournalWriter {
  import opened Bytes
  import opened Tables
  import opened JournalFormat
  import opened Seqs

  /** The entries one transaction accumulated, one list per table. */
  datatype Journal = Journal(sits: seq<Entry>, nats: seq<Entry>, super: seq<Entry>) {
    predicate WellFormed() {
      WellSized(Sits, sits) && WellSized(Nats, nats) && WellSized(SuperBlock, super)
    }

    function Of(k: Kind): seq<Entry> {
      match k
      case Sits => sits
      case Nats => nats
      case SuperBlock => super
    }
  }

  /** Replay of the raw entries of a transaction. */
  function RawReplay(m: Metadata, j: Journal): Metadata {
    Metadata(ReplayTable(m.nats, j.nats), ReplayTable(m.sits, j.sits), ReplayTable(m.super, j.super))
  }

  /** Any append history with these per-table lists means the same, however the tables interleave. */
  lemma RawReplayIsHistory(m: Metadata, j: Journal, history: seq<Item>)
    requires forall k: Kind :: Project(k, history) == j.Of(k)
    ensures RawReplay(m, j) == Replay(m, history)
  {
    hide Replay, Project, ReplayTable;
    ReplayByKind(m, history, Sits);
    ReplayByKind(m, history, Nats);
    ReplayByKind(m, history, SuperBlock);
    assert Project(Sits, history) == j.Of(Sits);
    assert Project(Nats, history) == j.Of(Nats);
    assert Project(SuperBlock, history) == j.Of(SuperBlock);
  }

  // ----- packing -----

  /** `n` entries can be written into `size` bytes: they fill them, or leave room for a NOP header. */
  predicate Fits(size: nat, entrySize: nat, n: nat) {
    var used := HEADER + n * entrySize;
    used == size || used + HEADER <= size
  }

  /** How many of `expected` entries go into a record of at most `size` bytes. */
  function WritableEntries(size: nat, entrySize: nat, expected: nat): (n: nat)
    requires entrySize > 0
    decreases HEADER + expected * entrySize > size
  {
    var len := HEADER + expected * entrySize;
    if len < size then
      if size - len >= HEADER then expected
      else if size > 2 * HEADER then (size - 2 * HEADER) / entrySize
      else 0
    else if len == size then expected
    else if size < HEADER then 0
    else
      FloorMul(size - HEADER, entrySize);
      WritableEntries(size, entrySize, (size - HEADER) / entrySize)
  }

  lemma FloorMul(a: nat, b: nat)
    requires b > 0
    ensures a / b * b <= a < a / b * b + b
  {
  }

  lemma MulMonotone(a: nat, b: nat, m: nat)
    requires a <= b
    ensures a * m <= b * m
  {
  }

  /** The packing count is the largest count that fits, or 0 when no positive count does. */
  lemma {:induction false} WritableEntriesIsLargest(size: nat, entrySize: nat, expected: nat)
    requires entrySize > 0
    ensures
      var n := WritableEntries(size, entrySize, expected);
      && n <= expected
      && (n > 0 ==> Fits(size, entrySize, n))
      && forall k :: n < k <= expected ==> !Fits(size, entrySize, k)
    decreases HEADER + expected * entrySize > size
  {
    var n := WritableEntries(size, entrySize, expected);
    var len := HEADER + expected * entrySize;
    if len <= size {
      if len < size && size - len < HEADER {
        LargestBelowFull(size, entrySize, expected);
      }
    } else if size < HEADER {
      forall k | n < k <= expected ensures !Fits(size, entrySize, k) {
        assert k * entrySize >= 0;
      }
    } else {
      var m := (size - HEADER) / entrySize;
      FloorMul(size - HEADER, entrySize);
      WritableEntriesIsLargest(size, entrySize, m);
      LargestAboveFull(size, entrySize, expected, m);
    }
  }

  lemma LargestAboveFull(size: nat, entrySize: nat, expected: nat, m: nat)
    requires entrySize > 0
    requires HEADER + m * entrySize <= size < HEADER + m * entrySize + entrySize
    requires size < HEADER + expected * entrySize
    ensures m <= expected
    ensures forall k :: m < k <= expected ==> !Fits(size, entrySize, k)
  {
    if m > expected {
      MulMonotone(expected, m, entrySize);
      assert false;
    }
    forall k | m < k <= expected ensures !Fits(size, entrySize, k) {
      MulMonotone(m + 1, k, entrySize);
      assert (m + 1) * entrySize == m * entrySize + entrySize;
    }
  }

  lemma LargestBelowFull(size: nat, entrySize: nat, expected: nat)
    requires entrySize > 0
    requires HEADER + expected * entrySize < size < 2 * HEADER + expected * entrySize
    ensures
      var n := WritableEntries(size, entrySize, expected);
      && n <= expected
      && (n > 0 ==> Fits(size, entrySize, n))
      && forall k :: n < k <= expected ==> !Fits(size, entrySize, k)
  {
    var n := WritableEntries(size, entrySize, expected);
    var room := if size > 2 * HEADER then size - 2 * HEADER else 0;
    FloorMul(room, entrySize);
    if n > expected {
      MulMonotone(expected + 1, n, entrySize);
      assert false;
    }
    forall k | n < k <= expected ensures !Fits(size, entrySize, k) {
      MulMonotone(k, expected, entrySize);
      MulMonotone(n + 1, k, entrySize);
      assert (n + 1) * entrySize == n * entrySize + entrySize;
    }
  }

  /** The packing count for entries of one kind. */
  function Writable(k: Kind, size: nat, expected: nat): (n: nat) {
    match k
    case Nats => WritableEntries(size, 12, expected)
    case Sits => WritableEntries(size, 72, expected)
    case SuperBlock => WritableEntries(size, 8, expected)
  }

  predicate Room(k: Kind, size: nat, n: nat) {
    var used := HEADER + Size(k, n);
    used == size || used + HEADER <= size
  }

  /** `n` is the largest count up to `expected` that fills the space or leaves room for a header. */
  ghost predicate Largest(k: Kind, size: nat, expected: nat, n: nat) {
    && n <= expected
    && (n > 0 ==> Room(k, size, n))
    && forall m :: n < m <= expected ==> !Room(k, size, m)
  }

  lemma WritableIsLargest(k: Kind, size: nat, expected: nat)
    ensures Largest(k, size, expected, Writable(k, size, expected))
  {
    WritableEntriesIsLargest(size, EntrySize(k), expected);
    var n := Writable(k, size, expected);
    forall m | n < m <= expected ensures !Room(k, size, m) {
      assert !Fits(size, EntrySize(k), m);
    }
  }

  method CountWritable(k: Kind, size: nat, expected: nat) returns (n: nat)
    ensures Largest(k, size, expected, n)
    ensures size == BLOCK && expected > 0 ==> n > 0
  {
    n := Writable(k, size, expected);
    WritableIsLargest(k, size, expected);
    assert Room(k, BLOCK, 1);
  }

  // ----- one table's entries, merged and ready for output -----

  ghost predicate Enumerates(order: seq<u32>, keys: set<u32>) {
    && (forall i, j | 0 <= i < j < |order| :: order[i] != order[j])
    && (forall k :: k in keys <==> k in order)
  }

  ghost predicate Ascending(order: seq<u32>) {
    forall i, j | 0 <= i < j < |order| :: order[i] < order[j]
  }

  ghost predicate SortedByKey(es: seq<Entry>) {
    forall i, j | 0 <= i < j < |es| :: es[i].key < es[j].key
  }

  /** The iteration order of the map: by key for the ordered map, arbitrary for the hash map. */
  method Iterate(keys: set<u32>, ordered: bool) returns (order: seq<u32>)
    ensures Enumerates(order, keys)
    ensures ordered ==> Ascending(order)
  {
    order := [];
    var rest := keys;
    while rest != {}
      invariant rest <= keys
      invariant forall i, j | 0 <= i < j < |order| :: order[i] != order[j]
      invariant forall k :: k in keys - rest <==> k in order
      invariant ordered ==> Ascending(order) && forall i, x | 0 <= i < |order| && x in rest :: order[i] < x
      decreases rest
    {
      MinimumExists(rest);
      var k: u32 :| k in rest && (ordered ==> forall x <- rest :: k <= x);
      assert k !in order;
      order := order + [k];
      rest := rest - {k};
    }
  }

  datatype OutputState = Ok | NoEnoughBuffer | ReachEnd

  function Splice(b: seq<byte>, off: nat, s: seq<byte>): (r: seq<byte>)
    requires off + |s| <= |b|
    ensures |r| == |b|
  {
    b[..off] + s + b[off + |s|..]
  }

  /** The entries that `jmap` selects for each key of `order`. */
  function Lookup(journal: seq<Entry>, jmap: map<u32, nat>, order: seq<u32>): (es: seq<Entry>)
    requires forall i | 0 <= i < |order| :: order[i] in jmap && jmap[order[i]] < |journal|
    ensures |es| == |order|
  {
    seq(|order|, i requires 0 <= i < |order| => journal[jmap[order[i]]])
  }

  /** The merged entries of `journal` in the order of `order`. */
  ghost function Picked(journal: seq<Entry>, order: seq<u32>): (es: seq<Entry>)
    requires forall i | 0 <= i < |order| :: order[i] in LastIndex(journal)
    ensures |es| == |order|
    ensures forall i | 0 <= i < |order| :: es[i] == journal[LastIndex(journal)[order[i]]] && es[i].key == order[i]
  {
    Lookup(journal, LastIndex(journal), order)
  }

  /** The copy loop of one record: the bytes of the entries selected by the next keys. */
  method CopyEntries(journal: seq<Entry>, jmap: map<u32, nat>, keys: seq<u32>, kind: Kind) returns (data: seq<byte>)
    requires WellSized(kind, journal)
    requires forall i | 0 <= i < |keys| :: keys[i] in jmap && jmap[keys[i]] < |journal|
    ensures WellSized(kind, Lookup(journal, jmap, keys))
    ensures data == EncodeEntries(kind, Lookup(journal, jmap, keys))
  {
    data := [];
    ghost var out := Lookup(journal, jmap, keys);
    assert out[..0] == [];
    for i := 0 to |keys|
      invariant data == EncodeEntries(kind, out[..i])
    {
      var e := journal[jmap[keys[i]]];
      assert out[..i + 1] == out[..i] + [e];
      EncodeSnoc(kind, out[..i], e);
      data := data + EncodeEntry(e);
    }
    assert out[..|keys|] == out;
  }

  /** Header and entries of one record, written at `off`; the reserved header byte is uninitialised. */
  method WriteRecord(journal: seq<Entry>, jmap: map<u32, nat>, keys: seq<u32>, kind: Kind, block: seq<byte>, off: nat)
    returns (block': seq<byte>, off': nat, ghost rsv: byte)
    requires WellSized(kind, journal)
    requires forall i | 0 <= i < |keys| :: keys[i] in jmap && jmap[keys[i]] < |journal|
    requires |block| == BLOCK && off + HEADER + Size(kind, |keys|) <= BLOCK
    ensures |block'| == BLOCK && off' == off + HEADER + Size(kind, |keys|)
    ensures WellSized(kind, Lookup(journal, jmap, keys))
    ensures block' == Splice(block, off, Record(kind, Lookup(journal, jmap, keys), rsv))
  {
    var reserved: byte := *;
    rsv := reserved;
    var data := CopyEntries(journal, jmap, keys, kind);
    var record := Header(HEADER + Size(kind, |keys|), TypeCode(kind), reserved) + data;
    block', off' := Splice(block, off, record), off + |record|;
  }

  /** One record of `es` was written at `off`; what follows it is full or has room for a header. */
  ghost predicate Wrote(block: seq<byte>, off: nat, k: Kind, es: seq<Entry>, rsv: byte, block': seq<byte>, off': nat) {
    && |block'| == |block| == BLOCK
    && WellSized(k, es)
    && off' == off + HEADER + Size(k, |es|) <= BLOCK
    && (off' == BLOCK || off' <= BLOCK - HEADER)
    && block' == Splice(block, off, Record(k, es, rsv))
  }

  lemma PickedMerges(journal: seq<Entry>, order: seq<u32>)
    requires Enumerates(order, LastIndex(journal).Keys)
    ensures Merges(Picked(journal, order), journal)
  {
    var out := Picked(journal, order);
    forall k ensures k in LastIndex(journal) <==> exists i :: 0 <= i < |out| && out[i].key == k {
      if k in LastIndex(journal) {
        assert k in order;
        var i :| 0 <= i < |order| && order[i] == k;
        assert out[i].key == k;
      }
    }
  }

  lemma EncodeSnoc(k: Kind, before: seq<Entry>, e: Entry)
    requires WellSized(k, before) && |e.value| == EntrySize(k) - 4
    ensures WellSized(k, before + [e])
    ensures EncodeEntries(k, before + [e]) == EncodeEntries(k, before) + EncodeEntry(e)
  {
    EncodeEntriesConcat(k, before, [e]);
    assert [e][1..] == [];
    assert EncodeEntry(e) + [] == EncodeEntry(e);
  }

  class OutputVector {
    const journal: seq<Entry>
    const kind: Kind
    var jmap: map<u32, nat>
    var order: seq<u32>
    var pos: nat
    ghost var out: seq<Entry>  // the merged entries in output order

    ghost predicate Valid()
      reads this
    {
      && pos <= |order|
      && WellSized(kind, journal)
      && (forall i | 0 <= i < |order| :: order[i] in jmap && jmap[order[i]] < |journal|)
      && out == Lookup(journal, jmap, order)
    }

    constructor (journal: seq<Entry>, kind: Kind)
      ensures this.journal == journal && this.kind == kind
    {
      this.journal := journal;
      this.kind := kind;
      jmap, order, pos, out := map[], [], 0, [];
    }

    /** Later entries overwrite earlier ones with the same key. */
    method GenerateOutputVector()
      modifies this`jmap
      ensures jmap == LastIndex(journal)
    {
      jmap := map[];
      for i := 0 to |journal|
        invariant jmap == LastIndex(journal[..i])
      {
        assert journal[..i + 1][..i] == journal[..i];
        jmap := jmap[journal[i].key := i];
      }
      assert journal[..|journal|] == journal;
    }

    method PrepareOutput()
      requires WellSized(kind, journal) && jmap == LastIndex(journal)
      modifies this`order, this`pos, this`out
      ensures Valid() && pos == 0
      ensures Merges(out, journal)
      ensures kind != SuperBlock ==> SortedByKey(out)
    {
      order := Iterate(jmap.Keys, kind != SuperBlock);
      pos := 0;
      PickedMerges(journal, order);
      out := Picked(journal, order);
    }

    /** Writes as many of the remaining entries as fit behind `off` as one record. */
    method OutputToBuffer(block: seq<byte>, off: nat)
      returns (state: OutputState, block': seq<byte>, off': nat, ghost rsv: byte)
      requires Valid()
      requires |block| == BLOCK && off <= BLOCK - HEADER
      modifies this`pos
      ensures Valid()
      ensures state == ReachEnd <==> old(pos) == |order|
      ensures old(pos) < |order| ==>
        && old(pos) <= pos
        && Largest(kind, BLOCK - off, |order| - old(pos), pos - old(pos))
        && (state == NoEnoughBuffer <==> pos == old(pos))
      ensures state == NoEnoughBuffer ==> off > 0
      ensures state != Ok ==> pos == old(pos) && off' == off && block' == block
      ensures state == Ok ==> old(pos) < pos && Wrote(block, off, kind, out[old(pos)..pos], rsv, block', off')
    {
      if pos == |order| {
        return ReachEnd, block, off, 0;
      }
      var n := CountWritable(kind, BLOCK - off, |order| - pos);
      if n == 0 {
        return NoEnoughBuffer, block, off, 0;
      }
      ghost var es := out[pos..pos + n];
      assert Lookup(journal, jmap, order[pos..pos + n]) == es;
      block', off', rsv := WriteRecord(journal, jmap, order[pos..pos + n], kind, block, off);
      pos := pos + n;
      state := Ok;
    }
  }

  // ----- a whole journal -----

  /** A block that is completely used: full of records, or padded by a NOP of the right length. */
  ghost predicate Closed(b: seq<byte>) {
    var d := DecodeBlock(b);
    d.Decoded? && (d.stop == Full || d.stop == Nop(true))
  }

  /** The three tables' merged entries as they are laid out: SIT by segment, NAT by nid, then super block. */
  ghost predicate MergedItems(j: Journal, items: seq<Item>, s: seq<Entry>, n: seq<Entry>, p: seq<Entry>) {
    && Merges(s, j.sits) && Merges(n, j.nats) && Merges(p, j.super)
    && SortedByKey(s) && SortedByKey(n)
    && items == Tag(Sits, s) + Tag(Nats, n) + Tag(SuperBlock, p)
  }

  /** `bs` is a journal on disk for `j`: closed blocks, then one block that an END record ends. */
  ghost predicate Encodes(j: Journal, bs: seq<seq<byte>>) {
    && bs != []
    && (forall i | 0 <= i < |bs| :: |bs[i]| == BLOCK)
    && (forall i | 0 <= i < |bs| - 1 :: Closed(bs[i]))
    && DecodeBlock(bs[|bs| - 1]).Decoded? && DecodeBlock(bs[|bs| - 1]).stop == End(true)
    && exists s, n, p :: MergedItems(j, ItemsOf(bs), s, n, p)
  }

  lemma MergedItemsReplay(m: Metadata, j: Journal, items: seq<Item>, s: seq<Entry>, n: seq<Entry>, p: seq<Entry>)
    requires MergedItems(j, items, s, n, p)
    ensures Replay(m, items) == RawReplay(m, j)
  {
    hide Replay, Project, Tag, ReplayTable, Merges;
    var merged := Journal(s, n, p);
    forall k: Kind ensures Project(k, items) == merged.Of(k) {
      ProjectConcat(k, Tag(Sits, s) + Tag(Nats, n), Tag(SuperBlock, p));
      ProjectConcat(k, Tag(Sits, s), Tag(Nats, n));
      ProjectTag(k, Sits, s);
      ProjectTag(k, Nats, n);
      ProjectTag(k, SuperBlock, p);
    }
    RawReplayIsHistory(m, merged, items);
    MergePreservesReplay(m.sits, s, j.sits);
    MergePreservesReplay(m.nats, n, j.nats);
    MergePreservesReplay(m.super, p, j.super);
  }

  /** Decoding the written blocks and replaying them has the effect of the raw entries, on every state. */
  lemma EncodedReplay(m: Metadata, j: Journal, bs: seq<seq<byte>>)
    requires Encodes(j, bs)
    ensures Replay(m, ItemsOf(bs)) == RawReplay(m, j)
  {
    var s, n, p :| MergedItems(j, ItemsOf(bs), s, n, p);
    MergedItemsReplay(m, j, ItemsOf(bs), s, n, p);
  }

  /**
   The writer's buffer after some records: blocks before `idx` are closed, the first `off` bytes
   of block `idx` decode to `part`, and whatever else the blocks hold is stale.
   */
  ghost predicate Filled(blocks: seq<seq<byte>>, idx: nat, off: nat, part: seq<Item>)
    ensures Filled(blocks, idx, off, part) ==> idx <= |blocks|
  {
    && (forall i | 0 <= i < |blocks| :: |blocks[i]| == BLOCK)
    && idx <= |blocks|
    && off <= BLOCK - HEADER
    && (idx == |blocks| ==> off == 0)
    && (forall i | 0 <= i < idx :: Closed(blocks[i]))
    && Parses(if idx < |blocks| then blocks[idx][..off] else [], part)
  }

  ghost function Emitted(blocks: seq<seq<byte>>, idx: nat, part: seq<Item>): seq<Item>
    requires idx <= |blocks|
  {
    ItemsOf(blocks[..idx]) + part
  }

  lemma FilledInitially(blocks: seq<seq<byte>>)
    requires forall i | 0 <= i < |blocks| :: |blocks[i]| == BLOCK
    ensures Filled(blocks, 0, 0, []) && Emitted(blocks, 0, []) == []
  {
    ParsesNothing();
    assert |blocks| > 0 ==> blocks[0][..0] == [];
  }

  lemma CloseBlock(blocks: seq<seq<byte>>, idx: nat, off: nat, part: seq<Item>, b: seq<byte>, items: seq<Item>)
    requires Filled(blocks, idx, off, part) && idx < |blocks|
    requires |b| == BLOCK && Closed(b) && DecodeBlock(b).items == items
    ensures
      var blocks' := blocks[idx := b];
      Filled(blocks', idx + 1, 0, []) && Emitted(blocks', idx + 1, []) == ItemsOf(blocks[..idx]) + items
  {
    hide DecodeBlock, ItemsOf, Parses;
    var blocks' := blocks[idx := b];
    assert blocks'[..idx + 1] == blocks[..idx] + [b];
    ItemsOfConcat(blocks[..idx], [b]);
    ItemsOfOne(b);
    ParsesNothing();
    assert idx + 1 < |blocks'| ==> blocks'[idx + 1][..0] == [];
    forall i | 0 <= i < idx + 1 ensures Closed(blocks'[i]) {
      if i < idx { assert blocks'[i] == blocks[i]; }
    }
  }

  lemma AfterRecord(blocks: seq<seq<byte>>, idx: nat, off: nat, part: seq<Item>,
                    k: Kind, es: seq<Entry>, rsv: byte, b: seq<byte>, off': nat)
    requires Filled(blocks, idx, off, part) && idx < |blocks|
    requires es != [] && Wrote(blocks[idx], off, k, es, rsv, b, off')
    ensures
      var blocks', part' := blocks[idx := b], part + Tag(k, es);
      if off' == BLOCK then
        && Filled(blocks', idx + 1, 0, [])
        && Emitted(blocks', idx + 1, []) == Emitted(blocks, idx, part) + Tag(k, es)
      else
        && Filled(blocks', idx, off', part')
        && Emitted(blocks', idx, part') == Emitted(blocks, idx, part) + Tag(k, es)
  {
    hide DecodeBlock, ItemsOf, Parses, Record, Tag;
    var blocks', part' := blocks[idx := b], part + Tag(k, es);
    var r := Record(k, es, rsv);
    assert b[..off'] == blocks[idx][..off] + r;
    ParsesAppend(blocks[idx][..off], part, k, es, rsv);
    assert Emitted(blocks, idx, part) + Tag(k, es) == ItemsOf(blocks[..idx]) + part';
    if off' == BLOCK {
      assert b[..off'] == b;
      DecodeFull(b, part');
      CloseBlock(blocks, idx, off, part, b, part');
    } else {
      assert blocks'[..idx] == blocks[..idx];
      forall i | 0 <= i < idx ensures Closed(blocks'[i]) {
        assert blocks'[i] == blocks[i];
      }
    }
  }

  lemma AfterNop(blocks: seq<seq<byte>>, idx: nat, off: nat, part: seq<Item>)
    requires Filled(blocks, idx, off, part) && idx < |blocks|
    ensures
      var b := Splice(blocks[idx], off, Header(BLOCK - off, TYPE_NOP, 0));
      var blocks' := blocks[idx := b];
      && Filled(blocks', idx + 1, 0, [])
      && Emitted(blocks', idx + 1, []) == Emitted(blocks, idx, part)
  {
    hide DecodeBlock, ItemsOf, Parses, Header;
    var b := Splice(blocks[idx], off, Header(BLOCK - off, TYPE_NOP, 0));
    DecodeClosed(blocks[idx][..off], part, BLOCK - off, TYPE_NOP, 0, blocks[idx][off + HEADER..]);
    CloseBlock(blocks, idx, off, part, b, part);
  }

  lemma AfterEnd(blocks: seq<seq<byte>>, idx: nat, off: nat, part: seq<Item>)
    requires Filled(blocks, idx, off, part) && idx < |blocks|
    ensures
      var b := Splice(blocks[idx], off, Header(HEADER, TYPE_END, 0));
      var blocks' := blocks[idx := b];
      && DecodeBlock(b) == Decoded(part, End(true))
      && ItemsOf(blocks'[..idx + 1]) == Emitted(blocks, idx, part)
  {
    hide DecodeBlock, ItemsOf, Parses, Header;
    var b := Splice(blocks[idx], off, Header(HEADER, TYPE_END, 0));
    var blocks' := blocks[idx := b];
    DecodeClosed(blocks[idx][..off], part, HEADER, TYPE_END, 0, blocks[idx][off + HEADER..]);
    assert blocks'[..idx + 1] == blocks[..idx] + [b];
    ItemsOfConcat(blocks[..idx], [b]);
    ItemsOfOne(b);
  }

  class JournalWriter {
    var buffer: seq<seq<byte>>
    var tailIdx: nat
    var tailOff: nat

    constructor ()
      ensures buffer == []
    {
      buffer, tailIdx, tailOff := [], 0, 0;
    }

    /** Makes block `tailIdx` exist; a new block buffer is zero-filled. */
    method GetTailBlock(ghost part: seq<Item>)
      requires Filled(buffer, tailIdx, tailOff, part)
      modifies this`buffer
      ensures tailIdx < |buffer| && Filled(buffer, tailIdx, tailOff, part)
      ensures Emitted(buffer, tailIdx, part) == old(Emitted(buffer, tailIdx, part))
    {
      if tailIdx >= |buffer| {
        var blank: seq<byte> := seq(BLOCK, i => 0);
        assert blank[..0] == [];
        assert (buffer + [blank])[..tailIdx] == buffer[..tailIdx];
        buffer := buffer + [blank];
      }
    }

    /** One round of the output loop: write a record, or pad the block, or notice the end. */
    method EmitOnce(v: OutputVector, ghost part: seq<Item>) returns (complete: bool, ghost part': seq<Item>)
      requires Filled(buffer, tailIdx, tailOff, part) && v.Valid()
      modifies this, v`pos
      ensures v.Valid() && old(v.pos) <= v.pos && Filled(buffer, tailIdx, tailOff, part')
      ensures Emitted(buffer, tailIdx, part') ==
              old(Emitted(buffer, tailIdx, part)) + Tag(v.kind, v.out[old(v.pos)..v.pos])
      ensures complete <==> old(v.pos) == |v.out|
      ensures complete || old(v.pos) < v.pos || (tailOff == 0 && old(tailOff) > 0)
      ensures complete ==> tailOff == old(tailOff)
    {
      hide Filled, Emitted, Tag, Splice, Header, Wrote;
      complete, part' := false, part;
      GetTailBlock(part);
      ghost var p0 := v.pos;
      var state, b, off', rsv := v.OutputToBuffer(buffer[tailIdx], tailOff);
      ghost var es := v.out[p0..v.pos];
      match state {
        case Ok =>
          AfterRecord(buffer, tailIdx, tailOff, part, v.kind, es, rsv, b, off');
          buffer, tailOff := buffer[tailIdx := b], off';
          part' := if off' == BLOCK then [] else part + Tag(v.kind, es);
        case NoEnoughBuffer =>
          AfterNop(buffer, tailIdx, tailOff, part);
          buffer := buffer[tailIdx := Splice(buffer[tailIdx], tailOff, Header(BLOCK - tailOff, TYPE_NOP, 0))];
          tailOff := BLOCK;
          part' := [];
        case ReachEnd =>
          complete := true;
      }
      if tailOff == BLOCK {
        tailIdx, tailOff := tailIdx + 1, 0;
      }
    }

    /** The output loop for one table: packs all its merged entries, padding blocks that are too short. */
    method Emit(v: OutputVector, ghost part: seq<Item>) returns (ghost part': seq<Item>)
      requires Filled(buffer, tailIdx, tailOff, part)
      requires v.Valid() && v.pos == 0
      modifies this, v`pos
      ensures Filled(buffer, tailIdx, tailOff, part')
      ensures Emitted(buffer, tailIdx, part') == old(Emitted(buffer, tailIdx, part)) + Tag(v.kind, v.out)
    {
      hide Filled, Emitted, Tag, Splice, Header, Wrote;
      part' := part;
      ghost var before := Emitted(buffer, tailIdx, part);
      TagSplit(v.kind, v.out, 0, 0);
      var complete := false;
      while !complete
        invariant v.Valid() && Filled(buffer, tailIdx, tailOff, part')
        invariant Emitted(buffer, tailIdx, part') == before + Tag(v.kind, v.out[..v.pos])
        invariant complete ==> v.pos == |v.out|
        decreases |v.out| - v.pos, tailOff, !complete
      {
        ghost var p0 := v.pos;
        complete, part' := EmitOnce(v, part');
        TagSplit(v.kind, v.out, p0, v.pos);
      }
      assert v.out[..v.pos] == v.out;
    }

    method AppendEndEntry(ghost part: seq<Item>)
      requires Filled(buffer, tailIdx, tailOff, part)
      modifies this`buffer
      ensures tailIdx < |buffer|
      ensures forall i | 0 <= i < |buffer| :: |buffer[i]| == BLOCK
      ensures forall i | 0 <= i < tailIdx :: Closed(buffer[i])
      ensures DecodeBlock(buffer[tailIdx]) == Decoded(part, End(true))
      ensures ItemsOf(buffer[..tailIdx + 1]) == old(Emitted(buffer, tailIdx, part))
    {
      GetTailBlock(part);
      AfterEnd(buffer, tailIdx, tailOff, part);
      buffer := buffer[tailIdx := Splice(buffer[tailIdx], tailOff, Header(HEADER, TYPE_END, 0))];
    }

    /** Collects a journal into the write buffer; returns the number of blocks used. */
    method Collect(j: Journal) returns (n: nat)
      requires j.WellFormed()
      requires forall i | 0 <= i < |buffer| :: |buffer[i]| == BLOCK
      modifies this
      ensures 1 <= n <= |buffer| && n == tailIdx + 1
      ensures forall i | 0 <= i < |buffer| :: |buffer[i]| == BLOCK
      ensures Encodes(j, buffer[..n])
    {
      hide Filled, Emitted, Tag, Closed, DecodeBlock, ItemsOf, Merges, SortedByKey, Parses;
      tailIdx, tailOff := 0, 0;
      ghost var part: seq<Item> := [];
      FilledInitially(buffer);
      ghost var s, m, p: seq<Entry>;
      part, s := EmitKind(Sits, j.sits, part);
      part, m := EmitKind(Nats, j.nats, part);
      part, p := EmitKind(SuperBlock, j.super, part);
      AppendEndEntry(part);
      n := tailIdx + 1;
      assert [] + Tag(Sits, s) == Tag(Sits, s);
      assert MergedItems(j, ItemsOf(buffer[..n]), s, m, p);
    }

    /** One table of a journal; a table without entries gets no output vector. */
    method EmitKind(k: Kind, es: seq<Entry>, ghost part: seq<Item>) returns (ghost part': seq<Item>, ghost out: seq<Entry>)
      requires WellSized(k, es)
      requires Filled(buffer, tailIdx, tailOff, part)
      modifies this
      ensures Filled(buffer, tailIdx, tailOff, part')
      ensures Merges(out, es) && (k != SuperBlock ==> SortedByKey(out))
      ensures Emitted(buffer, tailIdx, part') == old(Emitted(buffer, tailIdx, part)) + Tag(k, out)
    {
      if es == [] {
        return part, [];
      }
      var v := new OutputVector(es, k);
      v.GenerateOutputVector();
      v.PrepareOutput();
      out := v.out;
      part' := Emit(v, part);
    }
  }
}
