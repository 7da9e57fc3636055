/**
 The three metadata tables that the journal describes (NAT, SIT and the words of
 the super block) and the meaning of a journal entry: overwrite one keyed slot.
 */
module Tables {
  import opened Bytes

  /** Table entries in a 4 KB block of the device: 68 and 8 bytes each. */
  const SIT_ENTRY_PER_BLOCK := 60
  const NAT_ENTRY_PER_BLOCK := 512

  /** Where a segment's entry is: the SIT block that holds it, and the slot in that block. */
  function SitBlock(seg: u32): nat { seg / SIT_ENTRY_PER_BLOCK }
  function SitSlot(seg: u32): nat { seg % SIT_ENTRY_PER_BLOCK }

  /** Where a node id's entry is: the NAT block that holds it, and the slot in that block. */
  function NatBlock(nid: u32): nat { nid / NAT_ENTRY_PER_BLOCK }
  function NatSlot(nid: u32): nat { nid % NAT_ENTRY_PER_BLOCK }

  datatype Kind = Nats | Sits | SuperBlock

  /** A journal entry: the slot it overwrites and the slot's new bytes. */
  datatype Entry = Entry(key: u32, value: seq<byte>)

  datatype Item = Item(kind: Kind, entry: Entry)

  type Table = map<u32, seq<byte>>

  datatype Metadata = Metadata(nats: Table, sits: Table, super: Table) {
    function Get(k: Kind): Table {
      match k
      case Nats => nats
      case Sits => sits
      case SuperBlock => super
    }

    function Set(k: Kind, t: Table): Metadata {
      match k
      case Nats => this.(nats := t)
      case Sits => this.(sits := t)
      case SuperBlock => this.(super := t)
    }
  }

  // ----- replay -----

  /** Replay of entries on one table, first entry first. */
  function ReplayTable(t: Table, es: seq<Entry>): Table {
    if es == [] then t
    else
      var e := es[|es| - 1];
      ReplayTable(t, es[..|es| - 1])[e.key := e.value]
  }

  function ApplyItem(m: Metadata, i: Item): Metadata {
    m.Set(i.kind, m.Get(i.kind)[i.entry.key := i.entry.value])
  }

  /** Replay of a mixed sequence of entries, first entry first. */
  function Replay(m: Metadata, items: seq<Item>): Metadata {
    if items == [] then m
    else ApplyItem(Replay(m, items[..|items| - 1]), items[|items| - 1])
  }

  function Tag(k: Kind, es: seq<Entry>): (items: seq<Item>)
    ensures |items| == |es|
  {
    seq(|es|, i requires 0 <= i < |es| => Item(k, es[i]))
  }

  lemma TagSplit(k: Kind, es: seq<Entry>, i: nat, j: nat)
    requires i <= j <= |es|
    ensures Tag(k, es[..j]) == Tag(k, es[..i]) + Tag(k, es[i..j])
    ensures Tag(k, es[..0]) == []
  {
  }

  /** The entries of one kind, in order. */
  function Project(k: Kind, items: seq<Item>): seq<Entry> {
    if items == [] then []
    else
      var i := items[|items| - 1];
      Project(k, items[..|items| - 1]) + (if i.kind == k then [i.entry] else [])
  }

  lemma {:induction false} ReplayConcat(m: Metadata, xs: seq<Item>, ys: seq<Item>)
    ensures Replay(m, xs + ys) == Replay(Replay(m, xs), ys)
    decreases |ys|
  {
    if ys == [] {
      assert xs + ys == xs;
    } else {
      ReplayConcat(m, xs, ys[..|ys| - 1]);
      assert (xs + ys)[..|xs + ys| - 1] == xs + ys[..|ys| - 1];
    }
  }

  lemma ApplyItemGet(m: Metadata, i: Item, k: Kind)
    ensures ApplyItem(m, i).Get(k) == if i.kind == k then m.Get(k)[i.entry.key := i.entry.value] else m.Get(k)
  {
  }

  lemma ReplayTableSnoc(t: Table, es: seq<Entry>, e: Entry)
    ensures ReplayTable(t, es + [e]) == ReplayTable(t, es)[e.key := e.value]
  {
    assert (es + [e])[..|es|] == es;
  }

  /** The three tables are independent: a mixed replay is one replay per table. */
  lemma {:induction false} ReplayByKind(m: Metadata, items: seq<Item>, k: Kind)
    ensures Replay(m, items).Get(k) == ReplayTable(m.Get(k), Project(k, items))
  {
    if items != [] {
      var init, i := items[..|items| - 1], items[|items| - 1];
      ReplayByKind(m, init, k);
      ApplyItemGet(Replay(m, init), i, k);
      assert Replay(m, items) == ApplyItem(Replay(m, init), i);
      if i.kind == k {
        ReplayTableSnoc(m.Get(k), Project(k, init), i.entry);
      } else {
        assert Project(k, items) == Project(k, init) + [];
        assert Project(k, items) == Project(k, init);
      }
    }
  }

  lemma {:induction false} ProjectConcat(k: Kind, xs: seq<Item>, ys: seq<Item>)
    ensures Project(k, xs + ys) == Project(k, xs) + Project(k, ys)
    decreases |ys|
  {
    if ys == [] {
      assert xs + ys == xs;
    } else {
      ProjectConcat(k, xs, ys[..|ys| - 1]);
      assert (xs + ys)[..|xs + ys| - 1] == xs + ys[..|ys| - 1];
    }
  }

  lemma {:induction false} ProjectTag(k: Kind, j: Kind, es: seq<Entry>)
    ensures Project(k, Tag(j, es)) == if k == j then es else []
    decreases |es|
  {
    if es != [] {
      var init := es[..|es| - 1];
      ProjectTag(k, j, init);
      assert Tag(j, es)[..|es| - 1] == Tag(j, init);
      assert es == init + [es[|es| - 1]];
    }
  }

  // ----- last write wins -----

  /** The table of final values written by a sequence of entries. */
  function Overlay(es: seq<Entry>): Table {
    ReplayTable(map[], es)
  }

  /** For each key, the position of the last entry that writes it. */
  function LastIndex(es: seq<Entry>): (m: map<u32, nat>)
    ensures forall k <- m :: m[k] < |es| && es[m[k]].key == k
  {
    if es == [] then map[]
    else
      LastIndex(es[..|es| - 1])[es[|es| - 1].key := |es| - 1]
  }

  lemma {:induction false} ReplayIsOverlay(t: Table, es: seq<Entry>)
    ensures ReplayTable(t, es) == t + Overlay(es)
  {
    if es != [] {
      ReplayIsOverlay(t, es[..|es| - 1]);
    }
  }

  lemma {:induction false} OverlayByLastIndex(es: seq<Entry>)
    ensures Overlay(es).Keys == LastIndex(es).Keys
    ensures forall k <- LastIndex(es) :: Overlay(es)[k] == es[LastIndex(es)[k]].value
    ensures forall i | 0 <= i < |es| :: es[i].key in LastIndex(es) && LastIndex(es)[es[i].key] >= i
  {
    if es != [] {
      var init, last := es[..|es| - 1], es[|es| - 1];
      OverlayByLastIndex(init);
      assert LastIndex(es) == LastIndex(init)[last.key := |es| - 1];
      assert Overlay(es) == Overlay(init)[last.key := last.value];
      LastIndexStep(es, init, LastIndex(init), LastIndex(es));
      ValueStep(es, init, LastIndex(init), LastIndex(es), Overlay(init), Overlay(es));
    }
  }

  lemma LastIndexStep(es: seq<Entry>, init: seq<Entry>, before: map<u32, nat>, after: map<u32, nat>)
    requires es != [] && init == es[..|es| - 1] && after == before[es[|es| - 1].key := |es| - 1]
    requires forall i | 0 <= i < |init| :: init[i].key in before && before[init[i].key] >= i
    ensures forall i | 0 <= i < |es| :: es[i].key in after && after[es[i].key] >= i
  {
    forall i | 0 <= i < |es| ensures es[i].key in after && after[es[i].key] >= i {
      if i < |init| { assert init[i] == es[i]; }
    }
  }

  lemma ValueStep(es: seq<Entry>, init: seq<Entry>, before: map<u32, nat>, after: map<u32, nat>, was: Table, now: Table)
    requires es != [] && init == es[..|es| - 1]
    requires after == before[es[|es| - 1].key := |es| - 1] && now == was[es[|es| - 1].key := es[|es| - 1].value]
    requires was.Keys == before.Keys && forall k <- before :: before[k] < |init| && was[k] == init[before[k]].value
    ensures now.Keys == after.Keys && forall k <- after :: after[k] < |es| && now[k] == es[after[k]].value
  {
  }

  predicate DistinctKeys(es: seq<Entry>) {
    forall i, j | 0 <= i < j < |es| :: es[i].key != es[j].key
  }

  /** `out` lists each key of `es` once, with the last value `es` gives it; any order. */
  ghost predicate Merges(out: seq<Entry>, es: seq<Entry>) {
    && DistinctKeys(out)
    && (forall k :: k in LastIndex(es) <==> exists i :: 0 <= i < |out| && out[i].key == k)
    && (forall i | 0 <= i < |out| :: out[i].key in LastIndex(es) && out[i] == es[LastIndex(es)[out[i].key]])
  }

  lemma {:induction false} OverlayOfDistinct(es: seq<Entry>)
    requires DistinctKeys(es)
    ensures forall i | 0 <= i < |es| :: es[i].key in Overlay(es) && Overlay(es)[es[i].key] == es[i].value
    ensures forall k <- Overlay(es) :: exists i :: 0 <= i < |es| && es[i].key == k
  {
    if es != [] {
      var init := es[..|es| - 1];
      OverlayOfDistinct(init);
      forall k <- Overlay(es) ensures exists i :: 0 <= i < |es| && es[i].key == k {
        if k in Overlay(init) {
          var i :| 0 <= i < |init| && init[i].key == k;
          assert es[i].key == k;
        } else {
          assert es[|es| - 1].key == k;
        }
      }
    }
  }

  /** Merging and reordering entries of one table does not change what they do. */
  lemma MergePreservesReplay(t: Table, out: seq<Entry>, es: seq<Entry>)
    requires Merges(out, es)
    ensures ReplayTable(t, out) == ReplayTable(t, es)
  {
    ReplayIsOverlay(t, out);
    ReplayIsOverlay(t, es);
    MergeOverlay(out, es);
  }

  lemma MergeOverlay(out: seq<Entry>, es: seq<Entry>)
    requires Merges(out, es)
    ensures Overlay(out) == Overlay(es)
  {
    hide LastIndex, Overlay, ReplayTable;
    var last, a, b := LastIndex(es), Overlay(out), Overlay(es);
    assert b.Keys == last.Keys && forall k <- last :: b[k] == es[last[k]].value by {
      OverlayByLastIndex(es);
    }
    OverlayOfDistinct(out);
    forall k | k in a || k in b ensures k in a && k in b && a[k] == b[k] {
      var i :| 0 <= i < |out| && out[i].key == k;
      assert out[i] == es[last[k]];
    }
  }
}
