/**
 replace_protect_manager and its task as the program runs them: the list of transactions whose
 journal is not applied yet, the set of transactions being released, and the loop over an applied
 journal that gives back one cache reference per entry.
 */
module ProtectManager {
  import opened Bytes
  import opened Tables
  import opened ReplaceProtect
  import Cache = SitNatCache
  import Nodes = NodeCache
  import NatCounts

  /** The SIT blocks of a journal's SIT entries, one per entry. */
  function SitBlocks(es: seq<Entry>): seq<nat> { seq(|es|, i requires 0 <= i < |es| => SitBlock(es[i].key)) }

  /** Releasing the SIT blocks one by one gives back what the protocol counts. */
  lemma {:induction false} SitBlocksCount(es: seq<Entry>, l: nat)
    ensures multiset(SitBlocks(es))[l] == Count(es, l)
  {
    if es != [] {
      var init := es[..|es| - 1];
      SitBlocksCount(init, l);
      assert SitBlocks(es) == SitBlocks(init) + [SitBlock(es[|es| - 1].key)];
    } else {
      assert SitBlocks(es) == [];
    }
  }

  /** Every block still owes at least as many references as the list releases. */
  ghost predicate Covered(index: map<nat, CacheEntry>, blocks: seq<nat>) {
    forall l | l in multiset(blocks) :: l in index && index[l].refCount >= multiset(blocks)[l]
  }

  /** `now` is `was` with one reference less per listed block; a block that vanished owed nothing more. */
  ghost predicate Released(was: map<nat, CacheEntry>, now: map<nat, CacheEntry>, blocks: seq<nat>) {
    && (forall l | l in now :: l in was && now[l].content == was[l].content && now[l].refCount + multiset(blocks)[l] == was[l].refCount)
    && (forall l | l in was && l !in now :: was[l].refCount == multiset(blocks)[l])
  }

  /** One reference given back: block `b` loses one, whatever vanished owed nothing else. */
  ghost predicate GaveBack(now: map<nat, CacheEntry>, next: map<nat, CacheEntry>, b: nat) {
    && b in now && now[b].refCount > 0
    && (forall k | k in next :: k in now && next[k] == if k == b then now[k].(refCount := now[k].refCount - 1) else now[k])
    && (forall k | k in now && k !in next :: now[k].refCount == if k == b then 1 else 0)
  }

  lemma SplitAt(blocks: seq<nat>, i: nat, l: nat)
    requires i < |blocks|
    ensures multiset(blocks[..i + 1])[l] == multiset(blocks[..i])[l] + if l == blocks[i] then 1 else 0
    ensures multiset(blocks[i..])[l] == multiset(blocks[i + 1..])[l] + if l == blocks[i] then 1 else 0
  {
    assert blocks[..i + 1] == blocks[..i] + [blocks[i]];
    assert blocks[i..] == [blocks[i]] + blocks[i + 1..];
  }

  lemma ReleasedOneMore(was: map<nat, CacheEntry>, now: map<nat, CacheEntry>, next: map<nat, CacheEntry>, blocks: seq<nat>, i: nat)
    requires i < |blocks| && Released(was, now, blocks[..i]) && GaveBack(now, next, blocks[i])
    ensures Released(was, next, blocks[..i + 1])
  {
    var before, after := multiset(blocks[..i]), multiset(blocks[..i + 1]);
    forall l | l in was ensures after[l] == before[l] + if l == blocks[i] then 1 else 0 { SplitAt(blocks, i, l); }
  }

  lemma CoveredOneLess(now: map<nat, CacheEntry>, next: map<nat, CacheEntry>, blocks: seq<nat>, i: nat)
    requires i < |blocks| && Covered(now, blocks[i..]) && GaveBack(now, next, blocks[i])
    ensures Covered(next, blocks[i + 1..])
  {
    var rest, all := multiset(blocks[i + 1..]), multiset(blocks[i..]);
    forall l | l in rest ensures l in next && next[l].refCount >= rest[l] {
      SplitAt(blocks, i, l);
      assert l in all;
    }
  }

  /** Gives back one reference per listed block. No block is read again from the SSD, no count underflows. */
  method ReleaseAll(cache: Cache.SitNatCache, blocks: seq<nat>, onSsd: Table)
    requires cache.Valid() && Covered(cache.manager.index, blocks)
    modifies cache
    ensures cache.Valid() && Released(old(cache.manager.index), cache.manager.index, blocks)
  {
    hide Cache.Sound, Released, Covered;
    var i := 0;
    ghost var was := cache.manager.index;
    assert Released(was, was, blocks[..0]) by { ReleasedNothing(was); }
    assert blocks[0..] == blocks;
    while i < |blocks|
      invariant 0 <= i <= |blocks| && cache.Valid()
      invariant Released(was, cache.manager.index, blocks[..i]) && Covered(cache.manager.index, blocks[i..])
    {
      ghost var now := cache.manager.index;
      CoveredFirst(now, blocks, i);
      cache.AddSsdVersion(blocks[i], onSsd);
      assert GaveBack(now, cache.manager.index, blocks[i]);
      ReleasedOneMore(was, now, cache.manager.index, blocks, i);
      CoveredOneLess(now, cache.manager.index, blocks, i);
      i := i + 1;
    }
    assert blocks[..i] == blocks;
  }

  lemma ReleasedNothing(was: map<nat, CacheEntry>)
    ensures Released(was, was, [])
  {
  }

  lemma CoveredFirst(now: map<nat, CacheEntry>, blocks: seq<nat>, i: nat)
    requires i < |blocks| && Covered(now, blocks[i..])
    ensures blocks[i] in now && now[blocks[i]].refCount > 0
  {
    assert blocks[i] == blocks[i..][0];
    assert blocks[i] in multiset(blocks[i..]);
  }

  /** What the manager keeps of a transaction: its journal, its dirty node handles, and the segments it filled. */
  datatype Record = Record(txj: TxJournal, dirtyNodes: seq<nat>, nodeSegs: seq<u32>, dataSegs: seq<u32>) {
    function Tx(): nat { txj.tx }
  }

  /** Drops the handles of a transaction's dirty nodes; nodes deleted meanwhile go with their last handle. */
  method DropHandles(cache: Nodes.NodeBlockCache, nodes: seq<nat>)
    requires cache.Valid() && multiset(nodes) <= cache.handles
    modifies cache
    ensures cache.Valid() && cache.handles == old(cache.handles) - multiset(nodes)
    ensures Nodes.Logged(old(cache.manager.index), cache.manager.index, old(cache.freedNids), cache.freedNids, old(cache.garbage), cache.garbage)
  {
    hide Nodes.Sound, Nodes.Logged;
    var i := 0;
    ghost var index, nids, blks := cache.manager.index, cache.freedNids, cache.garbage;
    NothingLogged(index, nids, blks);
    assert nodes[..0] == [];
    while i < |nodes|
      invariant 0 <= i <= |nodes| && cache.Valid() && cache.handles == old(cache.handles) - multiset(nodes[..i])
      invariant Nodes.Logged(index, cache.manager.index, nids, cache.freedNids, blks, cache.garbage)
    {
      HandleLeft(nodes, i, old(cache.handles));
      ghost var index1, nids1, blks1 := cache.manager.index, cache.freedNids, cache.garbage;
      cache.SubRefcount(nodes[i]);
      Nodes.LoggedCompose(index, index1, cache.manager.index, nids, nids1, cache.freedNids, blks, blks1, cache.garbage);
      i := i + 1;
    }
    assert nodes[..i] == nodes;
  }

  lemma NothingLogged(index: Nodes.Index, nids: seq<nat>, blks: seq<nat>)
    ensures Nodes.Logged(index, index, nids, nids, blks, blks)
  {
    Nodes.LoggedNothing(index, index, nids, blks);
  }

  lemma HandleLeft(nodes: seq<nat>, i: nat, handles: multiset<nat>)
    requires i < |nodes| && multiset(nodes) <= handles
    ensures nodes[i] in handles - multiset(nodes[..i])
    ensures handles - multiset(nodes[..i]) - multiset{nodes[i]} == handles - multiset(nodes[..i + 1])
  {
    assert nodes == nodes[..i] + [nodes[i]] + nodes[i + 1..];
    assert nodes[..i + 1] == nodes[..i] + [nodes[i]];
  }

  class ReplaceProtectManager {
    var trpList: seq<Record>
    var processing: set<nat>
    var tasks: seq<Record>          // the server thread's queue

    /** Transactions appear in commit order, and none is both waiting and being released. */
    ghost predicate Valid()
      reads this
    {
      && (forall i, j | 0 <= i < j < |trpList| :: trpList[i].Tx() < trpList[j].Tx())
      && (forall i, x | 0 <= i < |trpList| && x in processing :: x < trpList[i].Tx())
    }

    constructor ()
      ensures Valid() && trpList == [] && processing == {} && tasks == []
    {
      trpList, processing, tasks := [], {}, [];
    }

    method AddTx(t: Record)
      requires Valid() && (forall i | 0 <= i < |trpList| :: trpList[i].Tx() < t.Tx()) && forall x | x in processing :: x < t.Tx()
      modifies this`trpList
      ensures Valid() && trpList == old(trpList) + [t]
    {
      trpList := trpList + [t];
    }

    /** The journal thread reports the oldest transaction; its release is queued for the server thread. */
    method NotifyCpltTx(tx: nat) returns (listEmpty: bool)
      requires Valid() && trpList != [] && trpList[0].Tx() == tx
      modifies this
      ensures Valid() && tx !in old(processing)
      ensures trpList == old(trpList)[1..] && processing == old(processing) + {tx}
      ensures tasks == old(tasks) + [old(trpList)[0]] && listEmpty == (trpList == [])
    {
      var first := trpList[0];
      trpList := trpList[1..];
      processing := processing + {first.Tx()};
      listEmpty := trpList == [];
      tasks := tasks + [first];
    }

    method MarkProtectProcessCplt(tx: nat) returns (allDone: bool)
      requires Valid() && tx in processing
      modifies this`processing
      ensures Valid() && processing == old(processing) - {tx} && allDone == (processing == {})
    {
      processing := processing - {tx};
      allDone := processing == {};
    }

    /**
     The task: one reference back per NAT and SIT entry of the applied journal, the filled segments
     handed on to their lists in order, the handles of the dirty nodes dropped, then the mark.
     */
    method RunTask(natCache: Cache.SitNatCache, sitCache: Cache.SitNatCache, nodeCache: Nodes.NodeBlockCache, onSsd: Table)
      returns (nodeSegs: seq<u32>, dataSegs: seq<u32>)
      requires Valid() && tasks != [] && tasks[0].Tx() in processing
      requires natCache != sitCache && natCache.Valid() && sitCache.Valid() && nodeCache.Valid()
      requires Covered(natCache.manager.index, NatCounts.NatBlocks(tasks[0].txj.journal.nats))
      requires Covered(sitCache.manager.index, SitBlocks(tasks[0].txj.journal.sits))
      requires multiset(tasks[0].dirtyNodes) <= nodeCache.handles
      modifies this, natCache, sitCache, nodeCache
      ensures Valid() && natCache.Valid() && sitCache.Valid() && nodeCache.Valid()
      ensures Released(old(natCache.manager.index), natCache.manager.index, NatCounts.NatBlocks(old(tasks)[0].txj.journal.nats))
      ensures Released(old(sitCache.manager.index), sitCache.manager.index, SitBlocks(old(tasks)[0].txj.journal.sits))
      ensures nodeCache.handles == old(nodeCache.handles) - multiset(old(tasks)[0].dirtyNodes)
      ensures nodeSegs == old(tasks)[0].nodeSegs && dataSegs == old(tasks)[0].dataSegs
      ensures tasks == old(tasks)[1..] && trpList == old(trpList) && processing == old(processing) - {old(tasks)[0].Tx()}
    {
      hide Cache.Sound, Nodes.Sound, Nodes.Logged, Released, Covered;
      var t := tasks[0];
      tasks := tasks[1..];
      ReleaseAll(natCache, NatCounts.NatBlocks(t.txj.journal.nats), onSsd);
      ReleaseAll(sitCache, SitBlocks(t.txj.journal.sits), onSsd);
      nodeSegs, dataSegs := t.nodeSegs, t.dataSegs;
      DropHandles(nodeCache, t.dirtyNodes);
      var _ := MarkProtectProcessCplt(t.Tx());
    }
  }

  /** In every state of the protocol a queued task's SIT references are there to be given back. */
  lemma TaskIsCovered(s: System)
    requires Inv(s) && s.tasks != []
    ensures Covered(s.cache, SitBlocks(s.tasks[0].journal.sits))
  {
    hide Listed, Encoded, Numbered, Coherent;
    var es := s.tasks[0].journal.sits;
    forall l | l in multiset(SitBlocks(es)) ensures l in s.cache && s.cache[l].refCount >= multiset(SitBlocks(es))[l] {
      SitBlocksCount(es, l);
      FirstCounts(s.tasks, l);
    }
  }

  /** So are its NAT references, in every state of the protocol with NAT counts and for every NAT cache with those counts. */
  lemma NatTaskIsCovered(c: NatCounts.State, index: map<nat, CacheEntry>)
    requires NatCounts.Inv(c) && c.sys.tasks != []
    requires index.Keys == c.counts.Keys && forall l | l in index :: index[l].refCount == c.counts[l]
    ensures Covered(index, NatCounts.NatBlocks(c.sys.tasks[0].journal.nats))
  {
    hide NatCounts.Counted, NatCounts.NatBlocks, NatCounts.AllBlocks;
    var blocks := NatCounts.NatBlocks(c.sys.tasks[0].journal.nats);
    NatCounts.AllBlocksHead(c.sys.tasks);
    forall l | l in multiset(blocks) ensures l in index && index[l].refCount >= multiset(blocks)[l] {
      NatCounts.CountedMeans(c, l);
    }
  }

  lemma {:induction false} FirstCounts(ts: seq<TxJournal>, l: nat)
    requires ts != []
    ensures CountAll(ts, l) >= Count(ts[0].journal.sits, l)
  {
    if |ts| > 1 {
      FirstCounts(ts[..|ts| - 1], l);
    }
  }
}
