/**
 The SIT/NAT cache: reference counts, pinning and replacement. Its steps are those that the
 replacement protection protocol takes: get, drop, add a version, evict a block nobody counts.
 */
module SitNatCache {
  import opened CacheManager
  import opened Tables
  import RP = ReplaceProtect

  type Entry = RP.CacheEntry

  /** Pinned exactly when counted; the size is the number of entries. */
  ghost predicate Sound(m: Manager<Entry>, size: nat) {
    && m.Valid()
    && size == |m.index|
    && forall k | k in m.index :: k in m.lru.pinned <==> m.index[k].refCount > 0
  }

  /** Replacement: least recently used unpinned entries go until the cache is small enough. */
  function Shrink(m: Manager<Entry>, limit: nat): Manager<Entry>
    decreases |m.lru.lru|
  {
    if |m.index| > limit && m.lru.lru != [] then Shrink(m.Replace(), limit) else m
  }

  lemma RemoveSize<V>(m: map<Key, V>, k: Key)
    requires k in m
    ensures |m - {k}| == |m| - 1
  {
    assert (m - {k}).Keys == m.Keys - {k};
  }

  lemma ReplaceSound(m: Manager<Entry>, size: nat)
    requires Sound(m, size) && m.lru.lru != []
    ensures var k := m.lru.lru[0]; k in m.index && m.index[k].refCount == 0 && size > 0 && Sound(m.Replace(), size - 1)
  {
    hide Manager.Valid;
    ManagerReplace(m);
    RemoveSize(m.index, m.lru.lru[0]);
  }

  /** From `m` to `m'` only uncounted entries went, and the others are as they were. */
  ghost predicate Shrunk(m: Manager<Entry>, m': Manager<Entry>) {
    && (forall k | k in m'.index :: k in m.index && m'.index[k] == m.index[k])
    && (forall k | k in m.index && k !in m'.index :: m.index[k].refCount == 0)
  }

  lemma ReplaceShrinks(m: Manager<Entry>, size: nat)
    requires Sound(m, size) && m.lru.lru != []
    ensures Shrunk(m, m.Replace()) && size > 0 && Sound(m.Replace(), size - 1)
  {
    hide Manager.Valid, Sound;
    ReplaceSound(m, size);
  }

  lemma ShrunkTwice(m: Manager<Entry>, m1: Manager<Entry>, m2: Manager<Entry>)
    requires Shrunk(m, m1) && Shrunk(m1, m2)
    ensures Shrunk(m, m2)
  {
  }

  lemma AllCounted(m: Manager<Entry>, size: nat)
    requires Sound(m, size) && m.lru.lru == []
    ensures forall k | k in m.index :: m.index[k].refCount > 0
  {
    forall k | k in m.index ensures m.index[k].refCount > 0 {
      assert m.lru.Has(k);
    }
  }

  /** Replacement drops only uncounted entries, keeps the others as they are, and gives up only when all are pinned. */
  lemma {:induction false} ShrinkIsSafe(m: Manager<Entry>, size: nat, limit: nat)
    requires Sound(m, size)
    ensures
      var m' := Shrink(m, limit);
      && Sound(m', |m'.index|) && Shrunk(m, m')
      && (|m'.index| <= limit || forall k | k in m'.index :: m'.index[k].refCount > 0)
      && (|m.index| <= limit ==> m' == m)
      // no more is given up than needed, and always the least recently used
      && (|m.index| >= limit ==> |m'.index| >= limit)
      && |m'.index| <= |m.index| && |m.index| - |m'.index| <= |m.lru.lru|
      && m'.lru == m.lru.(lru := m.lru.lru[|m.index| - |m'.index|..])
    decreases |m.lru.lru|
  {
    hide Sound, Shrunk;
    if |m.index| > limit && m.lru.lru != [] {
      ReplaceShrinks(m, size);
      assert |m.Replace().index| == |m.index| - 1 by { ShrunkNone(m, size); ShrunkNone(m.Replace(), size - 1); }
      ShrinkIsSafe(m.Replace(), size - 1, limit);
      ShrunkTwice(m, m.Replace(), Shrink(m, limit));
    } else {
      assert m.lru.lru[0..] == m.lru.lru;
      assert Shrunk(m, m) && size == |m.index| by { ShrunkNone(m, size); }
      if m.lru.lru == [] { AllCounted(m, size); }
    }
  }

  lemma ShrunkNone(m: Manager<Entry>, size: nat)
    requires Sound(m, size)
    ensures Shrunk(m, m) && size == |m.index|
  {
  }

  function Recount(m: Manager<Entry>, k: Key, delta: int): Manager<Entry>
    requires k in m.index && m.index[k].refCount + delta >= 0
  {
    m.Update(k, m.index[k].(refCount := m.index[k].refCount + delta))
  }

  /** Counting up pins at the first reference. */
  function Added(m: Manager<Entry>, k: Key): Manager<Entry>
    requires k in m.index
  {
    var n := Recount(m, k, 1);
    if n.index[k].refCount == 1 then n.Pin(k) else n
  }

  /** Counting down unpins at zero. */
  function Subbed(m: Manager<Entry>, k: Key): Manager<Entry>
    requires k in m.index && m.index[k].refCount > 0
  {
    var n := Recount(m, k, -1);
    if n.index[k].refCount == 0 then n.Unpin(k) else n
  }

  lemma CountSteps(m: Manager<Entry>, size: nat, k: Key)
    requires Sound(m, size) && k in m.index
    ensures Sound(Added(m, k), size)
    ensures m.index[k].refCount > 0 ==> Sound(Subbed(m, k), size)
  {
    hide Without;
    WithoutProperties(m.lru.lru, k);
    WithoutProperties(m.lru.pinned, k);
    var v := m.index[k].(refCount := m.index[k].refCount + 1);
    assert m.index[k := v].Keys == m.index.Keys;
    if m.index[k].refCount > 0 {
      var w := m.index[k].(refCount := m.index[k].refCount - 1);
      assert m.index[k := w].Keys == m.index.Keys;
    }
  }

  /** The cache after a lookup: a missing block was read, a present one counts as used if asked to. */
  function Fetched(m: Manager<Entry>, l: Key, isAccess: bool, onSsd: Table): Manager<Entry> {
    if l !in m.index then m.Add(l, RP.CacheEntry(onSsd, 0)) else if isAccess then m.Access(l) else m
  }

  lemma FetchedSound(m: Manager<Entry>, size: nat, l: Key, isAccess: bool, onSsd: Table)
    requires Sound(m, size)
    ensures Sound(Fetched(m, l, isAccess, onSsd), if l in m.index then size else size + 1)
    ensures l in Fetched(m, l, isAccess, onSsd).index
    ensures Fetched(m, l, isAccess, onSsd).index == if l in m.index then m.index else m.index[l := RP.CacheEntry(onSsd, 0)]
  {
    ManagerSteps(m, l, RP.CacheEntry(onSsd, 0));
    if l !in m.index {
      assert m.index[l := RP.CacheEntry(onSsd, 0)].Keys == m.index.Keys + {l};
    }
  }

  /** After a handle was taken, replacement keeps its block and gives up only uncounted ones. */
  lemma GetShrinks(m: Manager<Entry>, size: nat, limit: nat, l: Key)
    requires Sound(m, size) && l in m.index && m.index[l].refCount > 0
    ensures
      var m' := Shrink(m, limit);
      && l in m'.index && m'.index[l] == m.index[l]
      && (forall k | k in m'.index :: k in m.index && m'.index[k] == m.index[k])
      && (forall k | k in m.index && k !in m'.index :: m.index[k].refCount == 0)
  {
    hide Sound, Shrink;
    ShrinkIsSafe(m, size, limit);
  }

  lemma AddedIndex(m: Manager<Entry>, l: Key)
    requires l in m.index
    ensures Added(m, l).index == m.index[l := m.index[l].(refCount := m.index[l].refCount + 1)]
  {
  }

  class SitNatCache {
    var manager: Manager<Entry>
    var curSize: nat
    const expectSize: nat

    ghost predicate Valid()
      reads this
    {
      Sound(manager, curSize)
    }

    constructor (limit: nat)
      ensures Valid() && expectSize == limit && manager.index == map[]
    {
      manager, curSize, expectSize := Manager(map[], Lru([], [])), 0, limit;
    }

    method AddRefcount(l: Key)
      requires Valid() && l in manager.index
      modifies this
      ensures Valid() && manager == Added(old(manager), l)
    {
      CountSteps(manager, curSize, l);
      manager := Recount(manager, l, 1);
      if manager.index[l].refCount == 1 {
        manager := manager.Pin(l);
      }
    }

    method DoReplace()
      requires Valid()
      modifies this
      ensures Valid() && manager == Shrink(old(manager), expectSize)
    {
      if curSize > expectSize {
        while true
          invariant Valid() && curSize > expectSize
          invariant Shrink(manager, expectSize) == Shrink(old(manager), expectSize)
          decreases |manager.lru.lru|
        {
          var found := manager.lru.lru != [];
          if found {
            ReplaceSound(manager, curSize);
            manager := manager.Replace();
            curSize := curSize - 1;
          }
          if !found || curSize <= expectSize {
            break;
          }
        }
      }
    }

    method SubRefcount(l: Key)
      requires Valid() && l in manager.index && manager.index[l].refCount > 0
      modifies this
      ensures Valid()
      ensures var n := Subbed(old(manager), l);
              manager == if n.index[l].refCount == 0 then Shrink(n, expectSize) else n
    {
      CountSteps(manager, curSize, l);
      manager := Recount(manager, l, -1);
      if manager.index[l].refCount == 0 {
        manager := manager.Unpin(l);
        DoReplace();
      }
    }

    /** Finds or reads the block; `onSsd` is what the SSD would return. */
    method GetInner(l: Key, isAccess: bool, onSsd: Table)
      requires Valid()
      modifies this
      ensures Valid() && manager == Fetched(old(manager), l, isAccess, onSsd)
    {
      FetchedSound(manager, curSize, l, isAccess, onSsd);
      if l in manager.index {
        if isAccess {
          manager := manager.Access(l);
        }
      } else {
        manager := manager.Add(l, RP.CacheEntry(onSsd, 0));
        curSize := curSize + 1;
      }
    }

    /** A handle for the block: cached afterwards, counted once more, and not given up by the replacement. */
    method Get(l: Key, onSsd: Table)
      requires Valid()
      modifies this
      ensures Valid() && l in manager.index
      ensures
        var e := if l in old(manager.index) then old(manager.index[l]) else RP.CacheEntry(onSsd, 0);
        manager.index[l] == e.(refCount := e.refCount + 1)
      ensures manager == Shrink(Added(Fetched(old(manager), l, true, onSsd), l), expectSize)
      ensures forall k | k in manager.index && k != l :: k in old(manager.index) && manager.index[k] == old(manager.index)[k]
      ensures forall k | k in old(manager.index) && k !in manager.index :: old(manager.index)[k].refCount == 0
    {
      hide Sound, Shrink, Fetched, Added, Manager.Valid, Lru.Access, Lru.Add;
      FetchedSound(manager, curSize, l, true, onSsd);
      GetInner(l, true, onSsd);
      AddedIndex(manager, l);
      AddRefcount(l);
      GetShrinks(manager, curSize, expectSize, l);
      DoReplace();
    }

    /** Releases one version of a block; the protocol guarantees that it is cached and counted. */
    method AddSsdVersion(l: Key, onSsd: Table)
      requires Valid() && l in manager.index && manager.index[l].refCount > 0
      modifies this
      ensures Valid()
      ensures forall k | k in manager.index ::
                k in old(manager.index) && manager.index[k] ==
                  if k == l then old(manager.index)[l].(refCount := old(manager.index)[l].refCount - 1) else old(manager.index)[k]
      ensures forall k | k in old(manager.index) && k !in manager.index ::
                old(manager.index)[k].refCount == if k == l then 1 else 0
    {
      hide Sound, Shrink, Fetched;
      FetchedSound(manager, curSize, l, false, onSsd);
      GetInner(l, false, onSsd);
      CountSteps(manager, curSize, l);
      ShrinkIsSafe(Subbed(manager, l), curSize, expectSize);
      SubRefcount(l);
    }
  }
}
