/**
 The node block cache. A cached node counts its live handles and its cached children, so a
 parent cannot be replaced before its children; a node marked deleted is removed, and its nid
 and block released, when its last reference goes, which can cascade to its ancestors.
 */
module NodeCache {
  import opened CacheManager

  const INVALID_NID: Key := 0

  datatype State = UpToDate | Dirty | Deleted

  datatype Node = Node(parent: Key, lpa: nat, refCount: nat, state: State)

  type Index = map<Key, Node>

  function Children(index: Index, n: Key): set<Key> {
    set c | c in index && index[c].parent == n
  }

  // ----- the invariant -----

  /** Reference counts are handles plus cached children. */
  ghost predicate Counted(index: Index, handles: multiset<Key>) {
    && (forall n | n in handles :: n in index)
    && (forall n | n in index :: index[n].refCount == handles[n] + |Children(index, n)|)
  }

  /** Every cached node but an inode has its parent cached. */
  ghost predicate Rooted(index: Index) {
    && INVALID_NID !in index
    && (forall n | n in index && index[n].parent != INVALID_NID :: index[n].parent in index)
  }

  ghost predicate Pinning(m: Manager<Node>) {
    && m.Valid()
    && (forall n | n in m.index :: n in m.lru.pinned <==> m.index[n].refCount > 0)
    && (forall n | n in m.index && m.index[n].state == Deleted :: m.index[n].refCount > 0)
  }

  ghost predicate Sound(m: Manager<Node>, handles: multiset<Key>, size: nat) {
    Pinning(m) && Rooted(m.index) && Counted(m.index, handles) && size == |m.index|
  }

  // ----- counting children -----

  /** Same keys, same parents: same children. */
  lemma ChildrenSame(a: Index, b: Index, n: Key)
    requires a.Keys == b.Keys && forall k | k in a :: a[k].parent == b[k].parent
    ensures Children(a, n) == Children(b, n)
  {
  }

  lemma ChildrenRemove(index: Index, c: Key, n: Key)
    requires c in index
    ensures |Children(index - {c}, n)| == |Children(index, n)| - if index[c].parent == n then 1 else 0
  {
    assert Children(index - {c}, n) == Children(index, n) - {c};
  }

  lemma ChildrenAdd(index: Index, c: Key, e: Node, n: Key)
    requires c !in index
    ensures |Children(index[c := e], n)| == |Children(index, n)| + if e.parent == n then 1 else 0
  {
    if e.parent == n {
      assert Children(index[c := e], n) == Children(index, n) + {c};
    } else {
      assert Children(index[c := e], n) == Children(index, n);
    }
  }

  lemma HasChildren(index: Index, c: Key)
    requires c in index
    ensures |Children(index, index[c].parent)| > 0
  {
    assert c in Children(index, index[c].parent);
  }

  // ----- counting up and down -----

  function Recount(m: Manager<Node>, n: Key, delta: int): Manager<Node>
    requires n in m.index && m.index[n].refCount + delta >= 0
  {
    m.Update(n, m.index[n].(refCount := m.index[n].refCount + delta))
  }

  function AddRef(m: Manager<Node>, n: Key): Manager<Node>
    requires n in m.index
  {
    var r := Recount(m, n, 1);
    if r.index[n].refCount == 1 then r.Pin(n) else r
  }

  /** One reference less, unpinned at zero; a deleted node is not removed yet. */
  function SubRef(m: Manager<Node>, n: Key): Manager<Node>
    requires n in m.index && m.index[n].refCount > 0
  {
    var r := Recount(m, n, -1);
    if r.index[n].refCount == 0 then r.Unpin(n) else r
  }

  lemma RecountCounted(index: Index, handles: multiset<Key>, n: Key, e: Node, handles': multiset<Key>)
    requires Counted(index, handles) && n in index && e.parent == index[n].parent
    requires forall k | k != n :: handles'[k] == handles[k]
    requires e.refCount + handles[n] == index[n].refCount + handles'[n]
    ensures Counted(index[n := e], handles')
  {
    forall k | k in index ensures index[n := e][k].refCount == handles'[k] + |Children(index[n := e], k)| {
      ChildrenSame(index, index[n := e], k);
    }
    assert forall k | k in handles' :: k == n || k in handles;
  }

  lemma LruSteps(m: Manager<Node>, n: Key, v: Node)
    requires m.Valid() && n in m.index
    ensures m.Update(n, v).Valid()
    ensures m.Update(n, v).Pin(n).Valid() && forall k :: k in m.lru.Pin(n).pinned <==> k in m.lru.pinned || k == n
    ensures m.Update(n, v).Unpin(n).Valid() && forall k :: k in m.lru.Unpin(n).pinned <==> k in m.lru.pinned && k != n
    ensures m.Remove(n).Valid() && forall k :: k in m.lru.Remove(n).pinned <==> k in m.lru.pinned && k != n
  {
    hide Without;
    ManagerSteps(m, n, v);
    WithoutProperties(m.lru.pinned, n);
    WithoutProperties(m.lru.lru, n);
  }

  lemma AddRefSound(m: Manager<Node>, handles: multiset<Key>, size: nat, n: Key)
    requires Sound(m, handles, size) && n in m.index
    ensures Sound(AddRef(m, n), handles + multiset{n}, size)
  {
    hide Manager.Valid, Without, Counted;
    var e := m.index[n].(refCount := m.index[n].refCount + 1);
    LruSteps(m, n, e);
    RecountCounted(m.index, handles, n, e, handles + multiset{n});
    assert m.index[n := e].Keys == m.index.Keys;
  }

  /** Dropping a reference keeps everything, unless it was a deleted node's last. */
  lemma SubRefSound(m: Manager<Node>, handles: multiset<Key>, size: nat, n: Key)
    requires Sound(m, handles, size) && n in handles
    ensures n in m.index && m.index[n].refCount > 0
    ensures m.index[n].refCount > 1 || m.index[n].state != Deleted ==> Sound(SubRef(m, n), handles - multiset{n}, size)
  {
    assert m.index[n].refCount == handles[n] + |Children(m.index, n)|;
    SubRefSoundInner(m, handles, size, n);
  }

  lemma SubRefSoundInner(m: Manager<Node>, handles: multiset<Key>, size: nat, n: Key)
    requires Sound(m, handles, size) && n in handles && n in m.index && m.index[n].refCount > 0
    ensures m.index[n].refCount > 1 || m.index[n].state != Deleted ==> Sound(SubRef(m, n), handles - multiset{n}, size)
  {
    hide Manager.Valid, Without, Counted;
    var e := m.index[n].(refCount := m.index[n].refCount - 1);
    LruSteps(m, n, e);
    RecountCounted(m.index, handles, n, e, handles - multiset{n});
    assert m.index[n := e].Keys == m.index.Keys;
  }

  /** The references after node `c` left the cache: its own share of its parent is now held by the caller. */
  function Inherit(handles: multiset<Key>, parent: Key): multiset<Key> {
    if parent == INVALID_NID then handles else handles + multiset{parent}
  }

  lemma RemoveCounted(index: Index, handles: multiset<Key>, c: Key)
    requires Counted(index, handles) && Rooted(index)
    requires c in index && c !in handles && Children(index, c) == {}
    ensures Counted(index - {c}, Inherit(handles, index[c].parent)) && Rooted(index - {c})
  {
    var rest, p := index - {c}, index[c].parent;
    assert p != c by {
      if p == c { HasChildren(index, c); assert false; }
    }
    forall k | k in rest ensures rest[k].refCount == Inherit(handles, p)[k] + |Children(rest, k)| {
      ChildrenRemove(index, c, k);
    }
    forall k | k in rest && rest[k].parent != INVALID_NID ensures rest[k].parent in rest {
      if rest[k].parent == c {
        HasChildren(index, k);
      }
    }
  }

  /** A deleted node's last reference: it leaves the cache. */
  lemma DeleteSound(m: Manager<Node>, handles: multiset<Key>, size: nat, n: Key)
    requires Sound(m, handles, size) && n in handles && n in m.index && m.index[n].refCount == 1
    ensures size > 0
    ensures Sound(SubRef(m, n).Remove(n), Inherit(handles - multiset{n}, m.index[n].parent), size - 1)
  {
    hide Manager.Valid, Without, Counted, Rooted, Pinning, Children;
    LastReference(m.index, handles, n);
    var e := m.index[n].(refCount := 0);
    var zero := m.index[n := e];
    RecountCounted(m.index, handles, n, e, handles - multiset{n});
    ChildrenSame(m.index, zero, n);
    assert Rooted(zero) by { RootedSame(m.index, n, e); }
    RemoveCounted(zero, handles - multiset{n}, n);
    assert zero - {n} == m.index - {n};
    RemoveSize(m.index, n);
    DeletePinning(m, n, e);
  }

  lemma LastReference(index: Index, handles: multiset<Key>, n: Key)
    requires Counted(index, handles) && n in handles && n in index && index[n].refCount == 1
    ensures Children(index, n) == {} && handles[n] == 1
  {
  }

  lemma RootedSame(index: Index, n: Key, e: Node)
    requires Rooted(index) && n in index && e.parent == index[n].parent
    ensures Rooted(index[n := e])
  {
  }

  lemma DeletePinning(m: Manager<Node>, n: Key, e: Node)
    requires Pinning(m) && n in m.index && m.index[n].refCount == 1 && e == m.index[n].(refCount := 0)
    ensures Pinning(SubRef(m, n).Remove(n))
  {
    hide Manager.Valid, Without;
    LruSteps(m, n, e);
    var u := m.Update(n, e).Unpin(n);
    LruSteps(u, n, e);
  }

  lemma RemoveSize(index: Index, n: Key)
    requires n in index
    ensures |index| > 0 && |index - {n}| == |index| - 1
  {
    assert (index - {n}).Keys == index.Keys - {n};
  }

  /** Replacement takes a node nobody refers to: no handle, no cached child, not marked deleted. */
  lemma EvictSound(m: Manager<Node>, handles: multiset<Key>, size: nat)
    requires Sound(m, handles, size) && m.lru.lru != []
    ensures
      var n := m.lru.lru[0];
      && n in m.index && m.index[n].refCount == 0 && m.index[n].state != Deleted && size > 0
      && Sound(m.Replace(), Inherit(handles, m.index[n].parent), size - 1)
  {
    hide Without, Manager.Valid;
    ManagerReplace(m);
    var n := m.lru.lru[0];
    assert m.index[n].refCount == handles[n] + |Children(m.index, n)|;
    RemoveCounted(m.index, handles, n);
    RemoveSize(m.index, n);
  }

  // ----- adding a node -----

  lemma NoChildrenYet(index: Index, n: Key, e: Node)
    requires Rooted(index) && n !in index && n != INVALID_NID && e.parent != n
    ensures Children(index[n := e], n) == {}
  {
    var index' := index[n := e];
    forall c | c in index' ensures index'[c].parent != n {
      if c != n {
        assert index[c].parent != INVALID_NID ==> index[c].parent in index;
      }
    }
  }

  lemma AddCounted(index: Index, handles: multiset<Key>, n: Key, e: Node)
    requires Counted(index, handles) && Rooted(index) && n !in index && n != INVALID_NID && e.refCount == 0
    requires e.parent != INVALID_NID ==> e.parent in handles
    ensures Rooted(index[n := e])
    ensures Counted(index[n := e], if e.parent == INVALID_NID then handles else handles - multiset{e.parent})
  {
    hide Children;
    var index', p := index[n := e], e.parent;
    var handles' := if p == INVALID_NID then handles else handles - multiset{p};
    NoChildrenYet(index, n, e);
    forall k | k in index' ensures index'[k].refCount == handles'[k] + |Children(index', k)| {
      ChildrenAdd(index, n, e, k);
    }
  }

  lemma AddPinning(m: Manager<Node>, n: Key, e: Node)
    requires Pinning(m) && n !in m.index && e.refCount == 0 && e.state == UpToDate
    ensures Pinning(m.Add(n, e)) && |m.Add(n, e).index| == |m.index| + 1
  {
    hide Without;
    ManagerSteps(m, n, e);
    NotPinned(m, n);
    assert m.index[n := e].Keys == m.index.Keys + {n};
  }

  /** Adding a node under a parent that the caller has counted once more. */
  lemma AddSound(m: Manager<Node>, handles: multiset<Key>, size: nat, n: Key, e: Node)
    requires Sound(m, handles, size) && n !in m.index && n != INVALID_NID
    requires e.refCount == 0 && e.state == UpToDate
    requires e.parent != INVALID_NID ==> e.parent in handles
    ensures Sound(m.Add(n, e), if e.parent == INVALID_NID then handles else handles - multiset{e.parent}, size + 1)
  {
    hide Counted, Rooted, Pinning;
    AddCounted(m.index, handles, n, e);
    AddPinning(m, n, e);
  }

  lemma NotPinned(m: Manager<Node>, n: Key)
    requires m.Valid() && n !in m.index
    ensures n !in m.lru.pinned
  {
    assert m.lru.Has(n) <==> n in m.index;
  }

  // ----- what leaves the cache -----

  /** Nodes keep their parent, block and state while they are cached. */
  ghost predicate Kept(a: Index, b: Index) {
    forall k | k in b :: k in a && b[k].parent == a[k].parent && b[k].lpa == a[k].lpa && b[k].state == a[k].state
  }

  /** From `a` to `b`, exactly the deleted nodes that left the cache were released, each once. */
  ghost predicate Accounts(a: Index, b: Index, released: seq<Key>) {
    && Kept(a, b)
    && NoDuplicates(released)
    && (forall k :: k in released <==> k in a && k !in b && a[k].state == Deleted)
  }

  lemma AccountsCompose(a: Index, b: Index, c: Index, f: seq<Key>, g: seq<Key>)
    requires Accounts(a, b, f) && Accounts(b, c, g)
    ensures Accounts(a, c, f + g)
  {
    forall i, j | 0 <= i < j < |f + g| ensures (f + g)[i] != (f + g)[j] {
      if i < |f| <= j {
        assert f[i] in f && g[j - |f|] in g;
      }
    }
  }

  /** The blocks of the released nodes that had one, oldest release first. */
  function Blocks(a: Index, released: seq<Key>): seq<nat> {
    if released == [] then []
    else
      var k := released[|released| - 1];
      Blocks(a, released[..|released| - 1]) + (if k !in a || a[k].lpa == 0 then [] else [a[k].lpa])
  }

  /** A release log entry: the nids freed and the blocks invalidated on the way from `a` to `b`. */
  ghost predicate Logged(a: Index, b: Index, nids: seq<Key>, nids': seq<Key>, blks: seq<nat>, blks': seq<nat>) {
    && nids <= nids'
    && Accounts(a, b, nids'[|nids|..])
    && blks' == blks + Blocks(a, nids'[|nids|..])
  }

  lemma {:induction false} BlocksConcat(a: Index, b: Index, f: seq<Key>, g: seq<Key>)
    requires forall k | k in g :: k in a && k in b && a[k].lpa == b[k].lpa
    ensures Blocks(a, f + g) == Blocks(a, f) + Blocks(b, g)
    decreases |g|
  {
    if g == [] {
      assert f + g == f;
    } else {
      var init := g[..|g| - 1];
      assert forall k | k in init :: k in g;
      BlocksConcat(a, b, f, init);
      assert (f + g)[..|f + g| - 1] == f + init;
      assert g[|g| - 1] in g;
    }
  }

  lemma AccountsInside(a: Index, b: Index, c: Index, f: seq<Key>, g: seq<Key>)
    requires Accounts(a, b, f) && Accounts(b, c, g)
    ensures forall k | k in g :: k in a && k in b && a[k].lpa == b[k].lpa
  {
  }

  lemma LoggedCompose(a: Index, b: Index, c: Index, n0: seq<Key>, n1: seq<Key>, n2: seq<Key>,
                      b0: seq<nat>, b1: seq<nat>, b2: seq<nat>)
    requires Logged(a, b, n0, n1, b0, b1) && Logged(b, c, n1, n2, b1, b2)
    ensures Logged(a, c, n0, n2, b0, b2)
  {
    hide Accounts, Blocks;
    var f, g := n1[|n0|..], n2[|n1|..];
    assert n2[|n0|..] == f + g;
    AccountsCompose(a, b, c, f, g);
    AccountsInside(a, b, c, f, g);
    BlocksConcat(a, b, f, g);
  }

  lemma LoggedNothing(a: Index, b: Index, nids: seq<Key>, blks: seq<nat>)
    requires Kept(a, b) && forall k | k in a && k !in b :: a[k].state != Deleted
    ensures Logged(a, b, nids, nids, blks, blks)
  {
    assert nids[|nids|..] == [];
  }

  class NodeBlockCache {
    var manager: Manager<Node>
    var curSize: nat
    const expectSize: nat
    ghost var handles: multiset<Key>
    var freedNids: seq<Key>       // nids returned to the free list
    var garbage: seq<nat>         // blocks invalidated in SIT
    ghost var evicted: seq<Key>   // nodes given up by replacement

    ghost predicate Valid()
      reads this
    {
      Sound(manager, handles, curSize)
    }

    constructor (size: nat)
      ensures Valid() && expectSize == size && manager.index == map[] && handles == multiset{}
    {
      manager, curSize, expectSize := Manager(map[], Lru([], [])), 0, size;
      handles, freedNids, garbage, evicted := multiset{}, [], [], [];
    }

    /** The last reference to a deleted node goes: its nid and block are released, it leaves the cache. */
    method RemoveDeleted(n: Key) returns (parent: Key)
      requires Valid() && n in handles && n in manager.index
      requires manager.index[n].refCount == 1 && manager.index[n].state == Deleted
      modifies this
      ensures Valid() && parent == old(manager.index)[n].parent
      ensures handles == Inherit(old(handles) - multiset{n}, parent)
      ensures Logged(old(manager.index), manager.index, old(freedNids), freedNids, old(garbage), garbage)
      ensures manager.index == old(manager.index) - {n} && |manager.index| < |old(manager.index)|
      ensures |manager.index| + |freedNids| == |old(manager.index)| + |old(freedNids)|
      ensures manager.lru.lru == old(manager.lru.lru) && evicted == old(evicted)
    {
      hide Sound, Logged, SubRef, Manager.Remove;
      DeleteSound(manager, handles, curSize, n);
      DeleteOrder(manager, handles, curSize, n);
      DeletedLogged(manager, n, freedNids, garbage);
      var e := manager.index[n];
      freedNids := freedNids + [n];
      garbage := if e.lpa != 0 then garbage + [e.lpa] else garbage;
      manager := SubRef(manager, n).Remove(n);
      curSize := curSize - 1;
      handles := Inherit(handles - multiset{n}, e.parent);
      parent := e.parent;
    }

    /** Drops one reference to `n`; deleted nodes without references leave, from the bottom up. */
    method SubRefcount(n: Key)
      requires Valid() && n in handles
      modifies this
      ensures Valid() && handles == old(handles) - multiset{n}
      ensures Logged(old(manager.index), manager.index, old(freedNids), freedNids, old(garbage), garbage)
      ensures |manager.index| <= |old(manager.index)| && |manager.index| + |freedNids| == |old(manager.index)| + |old(freedNids)|
      ensures old(manager.lru.lru) <= manager.lru.lru && evicted == old(evicted)
      ensures Only(old(manager.index), manager.index, [])
      ensures n in old(manager.index) && (old(manager.index)[n].state != Deleted ==>
                manager.index == old(manager.index)[n := old(manager.index)[n].(refCount := old(manager.index)[n].refCount - 1)])
      decreases |manager.index|
    {
      hide Sound, Logged, SubRef, Kept, Inherit, Only;
      SubRefSound(manager, handles, curSize, n);
      if manager.index[n].refCount == 1 && manager.index[n].state == Deleted {
        OnlyOne(manager.index, n, []);
        var parent := RemoveDeleted(n);
        InheritProperties(old(handles) - multiset{n}, parent);
        if parent != INVALID_NID {
          ghost var i1, f1, g1 := manager.index, freedNids, garbage;
          SubRefcount(parent);
          LoggedCompose(old(manager.index), i1, manager.index, old(freedNids), f1, freedNids, old(garbage), g1, garbage);
          LoggedKept(old(manager.index), i1, old(freedNids), f1, old(garbage), g1);
          OnlyCompose(old(manager.index), i1, manager.index, [], []);
        }
      } else {
        CountedLogged(manager, n, freedNids, garbage);
        OnlyNone(manager.index, SubRef(manager, n).index, []);
        SubRefOrder(manager, n);
        manager := SubRef(manager, n);
        handles := handles - multiset{n};
      }
    }

    /** Replaces unreferenced nodes, least recently used first, until the cache is small enough and no longer. */
    method DoReplace()
      requires Valid()
      modifies this
      ensures Valid() && handles == old(handles)
      ensures Logged(old(manager.index), manager.index, old(freedNids), freedNids, old(garbage), garbage)
      ensures curSize <= expectSize || forall k | k in manager.index :: manager.index[k].refCount > 0
      ensures Took(old(evicted), evicted, old(manager.lru.lru)) && Only(old(manager.index), manager.index, evicted[|old(evicted)|..])
      ensures |old(manager.index)| == |manager.index| + (|freedNids| - |old(freedNids)|) + (|evicted| - |old(evicted)|)
      ensures |evicted| - |old(evicted)| <= if |old(manager.index)| > expectSize then |old(manager.index)| - expectSize else 0
    {
      hide Sound, Logged, Took, Only, Remains, Manager.Valid;
      ghost var index, e0, order := manager.index, evicted, manager.lru.lru;
      KeptSelf(index);
      LoggedNothing(index, index, freedNids, garbage);
      TookNothing(evicted, order);
      OnlyNone(index, index, evicted[|e0|..]);
      SizeIs(manager, handles, curSize);
      if curSize > expectSize {
        while true
          invariant Valid() && handles == old(handles) && curSize > expectSize
          invariant Logged(index, manager.index, old(freedNids), freedNids, old(garbage), garbage)
          invariant Took(e0, evicted, order) && Remains(e0, evicted, order, manager.lru.lru)
          invariant |old(freedNids)| <= |freedNids| && |e0| <= |evicted| && Only(index, manager.index, evicted[|e0|..])
          invariant |index| == |manager.index| + (|freedNids| - |old(freedNids)|) + (|evicted| - |e0|)
          decreases |manager.index|
        {
          SizeIs(manager, handles, curSize);
          var found := manager.lru.lru != [];
          if found {
            ghost var m0, f0, g0, gone := manager, freedNids, garbage, evicted[|e0|..];
            TookOneMore(e0, evicted, order, manager.lru.lru);
            LoggedKept(index, manager.index, old(freedNids), freedNids, old(garbage), garbage);
            EvictOne();
            LoggedCompose(index, m0.index, manager.index, old(freedNids), f0, freedNids, old(garbage), g0, garbage);
            RemainsMore(e0, evicted, order, m0.lru.lru[1..], manager.lru.lru);
            OnlyCompose(index, m0.index, manager.index, gone, [m0.lru.lru[0]]);
            assert evicted[|e0|..] == gone + [m0.lru.lru[0]];
          } else {
            AllPinned(manager, handles, curSize);
          }
          SizeIs(manager, handles, curSize);
          if !found || curSize <= expectSize {
            break;
          }
        }
      }
    }

    /** One replacement: the least recently used unpinned node goes, and its parent loses a reference. */
    method EvictOne()
      requires Valid() && manager.lru.lru != []
      modifies this
      ensures Valid() && handles == old(handles) && evicted == old(evicted) + [old(manager.lru.lru)[0]]
      ensures Logged(old(manager.index), manager.index, old(freedNids), freedNids, old(garbage), garbage)
      ensures |old(freedNids)| <= |freedNids| && |old(manager.index)| == |manager.index| + (|freedNids| - |old(freedNids)|) + 1
      ensures old(manager.lru.lru)[1..] <= manager.lru.lru
      ensures Only(old(manager.index), manager.index, [old(manager.lru.lru)[0]])
    {
      hide Sound, Logged, Inherit, Only, Manager.Valid;
      EvictSound(manager, handles, curSize);
      EvictLogged(manager, freedNids, garbage);
      OnlyOne(manager.index, manager.lru.lru[0], [manager.lru.lru[0]]);
      ghost var i0, f0, g0, n := manager.index, freedNids, garbage, manager.lru.lru[0];
      var p := manager.index[manager.lru.lru[0]].parent;
      evicted := evicted + [n];
      manager := manager.Replace();
      curSize := curSize - 1;
      InheritProperties(handles, p);
      handles := Inherit(handles, p);
      if p != INVALID_NID {
        ghost var i1 := manager.index;
        SubRefcount(p);
        LoggedKept(i0, i1, f0, f0, g0, g0);
        LoggedCompose(i0, i1, manager.index, f0, f0, freedNids, g0, g0, garbage);
        OnlyCompose(i0, i1, manager.index, [n], []);
      }
      LoggedLength(i0, manager.index, f0, freedNids, g0, garbage);
    }

    /** A handle for a cached node, or none. */
    method Get(n: Key) returns (found: bool)
      requires Valid()
      modifies this
      ensures Valid() && found == (n in old(manager.index))
      ensures handles == if found then old(handles) + multiset{n} else old(handles)
      ensures manager.index == if found then old(manager.index)[n := old(manager.index)[n].(refCount := old(manager.index)[n].refCount + 1)]
                               else old(manager.index)
      ensures freedNids == old(freedNids) && garbage == old(garbage)
    {
      hide Sound, AddRef, Lru.Access;
      found := n in manager.index;
      if found {
        AccessSound(manager, handles, curSize, n);
        manager := manager.Access(n);
        AddRefSound(manager, handles, curSize, n);
        AddRefKeeps(manager, n);
        manager := AddRef(manager, n);
        handles := handles + multiset{n};
      }
    }

    /**
     Adds a node and returns a handle for it. The parent must be cached; it gains a reference, so
     neither it nor the new node is replaced on the way.
     */
    method Add(n: Key, parent: Key, lpa: nat)
      requires Valid()
      requires n != INVALID_NID && n !in manager.index
      requires parent != INVALID_NID ==> parent in manager.index
      modifies this
      ensures Valid() && handles == old(handles) + multiset{n} && n in manager.index
      ensures Logged(old(manager.index)[n := Node(parent, lpa, 0, UpToDate)], manager.index, old(freedNids), freedNids, old(garbage), garbage)
      ensures curSize <= expectSize || forall k | k in manager.index :: manager.index[k].refCount > 0
      ensures old(evicted) <= evicted && Only(old(manager.index)[n := Node(parent, lpa, 0, UpToDate)], manager.index, evicted[|old(evicted)|..])
    {
      hide Sound, Logged, Only, Manager.Valid;
      ghost var i0, e := manager.index, Node(parent, lpa, 0, UpToDate);
      Insert(n, parent, lpa);
      ghost var i1, f1, g1 := manager.index, freedNids, garbage;
      LoggedNothing(i0[n := e], i1, freedNids, garbage);
      OnlyNone(i0[n := e], i1, []);
      DoReplace();
      LoggedCompose(i0[n := e], i1, manager.index, f1, f1, freedNids, g1, g1, garbage);
      OnlyCompose(i0[n := e], i1, manager.index, [], evicted[|old(evicted)|..]);
      assert [] + evicted[|old(evicted)|..] == evicted[|old(evicted)|..];
      HandleCached(manager, handles, curSize, n);
    }

    /** The new node and its parent counted, before replacement. */
    method Insert(n: Key, parent: Key, lpa: nat)
      requires Valid()
      requires n != INVALID_NID && n !in manager.index
      requires parent != INVALID_NID ==> parent in manager.index
      modifies this`manager, this`handles, this`curSize
      ensures Valid() && handles == old(handles) + multiset{n}
      ensures manager.index.Keys == old(manager.index).Keys + {n} && Kept(old(manager.index)[n := Node(parent, lpa, 0, UpToDate)], manager.index)
    {
      hide Sound, AddRef, Manager.Valid, Manager.Add, Kept;
      var e := Node(parent, lpa, 0, UpToDate);
      InsertedSound(manager, handles, curSize, n, e);
      if parent != INVALID_NID {
        manager := AddRef(manager, parent);
      }
      manager := AddRef(manager.Add(n, e), n);
      curSize := curSize + 1;
      handles := handles + multiset{n};
    }

    /** Adds a node and drops the handle at once; the node stays cached. */
    method AddAndDrop(n: Key, parent: Key, lpa: nat)
      requires Valid()
      requires n != INVALID_NID && n !in manager.index
      requires parent != INVALID_NID ==> parent in manager.index
      modifies this
      ensures Valid() && handles == old(handles) && n in manager.index
      ensures Logged(old(manager.index)[n := Node(parent, lpa, 0, UpToDate)], manager.index, old(freedNids), freedNids, old(garbage), garbage)
    {
      hide Sound, Logged, Only, Manager.Valid;
      ghost var i0 := manager.index[n := Node(parent, lpa, 0, UpToDate)];
      ghost var f0, g0 := freedNids, garbage;
      Add(n, parent, lpa);
      ghost var i1, f1, g1 := manager.index, freedNids, garbage;
      LoggedKept(i0, i1, f0, f1, g0, g1);
      SubRefcount(n);
      LoggedCompose(i0, i1, manager.index, f0, f1, freedNids, g0, g1, garbage);
    }

    /** Marks a node deleted; it goes when its last reference does. */
    method DeleteNode(n: Key)
      requires Valid() && n in handles
      modifies this`manager
      ensures Valid() && manager.index.Keys == old(manager.index).Keys
      ensures n in manager.index && manager.index[n] == old(manager.index)[n].(state := Deleted)
      ensures forall k | k in manager.index && k != n :: manager.index[k] == old(manager.index)[k]
    {
      HandleCached(manager, handles, curSize, n);
      MarkSound(manager, handles, curSize, n);
      manager := manager.Update(n, manager.index[n].(state := Deleted));
    }

    /**
     The miss path of the file mapping search: the SSD returns the nodes of an index path from the
     first uncached one down, and each is added below its predecessor.
     */
    method InsertPath(parent: Key, path: seq<Key>, lpas: seq<nat>)
      requires Valid()
      requires |path| == |lpas| > 0 && NoDuplicates(path) && INVALID_NID !in path && parent !in path
      requires parent != INVALID_NID ==> parent in manager.index
      requires path[0] !in manager.index
      // the cache knows the tree: a cached node of the path hangs below its predecessor
      requires forall i | 0 < i < |path| && path[i] in manager.index :: manager.index[path[i]].parent == path[i - 1]
      modifies this
      ensures Valid() && handles == old(handles)
      ensures forall i | 0 <= i < |path| ::
                && path[i] in manager.index && manager.index[path[i]].state == UpToDate && manager.index[path[i]].lpa == lpas[i]
                && manager.index[path[i]].parent == if i == 0 then parent else path[i - 1]
      ensures Logged(WithPath(old(manager.index), parent, path, lpas, |path|), manager.index, old(freedNids), freedNids, old(garbage), garbage)
    {
      hide Sound, Logged, Kept, Manager.Valid, Lru.Valid, Lru.Has;
      NoDescendantCached(manager, handles, curSize, path, 0);
      LoggedNothing(manager.index, manager.index, freedNids, garbage) by { KeptSelf(manager.index); }
      ghost var index := manager.index;
      var up := parent;
      for i := 0 to |path|
        invariant Valid() && handles == old(handles)
        invariant up == (if i == 0 then parent else path[i - 1]) && (up != INVALID_NID ==> up in manager.index)
        invariant forall j | i <= j < |path| :: path[j] !in manager.index
        invariant Logged(WithPath(index, parent, path, lpas, i), manager.index, old(freedNids), freedNids, old(garbage), garbage)
      {
        assert path[i] in path;
        ghost var a, m0, f0, g0 := WithPath(index, parent, path, lpas, i), manager, freedNids, garbage;
        ghost var e := Node(up, lpas[i], 0, UpToDate);
        PathNotYet(index, parent, path, lpas, i, i);
        LoggedExtend(a, m0.index, old(freedNids), f0, old(garbage), g0, path[i], e);
        AddAndDrop(path[i], up, lpas[i]);
        LoggedCompose(a[path[i] := e], m0.index[path[i] := e], manager.index, old(freedNids), f0, freedNids, old(garbage), g0, garbage);
        LoggedKept(m0.index[path[i] := e], manager.index, f0, freedNids, g0, garbage);
        AddedOnly(m0.index, manager.index, path, i, e);
        up := path[i];
      }
      LoggedKept(WithPath(index, parent, path, lpas, |path|), manager.index, old(freedNids), freedNids, old(garbage), garbage);
      forall i | 0 <= i < |path|
        ensures && path[i] in manager.index && manager.index[path[i]].state == UpToDate && manager.index[path[i]].lpa == lpas[i]
                && manager.index[path[i]].parent == if i == 0 then parent else path[i - 1]
      {
        PathCached(manager, handles, curSize, index, parent, path, lpas, i);
      }
    }
  }

  /** The parent is counted first, then the node is added, then counted for the caller's handle. */
  lemma InsertedSound(m: Manager<Node>, handles: multiset<Key>, size: nat, n: Key, e: Node)
    requires Sound(m, handles, size) && n != INVALID_NID && n !in m.index && e.refCount == 0 && e.state == UpToDate
    requires e.parent != INVALID_NID ==> e.parent in m.index
    ensures
      var m1 := if e.parent != INVALID_NID then AddRef(m, e.parent) else m;
      && n in m1.Add(n, e).index
      && var m2 := AddRef(m1.Add(n, e), n);
      && Sound(m2, handles + multiset{n}, size + 1) && m2.index.Keys == m.index.Keys + {n} && Kept(m.index[n := e], m2.index)
  {
    hide Sound, AddRef, Manager.Valid;
    var p := e.parent;
    if p != INVALID_NID {
      AddRefSound(m, handles, size, p);
      AddRefKeeps(m, p);
      assert handles + multiset{p} - multiset{p} == handles;
      AddSound(AddRef(m, p), handles + multiset{p}, size, n, e);
    } else {
      AddSound(m, handles, size, n, e);
    }
    var m1 := if p != INVALID_NID then AddRef(m, p) else m;
    AddRefSound(m1.Add(n, e), handles, size + 1, n);
    AddRefKeeps(m1.Add(n, e), n);
  }

  // ----- an inserted path -----

  /** The index with the first `i` nodes of a path in it, each below its predecessor. */
  ghost function WithPath(index: Index, parent: Key, path: seq<Key>, lpas: seq<nat>, i: nat): Index
    requires i <= |path| == |lpas|
  {
    if i == 0 then index
    else WithPath(index, parent, path, lpas, i - 1)[path[i - 1] := Node(if i == 1 then parent else path[i - 2], lpas[i - 1], 0, UpToDate)]
  }

  lemma {:induction false} PathNotYet(index: Index, parent: Key, path: seq<Key>, lpas: seq<nat>, i: nat, j: nat)
    requires i <= j < |path| == |lpas| && NoDuplicates(path) && path[j] !in index
    ensures path[j] !in WithPath(index, parent, path, lpas, i)
  {
    if i > 0 { PathNotYet(index, parent, path, lpas, i - 1, j); }
  }

  lemma {:induction false} PathAt(index: Index, parent: Key, path: seq<Key>, lpas: seq<nat>, i: nat, j: nat)
    requires j < i <= |path| == |lpas| && NoDuplicates(path)
    ensures path[j] in WithPath(index, parent, path, lpas, i)
    ensures WithPath(index, parent, path, lpas, i)[path[j]] == Node(if j == 0 then parent else path[j - 1], lpas[j], 0, UpToDate)
  {
    if j < i - 1 { PathAt(index, parent, path, lpas, i - 1, j); }
  }

  /** From the last node up, each is cached because it is the parent of a cached one. */
  lemma {:induction false} PathCached(m: Manager<Node>, handles: multiset<Key>, size: nat, index: Index, parent: Key,
                                      path: seq<Key>, lpas: seq<nat>, i: nat)
    requires Sound(m, handles, size) && |path| == |lpas| && i < |path| && NoDuplicates(path) && INVALID_NID !in path
    requires path[|path| - 1] in m.index && Kept(WithPath(index, parent, path, lpas, |path|), m.index)
    ensures path[i] in m.index && m.index[path[i]].state == UpToDate && m.index[path[i]].lpa == lpas[i]
    ensures m.index[path[i]].parent == if i == 0 then parent else path[i - 1]
    decreases |path| - i
  {
    hide Pinning, Counted, Manager.Valid;
    PathAt(index, parent, path, lpas, |path|, i);
    if i < |path| - 1 {
      PathCached(m, handles, size, index, parent, path, lpas, i + 1);
      assert path[i] in path;
    }
  }

  lemma KeptSelf(a: Index)
    ensures Kept(a, a)
  {
  }

  lemma AddedOnly(a: Index, b: Index, path: seq<Key>, i: nat, e: Node)
    requires i < |path| && NoDuplicates(path) && Kept(a[path[i] := e], b) && forall j | i <= j < |path| :: path[j] !in a
    ensures forall j | i < j < |path| :: path[j] !in b
    ensures path[i] in b ==> b[path[i]].state == e.state
  {
  }

  /** A new node in both indexes changes nothing in the log between them. */
  lemma LoggedExtend(a: Index, b: Index, n0: seq<Key>, n1: seq<Key>, b0: seq<nat>, b1: seq<nat>, n: Key, e: Node)
    requires Logged(a, b, n0, n1, b0, b1) && n !in a && n !in b
    ensures Logged(a[n := e], b[n := e], n0, n1, b0, b1)
  {
    var f := n1[|n0|..];
    assert n !in f;
    BlocksOther(a, f, n, e);
  }

  lemma {:induction false} BlocksOther(a: Index, f: seq<Key>, n: Key, e: Node)
    requires n !in f
    ensures Blocks(a[n := e], f) == Blocks(a, f)
  {
    if f != [] {
      assert f[|f| - 1] in f && forall k | k in f[..|f| - 1] :: k in f;
      BlocksOther(a, f[..|f| - 1], n, e);
    }
  }

  // ----- the order of replacement -----

  /** What replacement took is, as far as it goes, the front of the list of unpinned nodes as it was. */
  ghost predicate Took(before: seq<Key>, after: seq<Key>, order: seq<Key>) {
    before <= after && forall i | 0 <= i < |after| - |before| && i < |order| :: after[|before| + i] == order[i]
  }

  /** What is left of that list still comes first. */
  ghost predicate Remains(before: seq<Key>, after: seq<Key>, order: seq<Key>, now: seq<Key>) {
    before <= after && (|after| - |before| <= |order| ==> order[|after| - |before|..] <= now)
  }

  lemma TookNothing(e: seq<Key>, order: seq<Key>)
    ensures Took(e, e, order) && Remains(e, e, order, order)
  {
  }

  lemma TookOneMore(e0: seq<Key>, e: seq<Key>, order: seq<Key>, now: seq<Key>)
    requires Took(e0, e, order) && Remains(e0, e, order, now) && now != []
    ensures Took(e0, e + [now[0]], order) && Remains(e0, e + [now[0]], order, now[1..])
  {
    var n := |e| - |e0|;
    if n < |order| {
      assert order[n..][0] == now[0] && order[n + 1..] == order[n..][1..];
    }
  }

  lemma RemainsMore(e0: seq<Key>, e: seq<Key>, order: seq<Key>, now: seq<Key>, later: seq<Key>)
    requires Remains(e0, e, order, now) && now <= later
    ensures Remains(e0, e, order, later)
  {
  }

  /** The nodes that left are deleted ones and those named. */
  ghost predicate Only(a: Index, b: Index, gone: seq<Key>) {
    forall k | k in a && k !in b :: a[k].state == Deleted || k in gone
  }

  lemma OnlyNone(a: Index, b: Index, gone: seq<Key>)
    requires a.Keys == b.Keys
    ensures Only(a, b, gone)
  {
  }

  lemma OnlyOne(a: Index, n: Key, gone: seq<Key>)
    requires n in a && (a[n].state == Deleted || n in gone)
    ensures Only(a, a - {n}, gone)
  {
  }

  lemma OnlyCompose(a: Index, b: Index, c: Index, f: seq<Key>, g: seq<Key>)
    requires Only(a, b, f) && Only(b, c, g) && Kept(a, b)
    ensures Only(a, c, f + g) && (g == [] ==> Only(a, c, f))
  {
  }

  lemma KeptCompose(a: Index, b: Index, c: Index)
    requires Kept(a, b) && Kept(b, c)
    ensures Kept(a, c)
  {
  }

  lemma SizeIs(m: Manager<Node>, handles: multiset<Key>, size: nat)
    requires Sound(m, handles, size)
    ensures size == |m.index|
  {
  }

  lemma LoggedLength(a: Index, b: Index, n0: seq<Key>, n1: seq<Key>, b0: seq<nat>, b1: seq<nat>)
    requires Logged(a, b, n0, n1, b0, b1)
    ensures |n0| <= |n1|
  {
  }

  lemma SubRefOrder(m: Manager<Node>, n: Key)
    requires n in m.index && m.index[n].refCount > 0
    ensures m.lru.lru <= SubRef(m, n).lru.lru
  {
  }

  /** A deleted node was pinned; unpinned and removed at once, it leaves the order as it was. */
  lemma DeleteOrder(m: Manager<Node>, handles: multiset<Key>, size: nat, n: Key)
    requires Sound(m, handles, size) && n in m.index && m.index[n].refCount == 1
    ensures SubRef(m, n).Remove(n).lru.lru == m.lru.lru
    ensures SubRef(m, n).Remove(n).index == m.index - {n} && |m.index - {n}| == |m.index| - 1
  {
    assert n in m.lru.pinned && n !in m.lru.lru;
    WithoutLast(m.lru.lru, n);
    RemoveSize(m.index, n);
    assert m.index[n := m.index[n].(refCount := 0)] - {n} == m.index - {n};
  }

  lemma WithoutLast(s: seq<Key>, k: Key)
    requires k !in s
    ensures Without(s + [k], k) == s
  {
    if s == [] {
      assert [k][1..] == [];
    } else {
      WithoutLast(s[1..], k);
      assert (s + [k])[1..] == s[1..] + [k];
    }
  }

  lemma AccessSound(m: Manager<Node>, handles: multiset<Key>, size: nat, n: Key)
    requires Sound(m, handles, size) && n in m.index
    ensures Sound(m.Access(n), handles, size)
  {
    ManagerSteps(m, n, m.index[n]);
  }

  lemma AddRefKeeps(m: Manager<Node>, n: Key)
    requires n in m.index
    ensures AddRef(m, n).index == m.index[n := m.index[n].(refCount := m.index[n].refCount + 1)]
  {
  }

  lemma LoggedKept(a: Index, b: Index, n0: seq<Key>, n1: seq<Key>, b0: seq<nat>, b1: seq<nat>)
    requires Logged(a, b, n0, n1, b0, b1)
    ensures Kept(a, b)
  {
  }

  lemma HandleCached(m: Manager<Node>, handles: multiset<Key>, size: nat, n: Key)
    requires Sound(m, handles, size) && n in handles
    ensures n in m.index && m.index[n].refCount > 0
  {
    assert m.index[n].refCount == handles[n] + |Children(m.index, n)|;
  }

  lemma MarkSound(m: Manager<Node>, handles: multiset<Key>, size: nat, n: Key)
    requires Sound(m, handles, size) && n in m.index && m.index[n].refCount > 0
    ensures Sound(m.Update(n, m.index[n].(state := Deleted)), handles, size)
  {
    hide Manager.Valid, Counted;
    var e := m.index[n].(state := Deleted);
    LruSteps(m, n, e);
    RecountCounted(m.index, handles, n, e, handles);
    assert m.index[n := e].Keys == m.index.Keys;
  }

  /** A cached node has its parent cached, so below an uncached node of a path nothing is cached. */
  lemma {:induction false} NoDescendantCached(m: Manager<Node>, handles: multiset<Key>, size: nat, path: seq<Key>, i: nat)
    requires Sound(m, handles, size) && i < |path| && path[i] !in m.index && INVALID_NID !in path
    requires forall j | i < j < |path| && path[j] in m.index :: m.index[path[j]].parent == path[j - 1]
    ensures forall j | i <= j < |path| :: path[j] !in m.index
    decreases |path| - i
  {
    if i + 1 < |path| {
      assert path[i] in path;
      assert path[i + 1] !in m.index;
      NoDescendantCached(m, handles, size, path, i + 1);
    }
  }

  // ----- using the cache -----

  lemma InheritProperties(handles: multiset<Key>, parent: Key)
    ensures parent == INVALID_NID ==> Inherit(handles, parent) == handles
    ensures parent != INVALID_NID ==> parent in Inherit(handles, parent) && Inherit(handles, parent) - multiset{parent} == handles
  {
  }

  lemma DeletedLogged(m: Manager<Node>, n: Key, nids: seq<Key>, blks: seq<nat>)
    requires n in m.index && m.index[n].refCount > 0 && m.index[n].state == Deleted
    ensures
      var e := m.index[n];
      var index := SubRef(m, n).Remove(n).index;
      && Logged(m.index, index, nids, nids + [n], blks, if e.lpa != 0 then blks + [e.lpa] else blks)
      && index == m.index - {n} && |index| < |m.index|
  {
    RemoveSize(m.index, n);
    assert SubRef(m, n).Remove(n).index == m.index - {n};
    assert (nids + [n])[|nids|..] == [n];
    assert [n][..0] == [];
  }

  lemma CountedLogged(m: Manager<Node>, n: Key, nids: seq<Key>, blks: seq<nat>)
    requires n in m.index && m.index[n].refCount > 0
    ensures Logged(m.index, SubRef(m, n).index, nids, nids, blks, blks)
    ensures SubRef(m, n).index == m.index[n := m.index[n].(refCount := m.index[n].refCount - 1)]
    ensures |SubRef(m, n).index| == |m.index| && SubRef(m, n).index.Keys == m.index.Keys
  {
    assert SubRef(m, n).index.Keys == m.index.Keys;
    LoggedNothing(m.index, SubRef(m, n).index, nids, blks);
  }

  lemma EvictLogged(m: Manager<Node>, nids: seq<Key>, blks: seq<nat>)
    requires m.lru.lru != [] && m.lru.lru[0] in m.index && m.index[m.lru.lru[0]].state != Deleted
    ensures Logged(m.index, m.Replace().index, nids, nids, blks, blks)
    ensures |m.Replace().index| == |m.index| - 1
  {
    RemoveSize(m.index, m.lru.lru[0]);
    LoggedNothing(m.index, m.Replace().index, nids, blks);
  }

  lemma AllPinned(m: Manager<Node>, handles: multiset<Key>, size: nat)
    requires Sound(m, handles, size) && m.lru.lru == []
    ensures forall k | k in m.index :: m.index[k].refCount > 0
  {
    forall k | k in m.index ensures m.index[k].refCount > 0 {
      assert m.lru.Has(k);
    }
  }
}
