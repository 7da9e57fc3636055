/**
 The generic cache manager: an index from keys to entries and an LRU replacer with pinning.
 The replacer's two lists are proved against a model that remembers when each key was last
 added, accessed or unpinned.
 */
module CacheManager {
  import opened Wrappers

  /** Keys are numbers, as in the node, page, SIT and NAT caches. */
  type Key = nat

  function Without(s: seq<Key>, k: Key): seq<Key> {
    if s == [] then []
    else if s[0] == k then s[1..]
    else [s[0]] + Without(s[1..], k)
  }

  ghost predicate NoDuplicates(s: seq<Key>) {
    forall i, j | 0 <= i < j < |s| :: s[i] != s[j]
  }

  lemma {:induction false} WithoutSplit(s: seq<Key>, k: Key) returns (i: nat)
    ensures k !in s ==> Without(s, k) == s
    ensures k in s ==> i < |s| && s[i] == k && Without(s, k) == s[..i] + s[i + 1..]
  {
    i := 0;
    if s != [] && s[0] != k {
      var j := WithoutSplit(s[1..], k);
      i := j + 1;
      if k in s {
        assert k in s[1..];
        assert s[..i] == [s[0]] + s[1..][..j];
      }
    }
  }

  lemma WithoutProperties(s: seq<Key>, k: Key)
    requires NoDuplicates(s)
    ensures NoDuplicates(Without(s, k))
    ensures forall x :: x in Without(s, k) <==> x in s && x != k
  {
    hide Without;
    var i := WithoutSplit(s, k);
    if k in s {
      var w := Without(s, k);
      forall x | x in s && x != k ensures x in w {
        var j :| 0 <= j < |s| && s[j] == x;
        assert if j < i then w[j] == x else w[j - 1] == x;
      }
    }
  }

  /** The replacer: replaceable keys, least recently used first, and pinned keys. */
  datatype Lru = Lru(lru: seq<Key>, pinned: seq<Key>) {
    ghost predicate Valid() {
      && NoDuplicates(lru) && NoDuplicates(pinned)
      && forall k :: k in lru ==> k !in pinned
    }
    predicate Has(k: Key) { k in lru || k in pinned }

    function Add(k: Key): Lru { this.(lru := lru + [k]) }
    function Pin(k: Key): Lru { if k in pinned then this else Lru(Without(lru, k), pinned + [k]) }
    function Unpin(k: Key): Lru { if k in pinned then Lru(lru + [k], Without(pinned, k)) else this }
    function Access(k: Key): Lru { if k in pinned then this else this.(lru := Without(lru, k) + [k]) }
    function Remove(k: Key): Lru { Lru(Without(lru, k), Without(pinned, k)) }
    function Pop(): Lru requires lru != [] { this.(lru := lru[1..]) }
  }

  // ----- the timestamp model -----

  /** When each key was last added, accessed or unpinned, and which keys are pinned. */
  datatype Stamps = Stamps(stamp: map<Key, nat>, pins: set<Key>, clock: nat) {
    function Touch(k: Key): Stamps { Stamps(stamp[k := clock], pins, clock + 1) }

    function Add(k: Key): Stamps { Touch(k) }
    function Pin(k: Key): Stamps { this.(pins := pins + {k}) }
    function Unpin(k: Key): Stamps { if k in pins then this.(pins := pins - {k}).Touch(k) else this }
    function Access(k: Key): Stamps { Touch(k) }
    function Remove(k: Key): Stamps { this.(stamp := stamp - {k}, pins := pins - {k}) }

    /** The key to replace: not pinned, and touched before every other key that is not pinned. */
    ghost predicate Oldest(k: Key) {
      && k in stamp && k !in pins
      && forall x | x in stamp && x !in pins :: stamp[k] <= stamp[x]
    }
  }

  ghost predicate InOrder(s: seq<Key>, stamp: map<Key, nat>) {
    && (forall i | 0 <= i < |s| :: s[i] in stamp)
    && (forall i, j | 0 <= i < j < |s| :: stamp[s[i]] < stamp[s[j]])
  }

  lemma WithoutInOrder(s: seq<Key>, stamp: map<Key, nat>, k: Key)
    requires InOrder(s, stamp)
    ensures InOrder(Without(s, k), stamp)
  {
    hide Without;
    var i := WithoutSplit(s, k);
    var w := Without(s, k);
    if k in s {
      assert forall j | 0 <= j < i :: w[j] == s[j];
      assert forall j | i <= j < |w| :: w[j] == s[j + 1];
    }
  }

  /** Touching a key that is not listed and listing it last keeps the order. */
  lemma TouchInOrder(s: seq<Key>, m: Stamps, k: Key)
    requires InOrder(s, m.stamp) && k !in s && forall x | x in m.stamp :: m.stamp[x] < m.clock
    ensures InOrder(s + [k], m.Touch(k).stamp)
  {
    assert forall i | 0 <= i < |s| :: s[i] in s;
  }

  /** The lists say what the model says: pinned keys, and the others in the order of their last touch. */
  ghost predicate Refines(l: Lru, m: Stamps) {
    && l.Valid()
    && (forall k :: k in l.pinned <==> k in m.stamp && k in m.pins)
    && (forall k :: k in l.lru <==> k in m.stamp && k !in m.pins)
    && InOrder(l.lru, m.stamp)
    && (forall k | k in m.stamp :: m.stamp[k] < m.clock)
    && (forall k | k in m.pins :: k in m.stamp)
  }

  lemma AddRefines(l: Lru, m: Stamps, k: Key)
    requires Refines(l, m) && k !in m.stamp
    ensures Refines(l.Add(k), m.Add(k))
  {
    TouchInOrder(l.lru, m, k);
  }

  lemma PinRefines(l: Lru, m: Stamps, k: Key)
    requires Refines(l, m) && k in m.stamp
    ensures Refines(l.Pin(k), m.Pin(k))
  {
    WithoutProperties(l.lru, k);
    WithoutInOrder(l.lru, m.stamp, k);
  }

  lemma UnpinRefines(l: Lru, m: Stamps, k: Key)
    requires Refines(l, m) && k in m.stamp
    ensures Refines(l.Unpin(k), m.Unpin(k))
  {
    if k in l.pinned {
      WithoutProperties(l.pinned, k);
      TouchInOrder(l.lru, m.(pins := m.pins - {k}), k);
    }
  }

  lemma AccessRefines(l: Lru, m: Stamps, k: Key)
    requires Refines(l, m) && k in m.stamp
    ensures Refines(l.Access(k), m.Access(k))
  {
    if k !in l.pinned {
      WithoutProperties(l.lru, k);
      WithoutInOrder(l.lru, m.stamp, k);
      TouchInOrder(Without(l.lru, k), m, k);
    }
  }

  lemma RemoveRefines(l: Lru, m: Stamps, k: Key)
    requires Refines(l, m) && k in m.stamp
    ensures Refines(l.Remove(k), m.Remove(k))
  {
    WithoutProperties(l.lru, k);
    WithoutProperties(l.pinned, k);
    WithoutInOrder(l.lru, m.stamp, k);
    InOrderForget(Without(l.lru, k), m.stamp, k);
  }

  lemma InOrderForget(s: seq<Key>, stamp: map<Key, nat>, k: Key)
    requires InOrder(s, stamp) && k !in s
    ensures InOrder(s, stamp - {k})
  {
    assert forall i | 0 <= i < |s| :: s[i] in s;
  }

  /** What is popped is the unpinned key whose last touch is the oldest; it is never a pinned key. */
  lemma PopRefines(l: Lru, m: Stamps)
    requires Refines(l, m) && l.lru != []
    ensures m.Oldest(l.lru[0])
    ensures Refines(l.Pop(), m.Remove(l.lru[0]))
  {
    var k := l.lru[0];
    assert k in l.lru;
    forall x | x in m.stamp && x !in m.pins ensures m.stamp[k] <= m.stamp[x] {
      assert x in l.lru;
      var i :| 0 <= i < |l.lru| && l.lru[i] == x;
    }
    var rest := l.lru[1..];
    assert forall i | 0 <= i < |rest| :: rest[i] == l.lru[i + 1];
    forall x ensures x in rest <==> x in l.lru && x != k {
      if x in l.lru && x != k {
        var i :| 0 <= i < |l.lru| && l.lru[i] == x;
        assert rest[i - 1] == x;
      }
    }
    InOrderForget(rest, m.stamp, k);
  }

  /** Nothing can be replaced exactly when every key is pinned. */
  lemma NothingToReplace(l: Lru, m: Stamps)
    requires Refines(l, m)
    ensures l.lru == [] <==> m.stamp.Keys <= m.pins
  {
    if l.lru != [] {
      assert l.lru[0] in l.lru;
    }
    forall k | k in m.stamp && k !in m.pins ensures k in l.lru {
    }
  }

  // ----- runs -----

  datatype Op = OAdd(k: Key) | OPin(k: Key) | OUnpin(k: Key) | OAccess(k: Key) | ORemove(k: Key) | OPop

  /** What the replacer asserts of its caller. */
  predicate Legal(l: Lru, op: Op) {
    match op
    case OAdd(k) => !l.Has(k)
    case OPop => l.lru != []
    case _ => l.Has(op.k)
  }

  function Perform(l: Lru, op: Op): Lru
    requires Legal(l, op)
  {
    match op
    case OAdd(k) => l.Add(k)
    case OPin(k) => l.Pin(k)
    case OUnpin(k) => l.Unpin(k)
    case OAccess(k) => l.Access(k)
    case ORemove(k) => l.Remove(k)
    case OPop => l.Pop()
  }

  /** The model of a run; a pop removes the key that the replacer gave up. */
  function ModelOf(ops: seq<Op>): (Lru, Stamps) {
    if ops == [] then (Lru([], []), Stamps(map[], {}, 0))
    else
      var (l, m) := ModelOf(ops[..|ops| - 1]);
      var op := ops[|ops| - 1];
      if !Legal(l, op) then (l, m)
      else
        (Perform(l, op),
         match op
         case OAdd(k) => m.Add(k)
         case OPin(k) => m.Pin(k)
         case OUnpin(k) => m.Unpin(k)
         case OAccess(k) => m.Access(k)
         case ORemove(k) => m.Remove(k)
         case OPop => m.Remove(l.lru[0]))
  }

  /** After every sequence of calls the lists agree with the timestamps, so replacement is true LRU. */
  lemma {:induction false} EveryRunRefines(ops: seq<Op>)
    ensures var (l, m) := ModelOf(ops); Refines(l, m) && (l.lru != [] ==> m.Oldest(l.lru[0]))
  {
    hide Refines, Stamps.Oldest;
    if ops == [] {
      assert Refines(Lru([], []), Stamps(map[], {}, 0)) by { RefinesInitially(); }
    } else {
      EveryRunRefines(ops[..|ops| - 1]);
      var (l, m) := ModelOf(ops[..|ops| - 1]);
      var op := ops[|ops| - 1];
      if Legal(l, op) {
        HasStamp(l, m);
        match op {
          case OAdd(k) => AddRefines(l, m, k);
          case OPin(k) => PinRefines(l, m, k);
          case OUnpin(k) => UnpinRefines(l, m, k);
          case OAccess(k) => AccessRefines(l, m, k);
          case ORemove(k) => RemoveRefines(l, m, k);
          case OPop => PopRefines(l, m);
        }
      }
      var (l', m') := ModelOf(ops);
      if l'.lru != [] {
        PopRefines(l', m');
      }
    }
  }

  lemma RefinesInitially()
    ensures Refines(Lru([], []), Stamps(map[], {}, 0))
  {
  }

  lemma HasStamp(l: Lru, m: Stamps)
    requires Refines(l, m)
    ensures forall k :: l.Has(k) <==> k in m.stamp
  {
  }

  // ----- the classes -----

  class LruReplacer {
    var lruList: seq<Key>
    var pinnedList: seq<Key>
    var keyStates: map<Key, bool>   // true: pinned

    ghost predicate Valid()
      reads this
    {
      && View().Valid()
      && (forall k :: k in keyStates <==> View().Has(k))
      && (forall k | k in keyStates :: keyStates[k] <==> k in pinnedList)
    }

    function View(): Lru
      reads this
    {
      Lru(lruList, pinnedList)
    }

    constructor ()
      ensures Valid() && View() == Lru([], [])
    {
      lruList, pinnedList, keyStates := [], [], map[];
    }

    method Add(key: Key)
      requires Valid() && !View().Has(key)
      modifies this
      ensures Valid() && View() == old(View()).Add(key)
    {
      keyStates := keyStates[key := false];
      lruList := lruList + [key];
    }

    method PopReplaced() returns (key: Key)
      requires Valid() && lruList != []
      modifies this
      ensures Valid() && key == old(lruList)[0] && View() == old(View()).Pop()
    {
      key := lruList[0];
      assert key in lruList && !keyStates[key];
      PopKeepsOthers(lruList);
      lruList := lruList[1..];
      keyStates := keyStates - {key};
    }

    method Pin(key: Key)
      requires Valid() && View().Has(key)
      modifies this
      ensures Valid() && View() == old(View()).Pin(key)
    {
      if keyStates[key] {
        return;
      }
      hide Without;
      WithoutProperties(lruList, key);
      keyStates := keyStates[key := true];
      lruList := Without(lruList, key);
      pinnedList := pinnedList + [key];
    }

    method Unpin(key: Key)
      requires Valid() && View().Has(key)
      modifies this
      ensures Valid() && View() == old(View()).Unpin(key)
    {
      if !keyStates[key] {
        return;
      }
      WithoutProperties(pinnedList, key);
      keyStates := keyStates[key := false];
      pinnedList := Without(pinnedList, key);
      lruList := lruList + [key];
    }

    method Access(key: Key)
      requires Valid() && View().Has(key)
      modifies this
      ensures Valid() && View() == old(View()).Access(key)
    {
      if keyStates[key] {
        return;
      }
      WithoutProperties(lruList, key);
      lruList := Without(lruList, key) + [key];
    }

    method Remove(key: Key)
      requires Valid() && View().Has(key)
      modifies this
      ensures Valid() && View() == old(View()).Remove(key)
    {
      hide Without;
      WithoutProperties(lruList, key);
      WithoutProperties(pinnedList, key);
      ghost var i := WithoutSplit(lruList, key);
      ghost var j := WithoutSplit(pinnedList, key);
      if keyStates[key] {
        pinnedList := Without(pinnedList, key);
      } else {
        lruList := Without(lruList, key);
      }
      keyStates := keyStates - {key};
    }
  }

  lemma PopKeepsOthers(s: seq<Key>)
    requires NoDuplicates(s) && s != []
    ensures NoDuplicates(s[1..])
    ensures forall x :: x in s[1..] <==> x in s && x != s[0]
  {
    assert s == [s[0]] + s[1..];
  }

  /** The manager's state: the entries, and the order in which they may be replaced. */
  datatype Manager<V> = Manager(index: map<Key, V>, lru: Lru) {
    ghost predicate Valid() {
      && lru.Valid()
      && forall k :: k in index <==> lru.Has(k)
    }

    function Add(k: Key, v: V): Manager<V> { Manager(index[k := v], lru.Add(k)) }
    function Update(k: Key, v: V): Manager<V> { this.(index := index[k := v]) }
    function Pin(k: Key): Manager<V> { this.(lru := lru.Pin(k)) }
    function Unpin(k: Key): Manager<V> { this.(lru := lru.Unpin(k)) }
    function Access(k: Key): Manager<V> { this.(lru := lru.Access(k)) }
    function Remove(k: Key): Manager<V> { Manager(index - {k}, lru.Remove(k)) }
    function Replace(): Manager<V>
      requires lru.lru != []
    {
      Manager(index - {lru.lru[0]}, lru.Pop())
    }
  }

  lemma ManagerSteps<V>(m: Manager<V>, k: Key, v: V)
    requires m.Valid()
    ensures k !in m.index ==> m.Add(k, v).Valid()
    ensures k in m.index ==> m.Update(k, v).Valid() && m.Pin(k).Valid() && m.Unpin(k).Valid()
    ensures k in m.index ==> m.Access(k).Valid() && m.Remove(k).Valid()
  {
    hide Without;
    WithoutProperties(m.lru.lru, k);
    WithoutProperties(m.lru.pinned, k);
  }

  /**
   The manager as a map with timestamps: each operation changes the one entry it names, touches the
   keys that it should, and replacement takes the unpinned entry touched longest ago.
   */
  lemma ManagerRefines<V>(m: Manager<V>, st: Stamps, k: Key, v: V)
    requires m.Valid() && Refines(m.lru, st)
    ensures k !in m.index ==> m.Add(k, v).index == m.index[k := v] && Refines(m.Add(k, v).lru, st.Add(k))
    ensures k in m.index ==>
              && m.Update(k, v).index == m.index[k := v] && Refines(m.Update(k, v).lru, st)
              && m.Pin(k).index == m.index && Refines(m.Pin(k).lru, st.Pin(k))
              && m.Unpin(k).index == m.index && Refines(m.Unpin(k).lru, st.Unpin(k))
              && m.Access(k).index == m.index && Refines(m.Access(k).lru, st.Access(k))
              && m.Remove(k).index == m.index - {k} && Refines(m.Remove(k).lru, st.Remove(k))
    ensures m.lru.lru != [] ==>
              var x := m.lru.lru[0];
              && x in m.index && st.Oldest(x) && m.Replace().index == m.index - {x} && Refines(m.Replace().lru, st.Remove(x))
  {
    hide Refines, Without, Lru.Add, Lru.Pin, Lru.Unpin, Lru.Access, Lru.Remove, Stamps.Oldest;
    HasStamp(m.lru, st);
    if k !in m.index {
      AddRefines(m.lru, st, k);
    } else {
      PinRefines(m.lru, st, k);
      UnpinRefines(m.lru, st, k);
      AccessRefines(m.lru, st, k);
      RemoveRefines(m.lru, st, k);
    }
    if m.lru.lru != [] {
      ManagerReplace(m);
      PopRefines(m.lru, st);
    }
  }

  lemma ManagerReplace<V>(m: Manager<V>)
    requires m.Valid() && m.lru.lru != []
    ensures m.Replace().Valid() && m.lru.lru[0] in m.index && m.lru.lru[0] !in m.lru.pinned
  {
    assert m.lru.lru[0] in m.lru.lru;
    PopKeepsOthers(m.lru.lru);
  }

  class CacheManager<V> {
    var index: map<Key, V>
    const replacer: LruReplacer

    ghost predicate Valid()
      reads this, replacer
    {
      replacer.Valid() && View().Valid()
    }

    function View(): Manager<V>
      reads this, replacer
    {
      Manager(index, replacer.View())
    }

    constructor ()
      ensures Valid() && fresh(replacer) && View() == Manager(map[], Lru([], []))
    {
      index := map[];
      replacer := new LruReplacer();
    }

    method Add(key: Key, entry: V)
      requires Valid() && key !in index
      modifies this, replacer
      ensures Valid() && View() == old(View()).Add(key, entry)
    {
      ManagerSteps(View(), key, entry);
      index := index[key := entry];
      replacer.Add(key);
    }

    /** The entry, if there is one; a lookup counts as an access unless the caller says otherwise. */
    method Get(key: Key, isAccess: bool) returns (entry: Option<V>)
      requires Valid()
      modifies replacer
      ensures Valid() && entry == if key in index then Some(index[key]) else None
      ensures View() == if key in index && isAccess then old(View()).Access(key) else old(View())
    {
      if key !in index {
        return None;
      }
      entry := Some(index[key]);
      if isAccess {
        ManagerSteps(View(), key, index[key]);
        replacer.Access(key);
      }
    }

    method Pin(key: Key)
      requires Valid() && key in index
      modifies replacer
      ensures Valid() && View() == old(View()).Pin(key)
    {
      ManagerSteps(View(), key, index[key]);
      replacer.Pin(key);
    }

    method Unpin(key: Key)
      requires Valid() && key in index
      modifies replacer
      ensures Valid() && View() == old(View()).Unpin(key)
    {
      ManagerSteps(View(), key, index[key]);
      replacer.Unpin(key);
    }

    /** Gives up and returns the least recently used unpinned entry, if there is one. */
    method ReplaceOne() returns (entry: Option<V>)
      requires Valid()
      modifies this, replacer
      ensures Valid() && entry.Some? == (old(replacer.lruList) != [])
      ensures entry.None? ==> View() == old(View())
      ensures entry.Some? ==>
                && old(replacer.lruList)[0] in old(index) && entry.value == old(index)[old(replacer.lruList)[0]]
                && View() == old(View()).Replace()
    {
      if |replacer.lruList| == 0 {
        return None;
      }
      ManagerReplace(View());
      var key := replacer.PopReplaced();
      entry := Some(index[key]);
      index := index - {key};
    }

    method Remove(key: Key)
      requires Valid() && key in index
      modifies this, replacer
      ensures Valid() && View() == old(View()).Remove(key)
    {
      ManagerSteps(View(), key, index[key]);
      replacer.Remove(key);
      index := index - {key};
    }
  }
}
