/** The nodes of a file's index tree as places: their heights, block ranges and numbers. */
module Places {
  import opened NodePath

  /** The inode, or the node in slot `slot` of another one. */
  datatype Place = Root | Child(parent: Place, slot: nat)

  /** Height 1 is a node of addresses; 2 and 3 are nodes of node ids; the inode is the root of all. */
  function Height(p: Place): int {
    match p
    case Root => 4
    case Child(Root, i) => if i < 2 then 1 else if i < 4 then 2 else 3
    case Child(q, _) => Height(q) - 1
  }

  predicate Valid(p: Place) {
    match p
    case Root => true
    case Child(Root, i) => i < 5
    case Child(q, j) => Valid(q) && Height(q) >= 2 && j < NIDS_PER_BLOCK
  }

  /** Blocks below `i` nodes of height `h`. */
  function Stride(h: int, i: nat): nat {
    if h == 1 then 1020 * i else if h == 2 then 1040400 * i else if h == 3 then 1061208000 * i else 0
  }

  /** The first block below a place. */
  function First(p: Place): nat {
    match p
    case Root => 0
    case Child(Root, i) => Base(i)
    case Child(q, j) => First(q) + Stride(Height(q) - 1, j)
  }

  /** One past the last block below a place. */
  function End(p: Place): nat { First(p) + Stride(Height(p), 1) }

  /** The node's logical number in the tree, kept in its footer. */
  function Noffset(p: Place): nat {
    match p
    case Root => 0
    case Child(Root, i) => (match i case 0 => 1 case 1 => 2 case 2 => 3 case 3 => 1024 case _ => 2045)
    case Child(q, j) => Noffset(q) + 1 + (if Height(q) == 2 then j else 1021 * j)
  }

  /** The place with a given number. */
  function PlaceOf(n: nat): Place {
    if n == 0 then Root
    else if n < 4 then Child(Root, n - 1)
    else if n < 1024 then Child(Child(Root, 2), n - 4)
    else if n == 1024 then Child(Root, 3)
    else if n < 2045 then Child(Child(Root, 3), n - 1025)
    else if n == 2045 then Child(Root, 4)
    else
      var j, r := (n - 2046) / 1021, (n - 2046) % 1021;
      var d := Child(Child(Root, 4), j);
      if r == 0 then d else Child(d, r - 1)
  }

  lemma {:induction false} HeightBound(p: Place)
    requires Valid(p) && p != Root
    ensures 1 <= Height(p) <= 3 && (p.parent != Root ==> Height(p) <= 2)
  {
    if p.parent != Root { HeightBound(p.parent); }
  }

  /** What a valid place other than the root looks like. */
  lemma Shapes(p: Place)
    requires Valid(p) && p != Root
    ensures 1 <= Height(p) <= 3
    ensures || (exists i :: 0 <= i < 5 && p == Child(Root, i))
            || (exists i, j :: 2 <= i < 5 && 0 <= j < 1020 && p == Child(Child(Root, i), j))
            || (exists j, k :: 0 <= j < 1020 && 0 <= k < 1020 && p == Child(Child(Child(Root, 4), j), k))
  {
    if p.parent != Root {
      var q := p.parent;
      if q.parent != Root {
        HeightBound(q.parent);
        assert p == Child(Child(Child(Root, 4), q.slot), p.slot);
      } else {
        assert p == Child(Child(Root, q.slot), p.slot);
      }
    } else {
      assert p == Child(Root, p.slot);
    }
  }

  /** No two nodes of the tree have the same number. */
  lemma NoffsetUnique(p: Place)
    requires Valid(p)
    ensures PlaceOf(Noffset(p)) == p
  {
    if p != Root && p.parent != Root {
      HeightBound(p.parent);
      if p.parent.parent != Root {
        Shapes(p);
        TripleNumber(p.parent.slot, p.slot + 1);
        assert Noffset(p) == 2046 + 1021 * p.parent.slot + p.slot + 1;
      } else if p.parent.slot == 4 {
        TripleNumber(p.slot, 0);
        assert Noffset(p) == 2046 + 1021 * p.slot;
      }
    }
  }

  lemma TripleNumber(j: nat, r: nat)
    requires r < 1021
    ensures (1021 * j + r) / 1021 == j && (1021 * j + r) % 1021 == r
    ensures
      var d := Child(Child(Root, 4), j);
      PlaceOf(2046 + 1021 * j + r) == if r == 0 then d else Child(d, r - 1)
  {
    assert (1021 * j + r) / 1021 == j && (1021 * j + r) % 1021 == r;
  }

  /** A child's blocks are a slice of its parent's. */
  lemma ChildRange(p: Place, j: nat)
    requires Valid(p) && p != Root && Height(p) >= 2 && j < 1020
    ensures Valid(Child(p, j)) && Height(Child(p, j)) == Height(p) - 1
    ensures First(Child(p, j)) == First(p) + Stride(Height(p) - 1, j)
    ensures End(Child(p, j)) == First(p) + Stride(Height(p) - 1, j + 1) <= End(p)
  {
    Shapes(p);
  }

  /** The inode's slots divide the blocks behind its own addresses. */
  lemma TopRange(i: nat)
    requires i < 5
    ensures var p := Child(Root, i); Valid(p) && First(p) == Base(i) && End(p) == Base(i + 1)
  {
  }

  /** `q` lies strictly below `p`. */
  predicate Under(q: Place, p: Place) { q != Root && (q.parent == p || Under(q.parent, p)) }

  predicate Within(q: Place, p: Place) { q == p || Under(q, p) }

  lemma {:induction false} UnderRange(q: Place, p: Place)
    requires Valid(q) && Under(q, p) && p != Root
    ensures Valid(p) && 1 <= Height(q) < Height(p) <= 3
    ensures First(p) <= First(q) && End(q) <= End(p)
  {
    if q.parent != p {
      UnderRange(q.parent, p);
    }
    Shapes(q.parent);
    Shapes(p);
    ChildRange(q.parent, q.slot);
  }

  /** A place below `p` lies within exactly one child of `p`, the one whose blocks contain its own. */
  lemma {:induction false} UnderChild(q: Place, p: Place) returns (j: nat)
    requires Valid(q) && Under(q, p)
    ensures Within(q, Child(p, j)) && Valid(Child(p, j))
    ensures p != Root ==> j < 1020 && 2 <= Height(p)
    ensures p == Root ==> j < 5
  {
    if q.parent == p {
      j := q.slot;
      if p != Root { Shapes(q); }
    } else {
      j := UnderChild(q.parent, p);
    }
  }

  lemma {:induction false} UnderRoot(q: Place)
    requires q != Root
    ensures Under(q, Root)
  {
    if q.parent != Root { UnderRoot(q.parent); }
  }

  lemma {:induction false} UnderTransitive(q: Place, r: Place, p: Place)
    requires Under(q, r) && Under(r, p)
    ensures Under(q, p)
  {
    if q.parent != r { UnderTransitive(q.parent, r, p); }
  }

  /** Under `p`, being within child `i` is having the first block among the child's blocks. */
  lemma WithinByRange(q: Place, p: Place, i: nat)
    requires Valid(q) && Under(q, p) && p != Root && i < 1020
    ensures Valid(p) && 2 <= Height(p)
    ensures Within(q, Child(p, i)) <==> First(p) + Stride(Height(p) - 1, i) <= First(q) < First(p) + Stride(Height(p) - 1, i + 1)
  {
    UnderRange(q, p);
    var j := UnderChild(q, p);
    ChildRange(p, i);
    ChildRange(p, j);
    WithinRange(q, Child(p, j));
    if Within(q, Child(p, i)) { WithinRange(q, Child(p, i)); }
  }

  lemma WithinRange(q: Place, p: Place)
    requires Valid(q) && Within(q, p) && p != Root
    ensures Valid(p) && First(p) <= First(q) < End(q) <= End(p)
  {
    Shapes(q);
    if q != p { UnderRange(q, p); }
  }

  lemma TopByRange(q: Place, i: nat)
    requires Valid(q) && q != Root && i < 5
    ensures Within(q, Child(Root, i)) <==> Base(i) <= First(q) < Base(i + 1)
    ensures Base(0) <= First(q) < Base(5)
  {
    UnderRoot(q);
    var j := UnderChild(q, Root);
    TopRange(i);
    TopRange(j);
    WithinRange(q, Child(Root, j));
    if Within(q, Child(Root, i)) { WithinRange(q, Child(Root, i)); }
  }

  // ----- the leaf of a block -----

  predicate IsLeaf(p: Place) { p == Root || Height(p) == 1 }

  function Width(p: Place): nat { if p == Root then ADDRS_PER_INODE else ADDRS_PER_BLOCK }

  /** The place that holds the address of a block. */
  function Leaf(b: nat): Place
    requires b < MAX_BLKNO_LIMIT
  {
    PathExistsExactly(b);
    PathInverse(b);
    PlaceAt(GetNodePath(b).value.offset, |GetNodePath(b).value.offset| - 1)
  }

  /** The place that the first `k` offsets of a path lead to. */
  function PlaceAt(o: seq<nat>, k: nat): Place
    requires ValidOffsets(o) && k < |o|
  {
    if k == 0 then Root
    else if k == 1 then Child(Root, o[0] - NODE_DIR1_BLOCK)
    else Child(PlaceAt(o, k - 1), o[k - 1])
  }

  /** The path's places and numbers agree, and the block lies below each of them. */
  lemma PathPlaces(b: nat, k: nat)
    requires b < MAX_BLKNO_LIMIT
    ensures GetNodePath(b).Some?
    ensures
      var path := GetNodePath(b).value;
      && ValidOffsets(path.offset) && |path.noffset| == |path.offset|
      && (k < |path.offset| ==> OnPathAt(path, b, k))
      && (k + 1 < |path.offset| ==>
            var p, q := PlaceAt(path.offset, k), PlaceAt(path.offset, k + 1);
            (p != Root ==> Height(p) >= 2) && q != Root && q.parent == p)
  {
    PathInverse(b);
    var o := GetNodePath(b).value.offset;
    if k == 1 < |o| { PathPlaces1(b); }
    if k == 2 < |o| { PathPlaces2(b); }
    if k == 3 < |o| { PathPlaces3(b); }
    PathHeights(b);
  }

  ghost predicate OnPathAt(path: Path, b: nat, k: nat)
    requires ValidOffsets(path.offset) && k < |path.offset| == |path.noffset|
  {
    var p := PlaceAt(path.offset, k);
    Valid(p) && Noffset(p) == path.noffset[k] && First(p) <= b && (p != Root ==> b < End(p))
  }

  lemma PathPlaces1(b: nat)
    requires b < MAX_BLKNO_LIMIT && |GetNodePath(b).value.offset| > 1
    ensures var path := GetNodePath(b).value; ValidOffsets(path.offset) && |path.noffset| == |path.offset| && OnPathAt(path, b, 1)
  {
    PathInverse(b);
  }

  lemma PathPlaces2(b: nat)
    requires b < MAX_BLKNO_LIMIT && |GetNodePath(b).value.offset| > 2
    ensures var path := GetNodePath(b).value; ValidOffsets(path.offset) && |path.noffset| == |path.offset| && OnPathAt(path, b, 2)
  {
    PathInverse(b);
    var o := GetNodePath(b).value.offset;
    assert PlaceAt(o, 2) == Child(Child(Root, o[0] - 933), o[1]);
  }

  lemma PathPlaces3(b: nat)
    requires b < MAX_BLKNO_LIMIT && |GetNodePath(b).value.offset| > 3
    ensures var path := GetNodePath(b).value; ValidOffsets(path.offset) && |path.noffset| == |path.offset| && OnPathAt(path, b, 3)
  {
    PathInverse(b);
    var o := GetNodePath(b).value.offset;
    var d := Child(Child(Root, 4), o[1]);
    assert PlaceAt(o, 2) == d && PlaceAt(o, 3) == Child(d, o[2]);
    TripleChild(o[1]);
  }

  lemma TripleChild(j: nat)
    requires j < 1020
    ensures
      var d := Child(Child(Root, 4), j);
      Valid(d) && Height(d) == 2 && First(d) == 2083772 + 1040400 * j && Noffset(d) == 2046 + 1021 * j
  {
    var t := Child(Root, 4);
    assert Height(t) == 3 && Valid(t) && First(t) == 2083772 && Noffset(t) == 2045;
  }

  lemma LeafRange(b: nat)
    requires b < MAX_BLKNO_LIMIT
    ensures Valid(Leaf(b)) && IsLeaf(Leaf(b)) && First(Leaf(b)) <= b < First(Leaf(b)) + Width(Leaf(b))
    ensures var o := GetNodePath(b).value.offset; o != [] && b - First(Leaf(b)) == o[|o| - 1]
  {
    PathInverse(b);
    PathHeights(b);
    var o := GetNodePath(b).value.offset;
    PathPlaces(b, |o| - 1);
    LeafFirst(b);
  }

  lemma LeafFirst(b: nat)
    requires b < MAX_BLKNO_LIMIT
    ensures var o := GetNodePath(b).value.offset; o != [] && First(Leaf(b)) + o[|o| - 1] == b
  {
    PathInverse(b);
    var o := GetNodePath(b).value.offset;
    if |o| > 1 { assert PlaceAt(o, 1) == Child(Root, o[0] - 933); }
    if |o| == 3 {
      assert PlaceAt(o, 2) == Child(PlaceAt(o, 1), o[1]);
      assert Height(PlaceAt(o, 1)) == 2 && First(PlaceAt(o, 2)) == Base(o[0] - 933) + 1020 * o[1];
    }
    if |o| == 4 {
      TripleChild(o[1]);
      assert PlaceAt(o, 2) == Child(Child(Root, 4), o[1]) && PlaceAt(o, 3) == Child(PlaceAt(o, 2), o[2]);
      assert First(PlaceAt(o, 3)) == First(PlaceAt(o, 2)) + 1020 * o[2];
    }
  }

  /** At each height there is one place with a given block below it. */
  lemma {:induction false} SameRange(p: Place, q: Place, b: nat)
    requires Valid(p) && Valid(q) && p != Root && q != Root && Height(p) == Height(q)
    requires First(p) <= b < End(p) && First(q) <= b < End(q)
    ensures p == q
    decreases p
  {
    HeightBound(p);
    HeightBound(q);
    if p.parent == Root && q.parent == Root {
      TopRange(p.slot);
      TopRange(q.slot);
    } else if p.parent == Root || q.parent == Root {
      TopDiffers(p, q, b);
    } else {
      ChildRange(p.parent, p.slot);
      ChildRange(q.parent, q.slot);
      SameRange(p.parent, q.parent, b);
    }
  }

  lemma TopDiffers(p: Place, q: Place, b: nat)
    requires Valid(p) && Valid(q) && p != Root && q != Root && (p.parent == Root) != (q.parent == Root)
    requires First(p) <= b < End(p) && First(q) <= b < End(q)
    ensures Height(p) != Height(q)
  {
    hide First, End, Valid, Under, Base;
    var top, low := if p.parent == Root then p else q, if p.parent == Root then q else p;
    assert Valid(top) && top == Child(Root, top.slot) && top.slot < 5 by { TopSlot(top); }
    UnderRoot(low);
    var i := UnderChild(low, Root);
    WithinRange(low, Child(Root, i));
    TopRange(i);
    TopRange(top.slot);
    BaseUnique(i, top.slot, b);
    if low != Child(Root, i) { UnderRange(low, Child(Root, i)); }
  }

  lemma TopSlot(p: Place)
    requires Valid(p) && p != Root && p.parent == Root
    ensures p.slot < 5
  {
  }

  lemma BaseUnique(i: nat, j: nat, b: nat)
    requires i < 5 && j < 5 && Base(i) <= b < Base(i + 1) && Base(j) <= b < Base(j + 1)
    ensures i == j
  {
  }

  lemma LeafUnique(p: Place, b: nat)
    requires Valid(p) && IsLeaf(p) && First(p) <= b < First(p) + Width(p) && b < MAX_BLKNO_LIMIT
    ensures p == Leaf(b)
  {
    LeafRange(b);
    if p != Root { TopByRange(p, 0); }
    if Leaf(b) != Root { TopByRange(Leaf(b), 0); }
    if p != Root && Leaf(b) != Root {
      SameRange(p, Leaf(b), b);
    }
  }

  /** A place with the block below it is on the block's path. */
  lemma OnPath(p: Place, b: nat) returns (k: nat)
    requires Valid(p) && p != Root && b < MAX_BLKNO_LIMIT && First(p) <= b < End(p)
    ensures ValidOffsets(GetNodePath(b).value.offset) && 0 < k < |GetNodePath(b).value.offset|
    ensures PlaceAt(GetNodePath(b).value.offset, k) == p
  {
    PathInverse(b);
    var o := GetNodePath(b).value.offset;
    UnderRoot(p);
    var i := UnderChild(p, Root);
    WithinRange(p, Child(Root, i));
    TopRange(i);
    PathHeights(b);
    if p != Child(Root, i) { UnderRange(p, Child(Root, i)); }
    k := |o| - Height(p);
    PathPlaces(b, k);
    SameRange(p, PlaceAt(o, k), b);
  }

  /** Along the path of a block heights fall by one. */
  lemma PathHeights(b: nat)
    requires b < MAX_BLKNO_LIMIT
    ensures ValidOffsets(GetNodePath(b).value.offset)
    ensures var o := GetNodePath(b).value.offset;
      && (forall k | 0 < k < |o| :: PlaceAt(o, k) != Root && Height(PlaceAt(o, k)) == |o| - k)
      && (|o| == 1 <==> b < Base(0))
      && (forall i | 0 <= i < 5 && Base(i) <= b < Base(i + 1) :: |o| == 1 + Height(Child(Root, i)))
  {
    PathInverse(b);
    var o := GetNodePath(b).value.offset;
    if |o| > 1 { assert PlaceAt(o, 1) == Child(Root, o[0] - 933) && Height(PlaceAt(o, 1)) == |o| - 1; }
    if |o| > 2 { assert PlaceAt(o, 2) == Child(PlaceAt(o, 1), o[1]) && Height(PlaceAt(o, 2)) == |o| - 2; }
    if |o| > 3 { assert PlaceAt(o, 3) == Child(PlaceAt(o, 2), o[2]) && Height(PlaceAt(o, 3)) == |o| - 3; }
  }
}
