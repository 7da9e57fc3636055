/**
 Directories: hash tables of doubling size laid out one after the other in the directory file. A
 name lives in one bucket of one level; when its buckets are full a level is appended.
 */
module Directory {
  import opened Bytes
  import opened SitEntry
  import opened NodePath
  import opened FileTree
  import opened FileFree
  import opened FileResizer

  const MAX_DIR_HASH_DEPTH := 63
  const MAX_DIR_BUCKETS := 0x4000_0000      // 2^30

  function BucketNum(level: nat, dirLevel: nat): nat {
    if level + dirLevel < MAX_DIR_HASH_DEPTH / 2 then Pow2(level + dirLevel) else MAX_DIR_BUCKETS
  }

  function BucketBlockNum(level: nat): nat { if level < MAX_DIR_HASH_DEPTH / 2 then 2 else 4 }

  /** All blocks of a level, and the first block of a level. */
  function LevelBlocks(level: nat, dirLevel: nat): nat {
    if level < 31 then 2 * BucketNum(level, dirLevel) else 4 * BucketNum(level, dirLevel)
  }

  function LevelStart(level: nat, dirLevel: nat): nat {
    if level == 0 then 0 else LevelStart(level - 1, dirLevel) + LevelBlocks(level - 1, dirLevel)
  }

  function BucketStart(level: nat, dirLevel: nat, bucket: nat): nat {
    LevelStart(level, dirLevel) + if level < 31 then 2 * bucket else 4 * bucket
  }

  // ----- sizes -----

  lemma {:induction false} LevelStartIs(level: nat)
    requires level <= 31
    ensures LevelStart(level, 0) == 2 * Pow2(level) - 2
  {
    if level > 0 { LevelStartIs(level - 1); }
  }

  lemma {:induction false} Pow2Grows(a: nat, b: nat)
    requires a <= b
    ensures 1 <= Pow2(a) <= Pow2(b)
  {
    if a < b { Pow2Grows(a, b - 1); } else if a > 0 { Pow2Grows(a - 1, a - 1); }
  }

  lemma Pow2Values()
    ensures Pow2(28) == 0x1000_0000 && Pow2(29) == 0x2000_0000 && Pow2(30) == 0x4000_0000
  {
    assert Pow2(4) == 16;
    assert Pow2(8) == 16 * Pow2(4);
    assert Pow2(12) == 16 * Pow2(8);
    assert Pow2(16) == 16 * Pow2(12);
    assert Pow2(20) == 16 * Pow2(16);
    assert Pow2(24) == 16 * Pow2(20);
    assert Pow2(28) == 16 * Pow2(24);
  }

  /** The file-size limit bounds the depth: up to 27 a directory of full levels fits, beyond it does not. */
  lemma DepthLimit(depth: nat)
    requires depth < 31
    ensures LevelStart(depth + 1, 0) == 2 * Pow2(depth + 1) - 2
    ensures LevelStart(depth + 1, 0) <= MAX_BLKNO_LIMIT <==> depth <= 27
  {
    LevelStartIs(depth + 1);
    Pow2Values();
    hide Pow2;
    if depth <= 27 { Pow2Grows(depth + 1, 28); } else { Pow2Grows(29, depth + 1); }
  }

  // ----- the ranges tile the file -----

  /** Block `b` belongs to bucket `bucket` of level `level`. */
  predicate InBucket(b: nat, level: nat, bucket: nat) {
    BucketStart(level, 0, bucket) <= b < BucketStart(level, 0, bucket) + BucketBlockNum(level)
  }

  lemma {:induction false} LevelStartGrows(i: nat, j: nat)
    requires i <= j
    ensures LevelStart(i, 0) <= LevelStart(j, 0)
    ensures i < j ==> LevelStart(i, 0) + LevelBlocks(i, 0) <= LevelStart(j, 0)
  {
    if i < j { LevelStartGrows(i, j - 1); }
  }

  /** A bucket lies inside its level. */
  lemma BucketInLevel(level: nat, bucket: nat)
    requires bucket < BucketNum(level, 0)
    ensures LevelStart(level, 0) <= BucketStart(level, 0, bucket)
    ensures BucketStart(level, 0, bucket) + BucketBlockNum(level) <= LevelStart(level + 1, 0)
  {
  }

  /** No block belongs to two buckets. */
  lemma BucketsDisjoint(b: nat, level: nat, bucket: nat, level': nat, bucket': nat)
    requires bucket < BucketNum(level, 0) && bucket' < BucketNum(level', 0)
    requires InBucket(b, level, bucket) && InBucket(b, level', bucket')
    ensures level == level' && bucket == bucket'
  {
    hide BucketNum, LevelStart;
    BucketInLevel(level, bucket);
    BucketInLevel(level', bucket');
    if level < level' { LevelStartGrows(level + 1, level'); }
    if level' < level { LevelStartGrows(level' + 1, level); }
  }

  /** Every block of the directory belongs to a bucket. */
  lemma {:induction false} BucketsCover(b: nat, depth: nat) returns (level: nat, bucket: nat)
    requires b < LevelStart(depth + 1, 0)
    ensures level <= depth && bucket < BucketNum(level, 0) && InBucket(b, level, bucket)
  {
    if b < LevelStart(depth, 0) {
      level, bucket := BucketsCover(b, depth - 1);
    } else {
      level, bucket := depth, if depth < 31 then (b - LevelStart(depth, 0)) / 2 else (b - LevelStart(depth, 0)) / 4;
    }
  }

  // ----- 32-bit arithmetic -----

  function Wrap(x: nat): nat { x % 0x1_0000_0000 }

  /** The first block of a bucket, summed up in 32 bits; in every directory that can exist nothing wraps. */
  method BucketStartBlockIndex(level: nat, dirLevel: nat, bucket: nat) returns (bidx: nat)
    ensures bidx == Wrap(BucketStart(level, dirLevel, bucket))
    ensures level <= 27 && dirLevel == 0 && bucket < BucketNum(level, 0) ==> bidx == BucketStart(level, 0, bucket)
  {
    hide BucketNum;
    bidx := 0;
    var i := 0;
    while i < level
      invariant 0 <= i <= level && bidx == Wrap(LevelStart(i, dirLevel))
    {
      var n := LevelBlocks(i, dirLevel);
      WrapAdd(LevelStart(i, dirLevel), n);
      bidx := Wrap(bidx + Wrap(n));
      i := i + 1;
    }
    var off := if level < 31 then 2 * bucket else 4 * bucket;
    WrapAdd(LevelStart(level, dirLevel), off);
    bidx := Wrap(bidx + Wrap(off));
    if level <= 27 && dirLevel == 0 && bucket < BucketNum(level, 0) { NoWrap(level, bucket); }
  }

  lemma WrapAdd(x: nat, y: nat)
    ensures Wrap(Wrap(x) + Wrap(y)) == Wrap(x + y)
  {
  }

  lemma NoWrap(level: nat, bucket: nat)
    requires level <= 27 && bucket < BucketNum(level, 0)
    ensures BucketStart(level, 0, bucket) + BucketBlockNum(level) <= 0x2000_0000
    ensures Wrap(BucketStart(level, 0, bucket)) == BucketStart(level, 0, bucket)
  {
    hide Pow2, LevelStart, BucketNum;
    BucketInLevel(level, bucket);
    LevelStartIs(level + 1);
    Pow2Values();
    Pow2Grows(level + 1, 28);
  }

  // ----- names -----

  datatype Found = Found(ino: u32, slot: nat)

  /** A directory block: the names stored in it, and its longest run of free slots. */
  datatype DirBlock = DirBlock(entries: map<string, Found>, maxFree: nat, freePos: nat)

  datatype Pos = NoPos | Pos(blkno: nat, slot: nat)

  datatype Info = Info(ino: u32, pos: Pos)

  function SlotsNeeded(name: string): nat { (|name| + 7) / 8 }

  /** The name in one block, or else a place for it; an unallocated block is free from its first slot. */
  function FindInBlock(data: map<nat, DirBlock>, b: nat, name: string): Info {
    if b !in data then Info(0, Pos(b, 0))
    else if name in data[b].entries then Info(data[b].entries[name].ino, Pos(b, data[b].entries[name].slot))
    else if SlotsNeeded(name) <= data[b].maxFree then Info(0, Pos(b, data[b].freePos))
    else Info(0, NoPos)
  }

  /** The block has a free run of eight-byte slots that takes the name, and does not hold it. */
  predicate HasRoom(data: map<nat, DirBlock>, b: nat, name: string) {
    b !in data || (name !in data[b].entries && |name| <= 8 * data[b].maxFree)
  }

  /** Where the block's free run begins. */
  function FreeSlot(data: map<nat, DirBlock>, b: nat): nat { if b in data then data[b].freePos else 0 }

  predicate Holds(data: map<nat, DirBlock>, b: nat, name: string) { b in data && name in data[b].entries }

  /** The blocks where a name with this hash may be, up to a level. */
  ghost predicate Candidate(b: nat, hash: nat, levels: nat) {
    exists level :: 0 <= level < levels && BucketNum(level, 0) > 0 && InBucket(b, level, hash % BucketNum(level, 0))
  }

  lemma BucketNumPositive(level: nat)
    ensures BucketNum(level, 0) > 0
  {
    if level < 31 { Pow2Grows(0, level); }
  }

  /** Candidates grow by one bucket a level. */
  lemma CandidateStep(b: nat, hash: nat, level: nat)
    requires BucketNum(level, 0) > 0
    ensures Candidate(b, hash, level + 1) <==> Candidate(b, hash, level) || InBucket(b, level, hash % BucketNum(level, 0))
    ensures !Candidate(b, hash, 0)
  {
    hide InBucket, BucketNum;
    if Candidate(b, hash, level + 1) {
      var l :| 0 <= l < level + 1 && BucketNum(l, 0) > 0 && InBucket(b, l, hash % BucketNum(l, 0));
    }
  }

  /** Candidates lie in the file. */
  lemma CandidateInFile(b: nat, hash: nat, levels: nat)
    requires Candidate(b, hash, levels)
    ensures b < LevelStart(levels, 0)
  {
    hide BucketNum, LevelStart;
    var l :| 0 <= l < levels && BucketNum(l, 0) > 0 && InBucket(b, l, hash % BucketNum(l, 0));
    BucketInLevel(l, hash % BucketNum(l, 0));
    LevelStartGrows(l + 1, levels);
  }

  /**
   What is known after searching the blocks in `seen`, lowest first: where the name is, or that it is
   in none of them and which is the first place for it, if there is one.
   */
  ghost predicate Searched(data: map<nat, DirBlock>, name: string, seen: set<nat>, r: Info) {
    if r.ino != 0 then
      && r.pos.Pos? && r.pos.blkno in seen && Holds(data, r.pos.blkno, name)
      && data[r.pos.blkno].entries[name] == Found(r.ino, r.pos.slot)
      && (forall b | b in seen && b < r.pos.blkno :: !Holds(data, b, name))
    else
      && (forall b | b in seen :: !Holds(data, b, name))
      && (r.pos == NoPos ==> forall b | b in seen :: !HasRoom(data, b, name))
      && (r.pos.Pos? ==>
            && r.pos.blkno in seen && HasRoom(data, r.pos.blkno, name) && r.pos.slot == FreeSlot(data, r.pos.blkno)
            && (forall b | b in seen && b < r.pos.blkno :: !HasRoom(data, b, name)))
  }

  /** The position begins the free run of a block with room, and no candidate before that block has room. */
  ghost predicate FirstPlace(data: map<nat, DirBlock>, name: string, hash: nat, levels: nat, pos: Pos)
    requires pos.Pos?
  {
    && HasRoom(data, pos.blkno, name) && pos.slot == FreeSlot(data, pos.blkno)
    && forall b: nat | Candidate(b, hash, levels) && b < pos.blkno :: !HasRoom(data, b, name)
  }

  /**
   What a lookup in `levels` levels returns: the name from the first candidate that holds it; or none
   when no candidate does, with the first place for it, or no place when no candidate has room.
   */
  ghost predicate Looked(data: map<nat, DirBlock>, name: string, hash: nat, levels: nat, r: Info) {
    if r.ino != 0 then
      && r.pos.Pos? && Candidate(r.pos.blkno, hash, levels) && Holds(data, r.pos.blkno, name)
      && data[r.pos.blkno].entries[name] == Found(r.ino, r.pos.slot)
      && (forall b: nat | Candidate(b, hash, levels) && b < r.pos.blkno :: !Holds(data, b, name))
    else
      && (forall b: nat | Candidate(b, hash, levels) :: !Holds(data, b, name))
      && (r.pos == NoPos ==> forall b: nat | Candidate(b, hash, levels) :: !HasRoom(data, b, name))
      && (r.pos.Pos? ==> Candidate(r.pos.blkno, hash, levels) && FirstPlace(data, name, hash, levels, r.pos))
  }

  ghost predicate RealInodes(data: map<nat, DirBlock>) {
    forall b, n | b in data && n in data[b].entries :: data[b].entries[n].ino != 0
  }

  ghost function Span(lo: nat, hi: nat): (r: set<nat>)
    ensures forall b :: b in r <==> lo <= b < hi
  {
    if hi <= lo then {} else Span(lo, hi - 1) + {hi - 1}
  }

  /** Searches the blocks [start, end); keeps the first place found before. */
  method ScanBucket(data: map<nat, DirBlock>, name: string, start: nat, end: nat, r0: Info, ghost seen: set<nat>) returns (r: Info)
    requires Searched(data, name, seen, r0) && r0.ino == 0 && start <= end && RealInodes(data)
    requires forall b | b in seen :: b < start
    ensures Searched(data, name, seen + Span(start, end), r)
  {
    r := r0;
    var b := start;
    while b < end
      invariant start <= b <= end && r.ino == 0
      invariant Searched(data, name, seen + Span(start, b), r)
    {
      var here := FindInBlock(data, b, name);
      ghost var next := seen + Span(start, b + 1);
      if here.ino != 0 {
        assert Holds(data, b, name) && b in seen + Span(start, end);
        assert forall c | c in seen + Span(start, end) && c < b :: c in seen + Span(start, b);
        return here;
      }
      assert !Holds(data, b, name);
      if r.pos == NoPos && here.pos != NoPos {
        r := r.(pos := here.pos);
      }
      assert next == (seen + Span(start, b)) + {b};
      assert Searched(data, name, next, r);
      b := b + 1;
    }
  }

  /** Searches the levels one by one; each bucket lies inside the file's blocks. */
  method SearchLevels(data: map<nat, DirBlock>, depth: nat, blocks: nat, name: string, hash: nat) returns (r: Info)
    requires RealInodes(data) && depth <= 27 && blocks == LevelStart(depth + 1, 0)
    ensures Looked(data, name, hash, depth + 1, r)
  {
    hide BucketNum, BucketStart, BucketBlockNum, LevelStart, Candidate, RealInodes, Searched, Looked;
    r := Info(0, NoPos);
    var level := 0;
    ghost var seen: set<nat> := {};
    SeenNothing(hash);
    NothingSearched(data, name);
    while level <= depth
      invariant 0 <= level <= depth + 1 && r.ino == 0 && Searched(data, name, seen, r)
      invariant forall b :: b in seen <==> Candidate(b, hash, level)
    {
      BucketNumPositive(level);
      var bucket := hash % BucketNum(level, 0);
      var start := BucketStartBlockIndex(level, 0, bucket);
      var end := start + BucketBlockNum(level);
      LookupInBounds(level, bucket, depth);
      assert end <= blocks;
      SeenBefore(hash, level, bucket, seen);
      r := ScanBucket(data, name, start, end, r, seen);
      SeenStep(hash, level, seen, start, end);
      seen := seen + Span(start, end);
      if r.ino != 0 {
        SearchedIsLooked(data, name, hash, level + 1, depth + 1, seen, r);
        return;
      }
      level := level + 1;
    }
    SearchedIsLooked(data, name, hash, depth + 1, depth + 1, seen, r);
  }

  /** One more level fits the file-size limit, and there are ids for the index nodes it needs. */
  ghost predicate CanAppend(depth: nat, freeIds: nat) {
    depth < 27 && LevelStart(depth + 2, 0) <= MAX_BLKNO_LIMIT && |Needed(LevelStart(depth + 1, 0), LevelStart(depth + 2, 0))| <= freeIds
  }

  class Directory {
    const file: FileIndex
    var depth: nat                    // i_current_depth; i_dir_level is always 0
    var data: map<nat, DirBlock>

    /** The file is exactly its levels; stored inode numbers are real; nothing lies outside the file. */
    ghost predicate Valid()
      reads this, file
    {
      && file.Valid() && depth < 31
      && file.size == 4096 * LevelStart(depth + 1, 0)
      && (forall b | b in data :: b < LevelStart(depth + 1, 0))
      && RealInodes(data)
    }

    /** A new directory has level 0: two blocks, both unallocated, in the inode's own addresses. */
    constructor (f: FileIndex)
      requires f.Valid() && f.size == 8192
      ensures Valid() && file == f && depth == 0 && data == map[]
    {
      file, depth, data := f, 0, map[];
      new;
      LevelStartIs(1);
      assert Pow2(1) == 2;
    }

    /** The name in the buckets its hash selects, or else the first place for it. */
    method Lookup(name: string, hash: nat) returns (r: Info)
      requires Valid()
      ensures Looked(data, name, hash, depth + 1, r)
    {
      hide Looked, RealInodes, LevelStart, File;
      DepthBound();
      r := SearchLevels(data, depth, SizeToBlock(file.size), name, hash);
    }

    /** The file-size limit keeps the depth at 27 or less. */
    lemma DepthBound()
      requires Valid()
      ensures depth <= 27 && SizeToBlock(file.size) == LevelStart(depth + 1, 0)
    {
      hide LevelStart;
      DepthLimit(depth);
    }

    /** One more level; it fails exactly when the directory already has 28 levels or node ids run out. */
    method AppendHashLevel() returns (r: Result)
      requires Valid()
      modifies this`depth, file
      ensures depth == old(depth) + 1
      ensures r == SizeExceedsLimit <==> old(depth) == 27
      ensures r == Success <==> CanAppend(old(depth), |old(file.t.free)|)
      ensures r == Success ==> Valid()
      ensures r != AssertionFailed
    {
      hide LevelStart, LevelBlocks, File, Addr, Ids, SizeToBlock, RealInodes, Needed;
      DepthBound();
      LevelSum(depth);
      DepthLimit(depth + 1);
      SmallEnough(depth + 1);
      depth := depth + 1;
      var need := LevelBlocks(depth, 0);
      BlocksOf(LevelStart(depth, 0) + need);
      var tarSize := (SizeToBlock(file.size) + need) * 4096;
      r := file.Expand(tarSize);
    }

    /** A place to create a name that is not there yet: found at once, or certainly after one more level. */
    method GetCreatePos(name: string, hash: nat) returns (r: Result, pos: Pos)
      requires Valid() && forall b | Candidate(b, hash, depth + 1) :: !Holds(data, b, name)
      modifies this`depth, file
      ensures r == Success ==> Valid() && pos.Pos? && FirstPlace(data, name, hash, depth + 1, pos)
      ensures r == Success ==> Candidate(pos.blkno, hash, depth + 1) && pos.blkno < LevelStart(depth + 1, 0)
      ensures r == Success ==> old(depth) <= depth <= old(depth) + 1
      ensures r == SizeExceedsLimit ==> old(depth) == 27
      ensures r == Success <==>
                || (exists b: nat :: Candidate(b, hash, old(depth) + 1) && HasRoom(data, b, name))
                || CanAppend(old(depth), |old(file.t.free)|)
      ensures (exists b: nat :: Candidate(b, hash, old(depth) + 1) && HasRoom(data, b, name)) ==>
                depth == old(depth) && file.t == old(file.t) && file.size == old(file.size)
    {
      hide BucketNum, LevelStart, Candidate, Holds, HasRoom, BucketStart, BucketBlockNum, File, RealInodes, CanAppend;
      r, pos := Success, NoPos;
      var info := Lookup(name, hash);
      if info.pos == NoPos {
        r := AppendHashLevel();
        if r != Success {
          return;
        }
        NewLevelIsFree(data, hash, depth, name);
        NewLevelIsEmpty(data, hash, depth, name);
        info := Lookup(name, hash);
      }
      pos := info.pos;
      CandidateInFile(pos.blkno, hash, depth + 1);
    }
  }

  lemma NothingSearched(data: map<nat, DirBlock>, name: string)
    ensures Searched(data, name, {}, Info(0, NoPos))
  {
  }

  /** Having searched all candidates of some levels, or enough of them to find the name, the lookup is answered. */
  lemma SearchedIsLooked(data: map<nat, DirBlock>, name: string, hash: nat, levels: nat, more: nat, seen: set<nat>, r: Info)
    requires Searched(data, name, seen, r) && (forall b :: b in seen <==> Candidate(b, hash, levels))
    requires levels <= more && (r.ino == 0 ==> levels == more)
    ensures Looked(data, name, hash, more, r)
  {
    hide Candidate, HasRoom, Holds;
    if r.ino != 0 {
      CandidateMore(r.pos.blkno, hash, levels, more);
      forall b: nat | Candidate(b, hash, more) && b < r.pos.blkno ensures !Holds(data, b, name) {
        EarlierCandidate(b, r.pos.blkno, hash, levels, more);
      }
    }
  }

  lemma SeenNothing(hash: nat)
    ensures forall b :: !Candidate(b, hash, 0)
  {
  }

  lemma SeenStep(hash: nat, level: nat, seen: set<nat>, start: nat, end: nat)
    requires BucketNum(level, 0) > 0 && start == BucketStart(level, 0, hash % BucketNum(level, 0)) && end == start + BucketBlockNum(level)
    requires forall b :: b in seen <==> Candidate(b, hash, level)
    ensures forall b :: b in seen + Span(start, end) <==> Candidate(b, hash, level + 1)
  {
    hide BucketNum, BucketStart, BucketBlockNum, Candidate;
    forall b ensures b in seen + Span(start, end) <==> Candidate(b, hash, level + 1) {
      if b >= 0 { CandidateStep(b, hash, level); }
    }
  }

  /** What was searched on earlier levels lies before this level. */
  lemma SeenBefore(hash: nat, level: nat, bucket: nat, seen: set<nat>)
    requires forall b :: b in seen <==> Candidate(b, hash, level)
    requires bucket < BucketNum(level, 0)
    ensures forall b | b in seen :: b < BucketStart(level, 0, bucket)
  {
    hide BucketNum, LevelStart, Candidate;
    BucketInLevel(level, bucket);
    forall b | b in seen ensures b < BucketStart(level, 0, bucket) { CandidateInFile(b, hash, level); }
  }

  /** A candidate below one of the first levels belongs to the first levels. */
  lemma EarlierCandidate(b: nat, c: nat, hash: nat, levels: nat, more: nat)
    requires Candidate(b, hash, more) && Candidate(c, hash, levels) && b < c && levels <= more
    ensures Candidate(b, hash, levels)
  {
    hide BucketNum, LevelStart;
    var l :| 0 <= l < more && BucketNum(l, 0) > 0 && InBucket(b, l, hash % BucketNum(l, 0));
    CandidateInFile(c, hash, levels);
    if l >= levels {
      BucketInLevel(l, hash % BucketNum(l, 0));
      LevelStartGrows(levels, l);
    }
  }

  lemma CandidateMore(b: nat, hash: nat, levels: nat, levels': nat)
    requires Candidate(b, hash, levels) && levels <= levels'
    ensures Candidate(b, hash, levels')
  {
    hide InBucket, BucketNum;
  }

  /** The bound that lookup asserts. */
  lemma LookupInBounds(level: nat, bucket: nat, depth: nat)
    requires level <= depth && bucket < BucketNum(level, 0)
    ensures BucketStart(level, 0, bucket) + BucketBlockNum(level) <= LevelStart(depth + 1, 0)
  {
    hide BucketNum, LevelStart;
    BucketInLevel(level, bucket);
    LevelStartGrows(level + 1, depth + 1);
  }

  lemma LevelSum(depth: nat)
    ensures LevelStart(depth + 1, 0) + LevelBlocks(depth + 1, 0) == LevelStart(depth + 2, 0)
    ensures LevelBlocks(depth + 1, 0) > 0
  {
    BucketNumPositive(depth + 1);
  }

  lemma BlocksOf(n: nat)
    ensures SizeToBlock(n * 4096) == n && SizeToBlock(4096 * n) == n
  {
  }

  lemma SmallEnough(depth: nat)
    requires depth <= 28
    ensures LevelStart(depth + 1, 0) <= 0x4000_0000
  {
    LevelStartIs(depth + 1);
    Pow2Values();
    hide Pow2;
    Pow2Grows(depth + 1, 29);
  }

  /** The blocks of the last level are unallocated, and one of them is a candidate. */
  lemma NewLevelIsFree(data: map<nat, DirBlock>, hash: nat, depth: nat, name: string)
    requires forall b | b in data :: b < LevelStart(depth, 0)
    ensures exists b :: Candidate(b, hash, depth + 1) && HasRoom(data, b, name)
  {
    hide BucketNum, LevelStart;
    BucketNumPositive(depth);
    var bucket := hash % BucketNum(depth, 0);
    BucketInLevel(depth, bucket);
    var b := BucketStart(depth, 0, bucket);
    assert InBucket(b, depth, bucket) && b !in data;
    assert Candidate(b, hash, depth + 1) && HasRoom(data, b, name);
  }

  lemma NewLevelIsEmpty(data: map<nat, DirBlock>, hash: nat, depth: nat, name: string)
    requires forall b | b in data :: b < LevelStart(depth, 0)
    requires forall b | Candidate(b, hash, depth) :: !Holds(data, b, name)
    ensures forall b | Candidate(b, hash, depth + 1) :: !Holds(data, b, name)
  {
    hide BucketNum, LevelStart, Candidate;
    BucketNumPositive(depth);
    BucketInLevel(depth, hash % BucketNum(depth, 0));
    forall b | Candidate(b, hash, depth + 1) ensures !Holds(data, b, name) {
      CandidateStep(b, hash, depth);
    }
  }
}
