/**
 The index tree of a file: 932 addresses in the inode, two direct nodes, two indirect nodes and one
 double indirect node. `GetNodePath` maps a block number to its path through the tree; places name
 the nodes of the tree.
 */
module NodePath {
  import opened Wrappers

  const ADDRS_PER_INODE := 932
  const ADDRS_PER_BLOCK := 1020
  const NIDS_PER_BLOCK := 1020
  const NODE_DIR1_BLOCK := ADDRS_PER_INODE + 1
  const INDIRECT_BLKS := 1040400         // 1020 * 1020
  const DINDIRECT_BLKS := 1061208000     // 1020 * 1020 * 1020
  const MAX_BLKNO_LIMIT := 1063291772

  // ----- the path of a block -----

  datatype Path = Path(offset: seq<nat>, noffset: seq<nat>)

  /** The path of a block, level by level; none when the block is too far. */
  function GetNodePath(block: nat): Option<Path> {
    if block < ADDRS_PER_INODE then Some(Path([block], [0]))
    else
      var b := block - ADDRS_PER_INODE;
      if b < ADDRS_PER_BLOCK then Some(Path([933, b], [0, 1]))
      else
        var b := b - ADDRS_PER_BLOCK;
        if b < ADDRS_PER_BLOCK then Some(Path([934, b], [0, 2]))
        else
          var b := b - ADDRS_PER_BLOCK;
          if b < INDIRECT_BLKS then
            Some(Path([935, b / ADDRS_PER_BLOCK, b % ADDRS_PER_BLOCK], [0, 3, 4 + b / ADDRS_PER_BLOCK]))
          else
            var b := b - INDIRECT_BLKS;
            if b < INDIRECT_BLKS then
              Some(Path([936, b / ADDRS_PER_BLOCK, b % ADDRS_PER_BLOCK],
                        [0, 4 + NIDS_PER_BLOCK, 5 + NIDS_PER_BLOCK + b / ADDRS_PER_BLOCK]))
            else
              var b := b - INDIRECT_BLKS;
              if b < DINDIRECT_BLKS then
                var j, k := b / INDIRECT_BLKS, b / ADDRS_PER_BLOCK % NIDS_PER_BLOCK;
                Some(Path([937, j, k, b % ADDRS_PER_BLOCK],
                          [0, 5 + NIDS_PER_BLOCK * 2, 6 + NIDS_PER_BLOCK * 2 + j * 1021, 7 + NIDS_PER_BLOCK * 2 + j * 1021 + k]))
              else None
  }

  /** A path exists exactly below the limit. */
  lemma PathExistsExactly(block: nat)
    ensures GetNodePath(block).Some? <==> block < MAX_BLKNO_LIMIT
  {
  }

  /** The offsets that name a place and an address in it. */
  predicate ValidOffsets(o: seq<nat>) {
    match |o|
    case 1 => o[0] < ADDRS_PER_INODE
    case 2 => (o[0] == 933 || o[0] == 934) && o[1] < ADDRS_PER_BLOCK
    case 3 => (o[0] == 935 || o[0] == 936) && o[1] < NIDS_PER_BLOCK && o[2] < ADDRS_PER_BLOCK
    case 4 => o[0] == 937 && o[1] < NIDS_PER_BLOCK && o[2] < NIDS_PER_BLOCK && o[3] < ADDRS_PER_BLOCK
    case _ => false
  }

  /** The first block below slot `i` of the inode. */
  function Base(i: nat): nat {
    match i
    case 0 => 932
    case 1 => 1952
    case 2 => 2972
    case 3 => 1043372
    case 4 => 2083772
    case _ => MAX_BLKNO_LIMIT
  }

  /** The block that a sequence of offsets leads to. */
  function BlockOf(o: seq<nat>): nat
    requires ValidOffsets(o)
  {
    match |o|
    case 1 => o[0]
    case 2 => Base(o[0] - 933) + o[1]
    case 3 => Base(o[0] - 933) + 1020 * o[1] + o[2]
    case 4 => Base(4) + 1040400 * o[1] + 1020 * o[2] + o[3]
  }

  /** The offsets determine the block: paths are injective, with this inverse. */
  lemma PathInverse(block: nat)
    requires block < MAX_BLKNO_LIMIT
    ensures var o := GetNodePath(block).value.offset; ValidOffsets(o) && BlockOf(o) == block
  {
    if block >= 2083772 { Digits(block - 2083772); }
  }

  /** Every valid sequence of offsets is the path of the block it leads to. */
  lemma PathOnto(o: seq<nat>)
    requires ValidOffsets(o)
    ensures BlockOf(o) < MAX_BLKNO_LIMIT && GetNodePath(BlockOf(o)).value.offset == o
  {
    match |o|
    case 1 => assert o == [o[0]];
    case 2 => assert o == [o[0], o[1]];
    case 3 =>
      OneDigit(o[1], o[2]);
      assert o == [o[0], o[1], o[2]];
    case 4 =>
      TwoDigits(o[1], o[2], o[3]);
      assert o == [o[0], o[1], o[2], o[3]];
  }

  lemma Digits(b: nat)
    requires b < DINDIRECT_BLKS
    ensures b / 1040400 < 1020 && b == 1040400 * (b / 1040400) + 1020 * (b / 1020 % 1020) + b % 1020
  {
    var q := b / 1020;
    assert q / 1020 == b / 1040400;
  }

  lemma OneDigit(j: nat, r: nat)
    requires j < 1020 && r < 1020
    ensures (1020 * j + r) / 1020 == j && (1020 * j + r) % 1020 == r && 1020 * j + r < 1040400
  {
  }

  lemma TwoDigits(j: nat, k: nat, r: nat)
    requires j < 1020 && k < 1020 && r < 1020
    ensures var b := 1040400 * j + 1020 * k + r;
            b / 1040400 == j && b / 1020 % 1020 == k && b % 1020 == r && b < DINDIRECT_BLKS
  {
    var b := 1040400 * j + 1020 * k + r;
    var q := b / 1020;
    assert q == 1020 * j + k && b % 1020 == r;
    OneDigit(j, k);
    assert q / 1020 == b / 1040400;
  }
}
