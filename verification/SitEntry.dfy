/**
 One SIT entry: a 512-bit validity bitmap, and a word whose low 9 bits count valid blocks and
 whose high 23 bits link the segment to the next one of its list.
 */
module SitEntry {
  import opened Bytes

  const BLOCK_PER_SEGMENT := 512
  const COUNT_LIMIT := 512          // 2^9

  // ----- single bits of a byte -----

  predicate BitOf(x: nat, b: nat) {
    if b == 0 then x % 2 == 1 else BitOf(x / 2, b - 1)
  }

  /** x | (1 << b) */
  function WithBit(x: nat, b: nat): nat {
    if b == 0 then x - x % 2 + 1 else 2 * WithBit(x / 2, b - 1) + x % 2
  }

  /** x & ~(1 << b) */
  function WithoutBit(x: nat, b: nat): nat {
    if b == 0 then x - x % 2 else 2 * WithoutBit(x / 2, b - 1) + x % 2
  }

  lemma {:induction false} BitOfUpdate(x: nat, b: nat, c: nat)
    ensures BitOf(WithBit(x, b), c) <==> c == b || BitOf(x, c)
    ensures BitOf(WithoutBit(x, b), c) <==> c != b && BitOf(x, c)
    decreases b
  {
    if b == 0 {
      assert (x - x % 2 + 1) / 2 == x / 2 && (x - x % 2) / 2 == x / 2;
    } else {
      assert WithBit(x, b) / 2 == WithBit(x / 2, b - 1) && WithBit(x, b) % 2 == x % 2;
      assert WithoutBit(x, b) / 2 == WithoutBit(x / 2, b - 1) && WithoutBit(x, b) % 2 == x % 2;
      if c > 0 {
        BitOfUpdate(x / 2, b - 1, c - 1);
      }
    }
  }

  lemma {:induction false} WithBitRange(x: nat, b: nat, n: nat)
    requires b < n && x < Pow2(n)
    ensures WithBit(x, b) < Pow2(n) && WithoutBit(x, b) <= x
  {
    assert Pow2(n) == 2 * Pow2(n - 1);
    var half := Pow2(n - 1);
    var q, r := x / 2, x % 2;
    assert x == 2 * q + r;
    hide Pow2;
    if b > 0 {
      WithBitRange(q, b - 1, n - 1);
      var y, z := WithBit(q, b - 1), WithoutBit(q, b - 1);
      assert WithBit(x, b) == 2 * y + r && WithoutBit(x, b) == 2 * z + r;
    }
  }

  function Pow2(n: nat): (r: nat)
    ensures r > 0
  {
    if n == 0 then 1 else 2 * Pow2(n - 1)
  }

  lemma ByteStaysByte(x: byte, b: nat)
    requires b < 8
    ensures 0 <= WithBit(x, b) < 256 && 0 <= WithoutBit(x, b) < 256
  {
    assert Pow2(8) == 256 by {
      assert Pow2(4) == 16;
      assert Pow2(6) == 4 * Pow2(4);
      assert Pow2(8) == 4 * Pow2(6);
    }
    WithBitRange(x, b, 8);
  }

  // ----- entries -----

  datatype Entry = Entry(vblocks: u32, validMap: seq<byte>) {
    predicate WellFormed() { |validMap| == 64 }
    function Count(): nat { vblocks % COUNT_LIMIT }
    function NextSeg(): nat { vblocks / COUNT_LIMIT }

    predicate Valid(k: nat)
      requires WellFormed() && k < BLOCK_PER_SEGMENT
    {
      BitOf(validMap[k / 8], k % 8)
    }
  }

  /** Validating block `k`; the count stops at 511 because it has 9 bits. */
  function Validate(e: Entry, k: nat): (r: Entry)
    requires e.WellFormed() && k < BLOCK_PER_SEGMENT
  {
    ByteStaysByte(e.validMap[k / 8], k % 8);
    Entry(if e.Count() < 511 then e.vblocks + 1 else e.vblocks,
          e.validMap[k / 8 := WithBit(e.validMap[k / 8], k % 8)])
  }

  function Invalidate(e: Entry, k: nat): (r: Entry)
    requires e.WellFormed() && k < BLOCK_PER_SEGMENT
  {
    ByteStaysByte(e.validMap[k / 8], k % 8);
    Entry(if e.Count() > 0 then e.vblocks - 1 else e.vblocks,
          e.validMap[k / 8 := WithoutBit(e.validMap[k / 8], k % 8)])
  }

  function Change(e: Entry, k: nat, valid: bool): Entry
    requires e.WellFormed() && k < BLOCK_PER_SEGMENT
  {
    if valid then Validate(e, k) else Invalidate(e, k)
  }

  /** The change touches exactly the bit of block `k`. */
  lemma ChangeBits(e: Entry, k: nat, valid: bool, j: nat)
    requires e.WellFormed() && k < BLOCK_PER_SEGMENT && j < BLOCK_PER_SEGMENT
    ensures Change(e, k, valid).WellFormed()
    ensures Change(e, k, valid).Valid(j) <==> if j == k then valid else e.Valid(j)
  {
    BitOfUpdate(e.validMap[k / 8], k % 8, j % 8);
    assert j == 8 * (j / 8) + j % 8 && k == 8 * (k / 8) + k % 8;
  }

  /** The link to the next segment is never disturbed. */
  lemma ChangeKeepsLink(e: Entry, k: nat, valid: bool)
    requires e.WellFormed() && k < BLOCK_PER_SEGMENT
    ensures Change(e, k, valid).NextSeg() == e.NextSeg()
    ensures Change(e, k, valid).Count() ==
            if valid then (if e.Count() < 511 then e.Count() + 1 else 511)
            else (if e.Count() > 0 then e.Count() - 1 else 0)
  {
  }

  // ----- the count and the bitmap -----

  /** How many of the first `n` blocks are valid. */
  function Population(e: Entry, n: nat): nat
    requires e.WellFormed() && n <= BLOCK_PER_SEGMENT
  {
    if n == 0 then 0 else Population(e, n - 1) + if e.Valid(n - 1) then 1 else 0
  }

  /** The stored count is the population, or one less. */
  ghost predicate CountOk(e: Entry) {
    e.WellFormed() &&
    var p := Population(e, BLOCK_PER_SEGMENT);
    e.Count() == p || e.Count() + 1 == p
  }

  lemma {:induction false} PopulationBound(e: Entry, n: nat)
    requires e.WellFormed() && n <= BLOCK_PER_SEGMENT
    ensures Population(e, n) <= n
  {
    if n > 0 { PopulationBound(e, n - 1); }
  }

  lemma {:induction false} PopulationChange(e: Entry, k: nat, valid: bool, n: nat)
    requires e.WellFormed() && k < BLOCK_PER_SEGMENT && n <= BLOCK_PER_SEGMENT
    requires e.Valid(k) != valid
    ensures Change(e, k, valid).WellFormed()
    ensures Population(Change(e, k, valid), n) ==
            Population(e, n) + (if k < n then (if valid then 1 else -1) else 0)
  {
    hide Change, Entry.Valid;
    if n > 0 {
      PopulationChange(e, k, valid, n - 1);
      ChangeBits(e, k, valid, n - 1);
    } else {
      ChangeBits(e, k, valid, 0);
    }
  }

  /** A legal change keeps the count within one of the population. */
  lemma CountStaysOk(e: Entry, k: nat, valid: bool)
    requires CountOk(e) && k < BLOCK_PER_SEGMENT && e.Valid(k) != valid
    ensures CountOk(Change(e, k, valid))
  {
    hide Change, Entry.Valid, Entry.Count, Population;
    PopulationChange(e, k, valid, BLOCK_PER_SEGMENT);
    PopulationBound(Change(e, k, valid), BLOCK_PER_SEGMENT);
    ChangeKeepsLink(e, k, valid);
  }

  /** A run of legal changes: each block of `ks` in turn is validated if invalid, invalidated if valid. */
  function Toggled(e: Entry, ks: seq<nat>): (r: Entry)
    requires e.WellFormed() && forall i | 0 <= i < |ks| :: ks[i] < BLOCK_PER_SEGMENT
    ensures r.WellFormed()
  {
    if ks == [] then e
    else
      var p, k := Toggled(e, ks[..|ks| - 1]), ks[|ks| - 1];
      Change(p, k, !p.Valid(k))
  }

  /** Over every run the count is the population or one less, and the link is what it was. */
  lemma {:induction false} EveryRunCounts(e: Entry, ks: seq<nat>)
    requires CountOk(e) && forall i | 0 <= i < |ks| :: ks[i] < BLOCK_PER_SEGMENT
    ensures CountOk(Toggled(e, ks)) && Toggled(e, ks).NextSeg() == e.NextSeg()
  {
    hide Change, Population, Entry.NextSeg, Entry.Valid;
    if ks != [] {
      var p, k := Toggled(e, ks[..|ks| - 1]), ks[|ks| - 1];
      EveryRunCounts(e, ks[..|ks| - 1]);
      CountStaysOk(p, k, !p.Valid(k));
      ChangeKeepsLink(p, k, !p.Valid(k));
    }
  }

  /** Whether the count is one short after a run: it falls behind when the segment is full and catches up when it is empty. */
  ghost predicate Lags(e: Entry, ks: seq<nat>)
    requires e.WellFormed() && forall i | 0 <= i < |ks| :: ks[i] < BLOCK_PER_SEGMENT
  {
    var p := Population(Toggled(e, ks), BLOCK_PER_SEGMENT);
    if p == BLOCK_PER_SEGMENT then true
    else if p == 0 then false
    else if ks == [] then e.Count() != Population(e, BLOCK_PER_SEGMENT)
    else Lags(e, ks[..|ks| - 1])
  }

  /**
   Over every run the count is the population exactly when the segment, since it was last empty (or
   since an exact start), has not been full; otherwise it is one less.
   */
  lemma {:induction false} CountLagsExactly(e: Entry, ks: seq<nat>)
    requires CountOk(e) && forall i | 0 <= i < |ks| :: ks[i] < BLOCK_PER_SEGMENT
    ensures Toggled(e, ks).Count() == Population(Toggled(e, ks), BLOCK_PER_SEGMENT) - if Lags(e, ks) then 1 else 0
  {
    hide Change, Population, Entry.NextSeg, Entry.Valid, Entry.Count;
    EveryRunCounts(e, ks);
    CountInRange(Toggled(e, ks));
    if ks != [] {
      var init, k := ks[..|ks| - 1], ks[|ks| - 1];
      var p := Toggled(e, init);
      CountLagsExactly(e, init);
      EveryRunCounts(e, init);
      PopulationChange(p, k, !p.Valid(k), BLOCK_PER_SEGMENT);
      ChangeKeepsLink(p, k, !p.Valid(k));
      CountInRange(p);
    }
  }

  /** A segment with every block valid: 512 of them, counted as 511. */
  lemma FullSegmentLags() returns (e: Entry)
    ensures CountOk(e) && Population(e, BLOCK_PER_SEGMENT) == 512 && e.Count() == 511 && Lags(e, [])
  {
    e := Entry(511, seq(64, _ => 255));
    forall k | 0 <= k < BLOCK_PER_SEGMENT ensures e.Valid(k) { AllOnes(k % 8, 8); }
    PopulationFull(e, BLOCK_PER_SEGMENT);
  }

  lemma {:induction false} AllOnes(b: nat, n: nat)
    requires b < n
    ensures BitOf(Pow2(n) - 1, b) && Pow2(8) == 256
  {
    assert Pow2(n) == 2 * Pow2(n - 1);
    assert (Pow2(n) - 1) / 2 == Pow2(n - 1) - 1 && (Pow2(n) - 1) % 2 == 1;
    if b > 0 { AllOnes(b - 1, n - 1); }
    assert Pow2(4) == 16;
    assert Pow2(6) == 4 * Pow2(4);
    assert Pow2(8) == 4 * Pow2(6);
  }

  lemma {:induction false} PopulationFull(e: Entry, n: nat)
    requires e.WellFormed() && n <= BLOCK_PER_SEGMENT && forall k | 0 <= k < n :: e.Valid(k)
    ensures Population(e, n) == n
  {
    if n > 0 { PopulationFull(e, n - 1); }
  }

  lemma CountInRange(e: Entry)
    ensures 0 <= e.Count() <= 511
  {
  }

  lemma {:induction false} PopulationZero(e: Entry, n: nat)
    requires e.WellFormed() && n <= BLOCK_PER_SEGMENT
    requires forall k | 0 <= k < n :: !e.Valid(k)
    ensures Population(e, n) == 0
  {
    if n > 0 { PopulationZero(e, n - 1); }
  }

  // ----- bytes -----

  /** The 68 bytes of an entry, as they are journalled. */
  function ToBytes(e: Entry): (b: seq<byte>)
    requires e.WellFormed()
    ensures |b| == 68
  {
    Le32(e.vblocks) + e.validMap
  }

  /** An entry read by field position: the word in bytes 0 to 3, the bitmap behind it. */
  function FromBytes(b: seq<byte>): (e: Entry)
    requires |b| == 68
    ensures e.WellFormed()
  {
    Entry(FromLe32([b[0], b[1], b[2], b[3]]), b[4..])
  }

  /** What is journalled of an entry reads back as the entry. */
  lemma BytesRoundTrip(e: Entry)
    requires e.WellFormed()
    ensures FromBytes(ToBytes(e)) == e
  {
    hide FromLe32;
    Le32RoundTrip(e.vblocks);
    var b := ToBytes(e);
    assert [b[0], b[1], b[2], b[3]] == Le32(e.vblocks);
  }
}
