/**
 Reading and writing a file through 4 KB pages. The page-by-page loops amount to one slice of the
 file's bytes and one splice into them.
 */
module FileIO {
  import opened Bytes

  const PAGE := 4096
  const PAGES := 0x1_0000_0000               // page numbers have 32 bits
  const ADDRESSABLE := 0x1000_0000_0000      // PAGES * PAGE
  const U64 := 0x1_0000_0000_0000_0000

  type Pages = map<nat, seq<byte>>

  ghost predicate WholePages(pages: Pages) { forall b | b in pages :: |pages[b]| == PAGE }

  /** A page's content once prepared; a page in a hole or behind the end of the file is all zero. */
  function PageOf(pages: Pages, b: nat): (page: seq<byte>)
    requires WholePages(pages)
    ensures |page| == PAGE
  {
    if b in pages then pages[b] else seq(PAGE, _ => 0)
  }

  /** The number of the page that holds a position, cut to 32 bits. */
  function PageNo(pos: nat): nat { pos / PAGE % PAGES }

  /** The byte that the program finds at a position of the file. */
  function ByteAt(pages: Pages, i: nat): byte
    requires WholePages(pages)
  {
    PageOf(pages, PageNo(i))[i % PAGE]
  }

  /** The bytes at positions [from, to). */
  function Slice(pages: Pages, from: nat, to: nat): (s: seq<byte>)
    requires WholePages(pages) && from <= to
    ensures |s| == to - from && forall k | 0 <= k < |s| :: s[k] == ByteAt(pages, from + k)
  {
    seq<byte>(to - from, k requires 0 <= k < to - from => ByteAt(pages, from + k))
  }

  // ----- positions -----

  function EndOfBlock(pos: nat): nat { pos + PAGE - pos % PAGE }

  lemma Position(b: nat, off: nat)
    requires off < PAGE
    ensures (b * PAGE + off) / PAGE == b && (b * PAGE + off) % PAGE == off
  {
  }

  /** Within one page, consecutive positions are consecutive offsets. */
  lemma SamePage(pos: nat, i: nat)
    requires pos <= i < EndOfBlock(pos)
    ensures i / PAGE == pos / PAGE && i % PAGE == pos % PAGE + (i - pos)
  {
    Position(pos / PAGE, pos % PAGE + (i - pos));
  }

  /** Two positions share a byte exactly when they agree below 2^44. */
  lemma Aliases(i: nat, j: nat)
    ensures PageNo(i) == PageNo(j) && i % PAGE == j % PAGE <==> i % ADDRESSABLE == j % ADDRESSABLE
  {
    Digits(i);
    Digits(j);
  }

  lemma Digits(i: nat)
    ensures i % ADDRESSABLE == PageNo(i) * PAGE + i % PAGE && PageNo(i) < PAGES
  {
    var q, off := i / PAGE, i % PAGE;
    var laps, no := q / PAGES, q % PAGES;
    assert q == laps * PAGES + no && i == q * PAGE + off;
    Below(laps, no * PAGE + off);
  }

  lemma Below(laps: nat, low: nat)
    requires low < ADDRESSABLE
    ensures (laps * ADDRESSABLE + low) % ADDRESSABLE == low
  {
  }

  /** A piece of a page is a piece of the file. */
  lemma PieceIsSlice(pages: Pages, pos: nat, end: nat)
    requires WholePages(pages) && pos <= end <= EndOfBlock(pos)
    ensures pos % PAGE + (end - pos) <= PAGE
    ensures PageOf(pages, PageNo(pos))[pos % PAGE..pos % PAGE + (end - pos)] == Slice(pages, pos, end)
  {
    hide PageOf;
    var piece := PageOf(pages, PageNo(pos))[pos % PAGE..pos % PAGE + (end - pos)];
    forall k | 0 <= k < end - pos ensures piece[k] == ByteAt(pages, pos + k) {
      SamePage(pos, pos + k);
    }
  }

  lemma SliceSplit(pages: Pages, from: nat, mid: nat, to: nat)
    requires WholePages(pages) && from <= mid <= to
    ensures Slice(pages, from, to) == Slice(pages, from, mid) + Slice(pages, mid, to)
  {
    hide ByteAt;
  }

  // ----- writing -----

  /** The page with `chunk` copied in at `off`. */
  function Patched(page: seq<byte>, off: nat, chunk: seq<byte>): (r: seq<byte>)
    requires off + |chunk| <= |page|
    ensures |r| == |page|
    ensures forall k | 0 <= k < |page| :: r[k] == if off <= k < off + |chunk| then chunk[k - off] else page[k]
  {
    page[..off] + chunk + page[off + |chunk|..]
  }

  /** The byte at position `i` after `buffer` was written at `pos`, byte by byte, last byte last. */
  function After(pages: Pages, pos: nat, buffer: seq<byte>, i: nat): byte
    requires WholePages(pages)
  {
    if buffer == [] then ByteAt(pages, i)
    else
      var n := |buffer| - 1;
      if (pos + n) % ADDRESSABLE == i % ADDRESSABLE then buffer[n] else After(pages, pos, buffer[..n], i)
  }

  /** Writing the front and then the rest is writing the whole. */
  lemma {:induction false} AfterSplit(pages: Pages, pages': Pages, pos: nat, buffer: seq<byte>, m: nat, i: nat)
    requires WholePages(pages) && WholePages(pages') && m <= |buffer|
    requires ByteAt(pages', i) == After(pages, pos, buffer[..m], i)
    ensures After(pages', pos + m, buffer[m..], i) == After(pages, pos, buffer, i)
    decreases |buffer| - m
  {
    hide ByteAt;
    if m < |buffer| {
      var n := |buffer| - 1;
      var init := buffer[..n];
      assert buffer[m..][..n - m] == init[m..] && init[..m] == buffer[..m];
      AfterSplit(pages, pages', pos, init, m, i);
    } else {
      assert buffer[..m] == buffer;
    }
  }

  /** Within one page the bytes that change are those of the chunk, wherever they alias to. */
  lemma {:induction false} AfterChunk(pages: Pages, pos: nat, chunk: seq<byte>, i: nat)
    requires WholePages(pages) && pos + |chunk| <= EndOfBlock(pos)
    ensures After(pages, pos, chunk, i) ==
            if PageNo(i) == PageNo(pos) && pos % PAGE <= i % PAGE < pos % PAGE + |chunk| then chunk[i % PAGE - pos % PAGE] else ByteAt(pages, i)
  {
    hide ByteAt;
    if chunk != [] {
      var n := |chunk| - 1;
      AfterChunk(pages, pos, chunk[..n], i);
      SamePage(pos, pos + n);
      Aliases(pos + n, i);
    }
  }

  /** Copying a chunk into one page writes it byte by byte. */
  lemma PatchEffect(pages: Pages, pos: nat, chunk: seq<byte>, i: nat)
    requires WholePages(pages) && pos + |chunk| <= EndOfBlock(pos)
    ensures pos % PAGE + |chunk| <= PAGE
    ensures
      var pages' := pages[PageNo(pos) := Patched(PageOf(pages, PageNo(pos)), pos % PAGE, chunk)];
      WholePages(pages') && ByteAt(pages', i) == After(pages, pos, chunk, i)
  {
    hide Patched, PageNo, After;
    AfterChunk(pages, pos, chunk, i);
  }

  /** Below 2^44 nothing aliases: the written bytes change and no others. */
  lemma {:induction false} NoAlias(pages: Pages, pos: nat, buffer: seq<byte>, i: nat)
    requires WholePages(pages) && pos + |buffer| <= ADDRESSABLE && i < ADDRESSABLE
    ensures After(pages, pos, buffer, i) == if pos <= i < pos + |buffer| then buffer[i - pos] else ByteAt(pages, i)
  {
    hide ByteAt;
    if buffer != [] { NoAlias(pages, pos, buffer[..|buffer| - 1], i); }
  }

  // ----- the file -----

  /** Bytes behind the end are zero, and every position can be addressed. */
  ghost predicate Addressed(pages: Pages, size: nat) {
    WholePages(pages) && size <= ADDRESSABLE && forall i: nat | size <= i < ADDRESSABLE :: ByteAt(pages, i) == 0
  }

  function Larger(a: nat, b: nat): nat { if a < b then b else a }

  class File {
    var pages: Pages
    var size: nat

    ghost predicate Valid()
      reads this
    {
      Addressed(pages, size)
    }

    /** The file as one sequence of bytes. */
    ghost function Flat(): seq<byte>
      requires Valid()
      reads this
    {
      Slice(pages, 0, size)
    }

    constructor ()
      ensures Valid() && Flat() == []
    {
      pages, size := map[], 0;
    }

    /** Up to `count` bytes from `pos`, cut at the end of the file. */
    method Read(count: nat, pos: u64) returns (buffer: seq<byte>)
      requires Valid() && count < 0x8000_0000_0000_0000
      ensures buffer == if pos < size then Flat()[pos..if pos + count < size then pos + count else size] else []
    {
      hide ByteAt, PageOf, PageNo;
      var last := (pos + count) % U64;
      var end := if size < last then size else last;
      buffer := [];
      var cur := pos;
      while cur < end
        invariant pos <= cur && (cur <= end || cur == pos)
        invariant buffer == Slice(pages, pos, cur)
      {
        var endPos := if EndOfBlock(cur) < end then EndOfBlock(cur) else end;
        PieceIsSlice(pages, cur, endPos);
        SliceSplit(pages, pos, cur, endPos);
        var page := PageOf(pages, PageNo(cur));
        var off := cur % PAGE;
        buffer := buffer + page[off..off + (endPos - cur)];
        cur := endPos;
      }
      if pos < size {
        SliceOfFlat(pages, size, pos, end);
      }
    }

    /**
     The bytes of `buffer` from `pos` on. It fails, on an assertion, exactly when a position of the
     last page below 2^64 would be written. Otherwise the bytes go where their positions alias to, and
     up to 2^44 that makes it one splice into the file.
     */
    method Write(buffer: seq<byte>, pos: u64) returns (ok: bool)
      requires Valid() && |buffer| < 0x8000_0000_0000_0000
      modifies this
      ensures ok <==> buffer == [] || pos + |buffer| <= U64 - PAGE
      ensures ok ==> WholePages(pages) && size == Larger(old(size), pos + |buffer|)
      ensures ok ==> forall i: nat :: ByteAt(pages, i) == After(old(pages), pos, buffer, i)
      ensures pos + |buffer| <= ADDRESSABLE ==> ok && Valid() && Flat() == Spliced(old(Flat()), pos, buffer)
    {
      hide ByteAt, PageOf, Patched, PageNo, After;
      ghost var before := pages;
      var end, cur, done := (pos + |buffer|) % U64, pos, 0;
      assert buffer[..0] == [];
      AfterNothing(pages, pos);
      while done < |buffer|
        invariant 0 <= done <= |buffer| && cur == pos + done && WholePages(pages) && size == old(size)
        invariant done > 0 ==> pos + done <= U64 - PAGE
        invariant forall i: nat :: ByteAt(pages, i) == After(before, pos, buffer[..done], i)
      {
        var blockEnd := EndOfBlock(cur) % U64;
        var endPos := if blockEnd < end then blockEnd else end;
        LastPage(cur);
        if !(cur < end && cur < endPos) {
          return false;
        }
        var chunk := buffer[done..done + (endPos - cur)];
        var next := done + (endPos - cur);
        ghost var was := pages;
        PatchEffect(was, cur, chunk, 0);
        pages := pages[PageNo(cur) := Patched(PageOf(pages, PageNo(cur)), cur % PAGE, chunk)];
        forall i: nat ensures ByteAt(pages, i) == After(before, pos, buffer[..next], i) {
          PatchEffect(was, cur, chunk, i);
          assert buffer[..next][..done] == buffer[..done] && buffer[..next][done..] == chunk;
          AfterSplit(before, was, pos, buffer[..next], done, i);
        }
        done := next;
        cur := endPos;
      }
      assert buffer[..done] == buffer;
      if size < end {
        size := end;
      }
      ok := true;
      if pos + |buffer| <= ADDRESSABLE {
        WriteIsSplice(before, old(size), pages, size, pos, buffer);
      }
    }
  }

  lemma AfterNothing(pages: Pages, pos: nat)
    requires WholePages(pages)
    ensures forall i: nat :: After(pages, pos, [], i) == ByteAt(pages, i)
  {
    hide ByteAt;
  }

  /** The end of a page wraps to zero exactly in the last page below 2^64. */
  lemma LastPage(cur: nat)
    requires cur < U64
    ensures EndOfBlock(cur) <= U64 && (EndOfBlock(cur) == U64 <==> cur >= U64 - PAGE)
  {
  }

  /** `s` with `buffer` written at `pos`, zeros in between where `s` is too short. */
  function Spliced(s: seq<byte>, pos: nat, buffer: seq<byte>): (r: seq<byte>)
    ensures |r| == Larger(|s|, pos + |buffer|)
  {
    seq(Larger(|s|, pos + |buffer|),
        i requires 0 <= i => if pos <= i < pos + |buffer| then buffer[i - pos] else if i < |s| then s[i] else 0)
  }

  lemma SliceOfFlat(pages: Pages, size: nat, from: nat, to: nat)
    requires WholePages(pages) && from <= to <= size
    ensures Slice(pages, from, to) == Slice(pages, 0, size)[from..to]
  {
    hide ByteAt;
  }

  lemma WriteIsSplice(before: Pages, size: nat, pages: Pages, size': nat, pos: nat, buffer: seq<byte>)
    requires Addressed(before, size) && WholePages(pages) && pos + |buffer| <= ADDRESSABLE
    requires forall i: nat :: ByteAt(pages, i) == After(before, pos, buffer, i)
    requires size' == Larger(size, pos + |buffer|)
    ensures Slice(pages, 0, size') == Spliced(Slice(before, 0, size), pos, buffer)
    ensures Addressed(pages, size')
  {
    hide ByteAt, After;
    forall i: nat | i < ADDRESSABLE
      ensures ByteAt(pages, i) == if pos <= i < pos + |buffer| then buffer[i - pos] else ByteAt(before, i)
    {
      NoAlias(before, pos, buffer, i);
    }
  }

  // ----- exactly when a write is a splice -----

  /** The file after the write, read position by position, is the splice. */
  ghost predicate Splices(pages: Pages, size: nat, pos: nat, buffer: seq<byte>)
    requires Addressed(pages, size)
  {
    var flat := Spliced(Slice(pages, 0, size), pos, buffer);
    forall i | 0 <= i < |flat| :: After(pages, pos, buffer, i) == flat[i]
  }

  /** A write of `count` bytes at `pos` is a splice whatever the file and the bytes, if and only if it ends at 2^44 or before. */
  lemma SplicesExactly(pos: nat, count: nat)
    ensures (forall pages, size, buffer | Addressed(pages, size) && |buffer| == count :: Splices(pages, size, pos, buffer)) <==>
            pos + count <= ADDRESSABLE
  {
    hide ByteAt, After, Splices, Spliced;
    if pos + count <= ADDRESSABLE {
      forall pages, size, buffer | Addressed(pages, size) && |buffer| == count ensures Splices(pages, size, pos, buffer) {
        ShortWriteSplices(pages, size, pos, buffer);
      }
    } else if count == 0 {
      var pages, size := OneByte();
      var nothing: seq<byte> := [];
      HoleReadsBack(pages, size, pos);
      assert |nothing| == count && !Splices(pages, size, pos, nothing);
    } else {
      LongWriteAliases(pos, count);
    }
  }

  lemma ShortWriteSplices(pages: Pages, size: nat, pos: nat, buffer: seq<byte>)
    requires Addressed(pages, size) && pos + |buffer| <= ADDRESSABLE
    ensures Splices(pages, size, pos, buffer)
  {
    hide ByteAt, After;
    var flat := Spliced(Slice(pages, 0, size), pos, buffer);
    forall i | 0 <= i < |flat| ensures After(pages, pos, buffer, i) == flat[i] {
      NoAlias(pages, pos, buffer, i);
    }
  }

  /** A file of one byte, and that byte is not zero. */
  lemma OneByte() returns (pages: Pages, size: nat)
    ensures Addressed(pages, size) && size == 1 && ByteAt(pages, 0) == 1
  {
    var page: seq<byte> := [1] + seq(PAGE - 1, _ => 0);
    pages, size := map[0 := page], 1;
    forall i: nat | 1 <= i < ADDRESSABLE ensures ByteAt(pages, i) == 0 {
      Digits(i);
    }
  }

  /** An empty write behind 2^44 makes the file longer, and its first byte shows through the hole. */
  lemma HoleReadsBack(pages: Pages, size: nat, pos: nat)
    requires Addressed(pages, size) && size == 1 && ByteAt(pages, 0) == 1 && pos > ADDRESSABLE
    ensures !Splices(pages, size, pos, [])
  {
    hide ByteAt;
    var flat := Spliced(Slice(pages, 0, size), pos, []);
    assert flat[ADDRESSABLE] == 0;
    assert After(pages, pos, [], ADDRESSABLE) == 1 by { SameByte(pages, ADDRESSABLE, 0); }
  }

  lemma SameByte(pages: Pages, i: nat, j: nat)
    requires WholePages(pages) && i % ADDRESSABLE == j % ADDRESSABLE
    ensures ByteAt(pages, i) == ByteAt(pages, j)
  {
    hide PageNo, PageOf;
    Aliases(i, j);
  }

  /** The last byte of a longer write also lands at a lower position. */
  lemma LongWriteAliases(pos: nat, count: nat)
    requires count > 0 && pos + count > ADDRESSABLE
    ensures exists pages, size, buffer :: Addressed(pages, size) && |buffer| == count && !Splices(pages, size, pos, buffer)
  {
    var pages: Pages, size := map[], 0;
    assert Addressed(pages, size);
    var buffer: seq<byte> := seq(count, k => if k == count - 1 then 1 else 0);
    var i := pos + count - 1;
    var j := i % ADDRESSABLE;
    var flat := Spliced(Slice(pages, 0, size), pos, buffer);
    assert j < i && j % ADDRESSABLE == i % ADDRESSABLE;
    assert flat[j] == 0 && After(pages, pos, buffer, j) == 1;
    assert !Splices(pages, size, pos, buffer);
  }

  /** Reading back what was written gives it back; everything before it that was in the file stays. */
  lemma SplicedReads(s: seq<byte>, pos: nat, buffer: seq<byte>)
    ensures Spliced(s, pos, buffer)[pos..pos + |buffer|] == buffer
    ensures pos <= |s| ==> Spliced(s, pos, buffer)[..pos] == s[..pos]
    ensures pos + |buffer| <= |s| ==> Spliced(s, pos, buffer)[pos + |buffer|..] == s[pos + |buffer|..]
  {
  }
}
