/**
 The byte format of a 4 KB journal block: a sequence of records, each a 4-byte header
 (16-bit length, type, reserved byte) followed by entries of one kind. A NOP record pads
 a block to its end, an END record closes a journal. The decoder is the block walk of the
 debug printer.
 */
module JournalFormat {
  import opened Bytes
  import opened Seqs
  import opened Tables

  const HEADER := 4
  const BLOCK := 4096
  const TYPE_NOP: byte := 0x7e
  const TYPE_END: byte := 0x7f

  function TypeCode(k: Kind): byte {
    match k
    case Nats => 0
    case Sits => 1
    case SuperBlock => 2
  }

  /** Size in bytes of an entry with its 4-byte key. */
  function EntrySize(k: Kind): nat {
    match k
    case Nats => 12
    case Sits => 72
    case SuperBlock => 8
  }

  /** Size in bytes of `n` entries. */
  function Size(k: Kind, n: nat): nat {
    match k
    case Nats => 12 * n
    case Sits => 72 * n
    case SuperBlock => 8 * n
  }

  predicate WellSized(k: Kind, es: seq<Entry>) {
    forall i | 0 <= i < |es| :: |es[i].value| == EntrySize(k) - 4
  }

  // ----- encoding -----

  function EncodeEntry(e: Entry): seq<byte> {
    Le32(e.key) + e.value
  }

  function EncodeEntries(k: Kind, es: seq<Entry>): (s: seq<byte>)
    requires WellSized(k, es)
    ensures |s| == Size(k, |es|)
  {
    if es == [] then [] else EncodeEntry(es[0]) + EncodeEntries(k, es[1..])
  }

  function Header(len: nat, code: byte, rsv: byte): (s: seq<byte>)
    requires len < 0x1_0000
    ensures |s| == HEADER
  {
    Le16(len) + [code, rsv]
  }

  function Record(k: Kind, es: seq<Entry>, rsv: byte): (s: seq<byte>)
    requires WellSized(k, es) && HEADER + Size(k, |es|) <= BLOCK
    ensures |s| == HEADER + Size(k, |es|)
  {
    Header(HEADER + Size(k, |es|), TypeCode(k), rsv) + EncodeEntries(k, es)
  }

  // ----- decoding -----

  /** Why the walk over a block stopped, and for a NOP or END whether its length is the right one. */
  datatype Stop = Full | Nop(exact: bool) | End(exact: bool)

  datatype Decoded = Malformed | Decoded(items: seq<Item>, stop: Stop)

  function Prepend(items: seq<Item>, d: Decoded): Decoded {
    match d
    case Malformed => Malformed
    case Decoded(rest, stop) => Decoded(items + rest, stop)
  }

  function DecodeEntries(k: Kind, s: seq<byte>): (es: seq<Entry>)
    decreases |s|
  {
    var n := EntrySize(k);
    if |s| < n then []
    else
      [Entry(FromLe32(s[..4]), s[4..n])] + DecodeEntries(k, s[n..])
  }

  /** A data record holds at least one entry and only whole entries. */
  predicate ValidLength(k: Kind, len: nat) {
    len >= HEADER + EntrySize(k) && (len - HEADER) % EntrySize(k) == 0
  }

  /** Walk over what remains of a block. */
  function DecodeBlock(s: seq<byte>): Decoded
    decreases |s|
  {
    if s == [] then Decoded([], Full)
    else if |s| < HEADER then Malformed
    else
      var len := FromLe16(s[..2]);
      if s[2] == TYPE_END then Decoded([], End(len == HEADER))
      else if s[2] == TYPE_NOP then Decoded([], Nop(len == |s|))
      else if s[2] > 2 then Malformed
      else
        var k := if s[2] == 0 then Nats else if s[2] == 1 then Sits else SuperBlock;
        if !ValidLength(k, len) || len > |s| then Malformed
        else Prepend(Tag(k, DecodeEntries(k, s[HEADER..len])), DecodeBlock(s[len..]))
  }

  /** What the SSD applies for a run of blocks, block by block. */
  function BlockItems(b: seq<byte>): seq<Item> {
    match DecodeBlock(b)
    case Malformed => []
    case Decoded(items, _) => items
  }

  function ItemsPerBlock(bs: seq<seq<byte>>): seq<seq<Item>> {
    seq(|bs|, i requires 0 <= i < |bs| => BlockItems(bs[i]))
  }

  function ItemsOf(bs: seq<seq<byte>>): seq<Item> {
    Flatten(ItemsPerBlock(bs))
  }

  lemma ItemsOfConcat(xs: seq<seq<byte>>, ys: seq<seq<byte>>)
    ensures ItemsOf(xs + ys) == ItemsOf(xs) + ItemsOf(ys)
  {
    hide BlockItems, Flatten;
    assert ItemsPerBlock(xs + ys) == ItemsPerBlock(xs) + ItemsPerBlock(ys);
    FlattenConcat(ItemsPerBlock(xs), ItemsPerBlock(ys));
  }

  lemma ItemsOfOne(b: seq<byte>)
    ensures ItemsOf([b]) == BlockItems(b)
  {
    hide BlockItems, Flatten;
    assert ItemsPerBlock([b]) == [BlockItems(b)];
    FlattenOne(BlockItems(b));
  }

  // ----- encoding and decoding are inverse -----

  lemma {:induction false} DecodeEncodeEntries(k: Kind, es: seq<Entry>)
    requires WellSized(k, es)
    ensures DecodeEntries(k, EncodeEntries(k, es)) == es
  {
    if es != [] {
      DecodeEncodeEntries(k, es[1..]);
      Le32RoundTrip(es[0].key);
      var s := EncodeEntries(k, es);
      var n := EntrySize(k);
      assert s == EncodeEntry(es[0]) + EncodeEntries(k, es[1..]);
      assert s[..4] == Le32(es[0].key);
      assert s[4..n] == es[0].value;
      assert s[n..] == EncodeEntries(k, es[1..]);
      assert es == [es[0]] + es[1..];
    }
  }

  lemma {:induction false} EncodeEntriesConcat(k: Kind, xs: seq<Entry>, ys: seq<Entry>)
    requires WellSized(k, xs) && WellSized(k, ys)
    ensures WellSized(k, xs + ys)
    ensures EncodeEntries(k, xs + ys) == EncodeEntries(k, xs) + EncodeEntries(k, ys)
  {
    hide EncodeEntry, Size;
    if xs == [] {
      assert xs + ys == ys;
    } else {
      EncodeEntriesConcat(k, xs[1..], ys);
      assert (xs + ys)[1..] == xs[1..] + ys;
      assert EncodeEntry(xs[0]) + EncodeEntries(k, xs[1..]) + EncodeEntries(k, ys) ==
             EncodeEntry(xs[0]) + (EncodeEntries(k, xs[1..]) + EncodeEntries(k, ys));
    }
  }

  /** A block prefix that decodes to `items` whatever follows it. */
  ghost predicate Parses(s: seq<byte>, items: seq<Item>) {
    forall rest: seq<byte> :: DecodeBlock(s + rest) == Prepend(items, DecodeBlock(rest))
  }

  lemma ParsesNothing()
    ensures Parses([], [])
  {
    forall rest: seq<byte> ensures DecodeBlock([] + rest) == Prepend([], DecodeBlock(rest)) {
      assert [] + rest == rest;
    }
  }

  lemma DivisibleBy(n: nat)
    ensures (12 * n) % 12 == 0
    ensures (72 * n) % 72 == 0
    ensures (8 * n) % 8 == 0
  {
  }

  lemma SizeIsValid(k: Kind, n: nat)
    requires n >= 1
    ensures ValidLength(k, HEADER + Size(k, n))
  {
    DivisibleBy(n);
    match k {
      case Nats => assert Size(k, n) == 12 * n;
      case Sits => assert Size(k, n) == 72 * n;
      case SuperBlock => assert Size(k, n) == 8 * n;
    }
  }

  lemma RecordLayout(k: Kind, es: seq<Entry>, rsv: byte, rest: seq<byte>)
    requires es != [] && WellSized(k, es) && HEADER + Size(k, |es|) <= BLOCK
    ensures
      var len := HEADER + Size(k, |es|);
      var s := Record(k, es, rsv) + rest;
      && ValidLength(k, len) && len <= |s|
      && FromLe16(s[..2]) == len && s[2] == TypeCode(k)
      && s[HEADER..len] == EncodeEntries(k, es) && s[len..] == rest
  {
    var len := HEADER + Size(k, |es|);
    SizeIsValid(k, |es|);
    var h, d := Header(len, TypeCode(k), rsv), EncodeEntries(k, es);
    var s := h + d + rest;
    assert s[..2] == Le16(len);
    assert s[2] == h[2];
    assert s[HEADER..len] == d;
    assert s[len..] == rest;
  }

  lemma DecodeRecord(k: Kind, es: seq<Entry>, rsv: byte, rest: seq<byte>)
    requires es != [] && WellSized(k, es) && HEADER + Size(k, |es|) <= BLOCK
    ensures DecodeBlock(Record(k, es, rsv) + rest) == Prepend(Tag(k, es), DecodeBlock(rest))
  {
    var len := HEADER + Size(k, |es|);
    var s := Record(k, es, rsv) + rest;
    RecordLayout(k, es, rsv, rest);
    DecodeEncodeEntries(k, es);
    assert DecodeBlock(s) == Prepend(Tag(k, DecodeEntries(k, s[HEADER..len])), DecodeBlock(s[len..]));
  }

  lemma ParsesAppend(s: seq<byte>, items: seq<Item>, k: Kind, es: seq<Entry>, rsv: byte)
    requires Parses(s, items)
    requires es != [] && WellSized(k, es) && HEADER + Size(k, |es|) <= BLOCK
    ensures Parses(s + Record(k, es, rsv), items + Tag(k, es))
  {
    hide DecodeBlock, Record, Tag;
    var r := Record(k, es, rsv);
    forall rest: seq<byte>
      ensures DecodeBlock(s + r + rest) == Prepend(items + Tag(k, es), DecodeBlock(rest))
    {
      assert s + r + rest == s + (r + rest);
      DecodeRecord(k, es, rsv, rest);
      PrependTwice(items, Tag(k, es), DecodeBlock(rest));
    }
  }

  lemma PrependTwice(a: seq<Item>, b: seq<Item>, d: Decoded)
    ensures Prepend(a, Prepend(b, d)) == Prepend(a + b, d)
  {
    if d.Decoded? { assert a + (b + d.items) == a + b + d.items; }
  }

  lemma DecodeFull(b: seq<byte>, items: seq<Item>)
    requires Parses(b, items)
    ensures DecodeBlock(b) == Decoded(items, Full)
  {
    assert b + [] == b;
    assert DecodeBlock([]) == Decoded([], Full);
    assert items + [] == items;
  }

  lemma DecodeClosed(s: seq<byte>, items: seq<Item>, len: nat, code: byte, rsv: byte, rest: seq<byte>)
    requires Parses(s, items)
    requires len < 0x1_0000
    requires code == TYPE_NOP || code == TYPE_END
    ensures DecodeBlock(s + Header(len, code, rsv) + rest) ==
            Decoded(items, if code == TYPE_END then End(len == HEADER) else Nop(len == HEADER + |rest|))
  {
    var h := Header(len, code, rsv);
    var t := h + rest;
    assert s + h + rest == s + t;
    assert t[..2] == Le16(len);
    assert FromLe16(t[..2]) == len;
    assert t[2] == code;
    assert items + [] == items;
  }
}
