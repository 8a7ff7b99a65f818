/** The archive writer, and the round trip through the readers. */
module CarWriter {
  import opened Wrappers
  import opened Bytes
  import opened KeyedLists
  import opened Cids
  import opened Drisl
  import opened DecodeSpec
  import opened Canonicity
  import opened Varint
  import opened CarSpec
  import Encoder
  import Utf8
  import JsonTree

  // ---------- What is written ----------

  function HeaderValue(roots: seq<Cid>): Value {
    Map([Keyed(ROOTS, Array(Links(roots))), Keyed(VERSION, Unsigned(1))])
  }

  function HeaderBytes(roots: seq<Cid>): seq<byte> {
    Enc(HeaderValue(roots))
  }

  function BlockBytes(b: Block): seq<byte> {
    Encoded(CID_LEN + |b.data|) + ToBytes(b.cid) + b.data
  }

  function BlocksBytes(blocks: seq<Block>): seq<byte> {
    if blocks == [] then [] else BlockBytes(blocks[0]) + BlocksBytes(blocks[1..])
  }

  function CarBytes(roots: seq<Cid>, blocks: seq<Block>): seq<byte> {
    Encoded(|HeaderBytes(roots)|) + HeaderBytes(roots) + BlocksBytes(blocks)
  }

  predicate BlockFits(b: Block) {
    CID_LEN + |b.data| <= MAX_BLOCK_SIZE
  }

  predicate BlocksFit(blocks: seq<Block>) {
    forall i :: 0 <= i < |blocks| ==> BlockFits(blocks[i])
  }

  // ---------- Blocks ----------

  /** One block is read exactly where its one encoding stands. */
  lemma ReadsBlock(rest: seq<byte>, b: Block, after: seq<byte>)
    ensures ReadBlock(rest) == Ok(Some((b, after))) <==> BlockFits(b) && rest == BlockBytes(b) + after
  {
    hide ReadBlock, BlockBytes, BlockFits;
    if ReadBlock(rest) == Ok(Some((b, after))) {
      ReadIsWritten(rest, b, after);
    }
    if BlockFits(b) && rest == BlockBytes(b) + after {
      WrittenIsRead(rest, b, after);
    }
  }

  lemma ReadIsWritten(rest: seq<byte>, b: Block, after: seq<byte>)
    requires ReadBlock(rest) == Ok(Some((b, after)))
    ensures BlockFits(b) && rest == BlockBytes(b) + after
  {
    hide Parse, FromBytes, Encoded, ToBytes;
    var (n, k) := Parse(rest, 0).value.value;
    CidBytes(rest[k..k + CID_LEN], b.cid);
    UniqueEncoding(rest, n, k);
    assert n == CID_LEN + |b.data|;
    assert rest == rest[..k] + rest[k..k + CID_LEN] + rest[k + CID_LEN..k + n] + rest[k + n..];
  }

  lemma WrittenIsRead(rest: seq<byte>, b: Block, after: seq<byte>)
    requires BlockFits(b) && rest == BlockBytes(b) + after
    ensures ReadBlock(rest) == Ok(Some((b, after)))
  {
    hide Parse, FromBytes, Encoded, ToBytes;
    var size := CID_LEN + |b.data|;
    var prefix := |Encoded(size)|;
    Layout(Encoded(size), ToBytes(b.cid), b.data, after);
    UniqueEncoding(rest, size, prefix);
    CidBytes(ToBytes(b.cid), b.cid);
  }

  lemma Layout(prefix: seq<byte>, cid: seq<byte>, data: seq<byte>, after: seq<byte>)
    requires |cid| == CID_LEN
    ensures var p, s := |prefix|, prefix + cid + data + after;
            && prefix <= s
            && s[p..p + CID_LEN] == cid
            && s[p + CID_LEN..p + (CID_LEN + |data|)] == data
            && s[p + (CID_LEN + |data|)..] == after
  {
  }

  /** The blocks of an archive and the bytes after its header determine each other. */
  lemma {:induction false} ReadsBlocks(rest: seq<byte>, blocks: seq<Block>)
    ensures Drain(rest) == (blocks, None) <==> BlocksFit(blocks) && rest == BlocksBytes(blocks)
    decreases |blocks|
  {
    hide ReadBlock, BlockBytes, BlockFits;
    ReadsNothing(rest);
    if blocks != [] {
      var b, more := blocks[0], blocks[1..];
      assert blocks == [b] + more;
      if Drain(rest) == (blocks, None) {
        var (b', after) := ReadBlock(rest).value.value;
        assert Drain(after).0 == more;
        ReadsBlock(rest, b, after);
        ReadsBlocks(after, more);
      }
      if BlocksFit(blocks) && rest == BlocksBytes(blocks) {
        var after := BlocksBytes(more);
        ReadsBlock(rest, b, after);
        ReadsBlocks(after, more);
      }
    }
  }

  lemma ReadsNothing(rest: seq<byte>)
    ensures ReadBlock(rest) == Ok(None) <==> rest == []
  {
    hide FromBytes;
  }

  // ---------- The header ----------

  lemma {:induction false} LinksRead(roots: seq<Cid>, depth: nat)
    requires depth < MAX_DEPTH
    ensures RootCids(Links(roots)) == Ok(roots)
    ensures CanonicalItems(Links(roots), depth)
    ensures |EncItems(Links(roots))| == 41 * |roots|
  {
    if roots != [] {
      LinksRead(roots[1..], depth);
      assert Links(roots)[1..] == Links(roots[1..]);
      assert roots == [roots[0]] + roots[1..];
      assert |Enc(Link(roots[0]))| == 41;
    }
  }

  lemma HeaderKeys()
    ensures |ROOTS| == 5 && |VERSION| == 7 && TextOk(ROOTS) && TextOk(VERSION)
  {
    hide Utf8.ValidUtf8;
    JsonTree.AsciiText("roots");
    JsonTree.AsciiText("version");
  }

  lemma HeaderBoundsRoots(roots: seq<Cid>)
    ensures |HeaderBytes(roots)| >= 41 * |roots|
  {
    LinksRead(roots, 2);
    HeaderParts(roots);
    hide ROOTS, VERSION, Head, RootCids, Links, EncItems, EncText, HeaderBytes;
  }

  lemma HeaderIsCanonical(roots: seq<Cid>)
    requires |HeaderBytes(roots)| <= MAX_HEADER_SIZE
    ensures Canonical(HeaderValue(roots), 0)
  {
    HeaderBoundsRoots(roots);
    HeaderKeys();
    LinksRead(roots, 2);
    hide HeaderBytes;
    ScalarAndArray(Links(roots));
    hide ROOTS, VERSION, RootCids, Links, Canonical, TextOk;
    var entries := HeaderValue(roots).entries;
    assert CanonicalEntries(Some(VERSION), entries[1..][1..], 1);
    assert CanonicalEntries(Some(ROOTS), entries[1..], 1);
    assert CanonicalEntries(None, entries, 1);
    MapIsCanonical(entries);
  }

  lemma ScalarAndArray(items: seq<Value>)
    requires |items| <= MAX_COLLECTION_LEN && CanonicalItems(items, 2)
    ensures Canonical(Unsigned(1), 1) && Canonical(Array(items), 1)
  {
    hide CanonicalItems, CanonicalEntries;
  }

  lemma MapIsCanonical(entries: seq<Keyed<Value>>)
    requires |entries| <= MAX_COLLECTION_LEN && CanonicalEntries(None, entries, 1)
    ensures Canonical(Map(entries), 0)
  {
    hide CanonicalItems, CanonicalEntries;
  }

  lemma HeaderIsRead(roots: seq<Cid>)
    requires |HeaderBytes(roots)| <= MAX_HEADER_SIZE
    ensures DecodeHeader(HeaderBytes(roots)) == Ok(roots)
  {
    HeaderIsCanonical(roots);
    HeaderKeys();
    LinksRead(roots, 2);
    var bytes := HeaderBytes(roots);
    hide ROOTS, VERSION, RootCids, Enc, Canonical, DecodeValue, Links, CanonicalItems;
    assert bytes[0..|bytes|] == bytes;
    DecodesExactlyTheCanonical(bytes, 0, 0, HeaderValue(roots), |bytes|);
    hide ScanHeader;
    HeaderScans(roots);
  }

  lemma HeaderScans(roots: seq<Cid>)
    ensures ScanHeader(HeaderValue(roots).entries, None, None) == Ok(roots)
  {
    HeaderKeys();
    LinksRead(roots, 2);
    hide ROOTS, VERSION, RootCids, Links;
    var entries := HeaderValue(roots).entries;
    assert ScanHeader(entries[1..][1..], Some(1), Some(roots)) == Ok(roots);
    assert ScanHeader(entries[1..], None, Some(roots)) == Ok(roots);
  }

  // ---------- The round trip ----------

  /** What is written reads back, exactly when header and blocks are within the readers' limits. */
  lemma WriteThenRead(roots: seq<Cid>, blocks: seq<Block>)
    requires |HeaderBytes(roots)| < VARINT_LIMIT
    ensures ReadCar(CarBytes(roots, blocks)) == Outcome(Some(roots), blocks, None)
            <==> |HeaderBytes(roots)| <= 1024 * 1024 && forall i :: 0 <= i < |blocks| ==> 36 + |blocks[i].data| <= 128 * 1024 * 1024
  {
    assert BlocksFit(blocks) <==> forall i :: 0 <= i < |blocks| ==> 36 + |blocks[i].data| <= 128 * 1024 * 1024;
    hide HeaderBytes, BlocksBytes, BlocksFit, Parse, Encoded, Drain, DecodeHeader;
    var car, header, rest := CarBytes(roots, blocks), HeaderBytes(roots), BlocksBytes(blocks);
    var prefix := |Encoded(|header|)|;
    assert car == Encoded(|header|) + (header + rest);
    UniqueEncoding(car, |header|, prefix);
    if |header| <= MAX_HEADER_SIZE {
      HeaderIsRead(roots);
      assert car[prefix..prefix + |header|] == header && car[prefix + |header|..] == rest;
      ReadsBlocks(rest, blocks);
    }
  }

  // ---------- The writer ----------

  class ArchiveWriter {
    var out: seq<byte>

    /** `Writer::new`. */
    constructor (roots: seq<Cid>)
      requires |HeaderBytes(roots)| < U64_LIMIT && |roots| < U64_LIMIT
      ensures out == Encoded(|HeaderBytes(roots)|) + HeaderBytes(roots)
    {
      hide HeaderBytes, Encoded;
      new;
      var header := new Encoder.Writer();
      WriteHeader(header, roots);
      assert [] + HeaderBytes(roots) == HeaderBytes(roots);
      var prefix := EncodeVarint(|header.buf|);
      out := prefix;
      out := out + header.buf;
    }

    /** `write_block_ref`. */
    method WriteBlock(b: Block)
      requires CID_LEN + |b.data| < U64_LIMIT
      modifies this
      ensures out == old(out) + BlockBytes(b)
    {
      hide Encoded;
      var prefix := EncodeVarint(CID_LEN + |b.data|);
      out := out + prefix;
      out := out + ToBytes(b.cid);
      out := out + b.data;
    }
  }

  /** `encode_text_map` over the two header keys, which it sorts. */
  method WriteHeader(w: Encoder.Writer, roots: seq<Cid>)
    requires |roots| < U64_LIMIT
    modifies w
    ensures w.buf == old(w.buf) + HeaderBytes(roots)
  {
    hide ROOTS, VERSION, Head, EncText, EncLink, EncItems, Sort;
    HeaderKeys();
    ghost var start := w.buf;
    HeaderSorted();
    var sorted := Sort(LengthFirst, [Keyed(ROOTS, true), Keyed(VERSION, false)]);
    w.PutHead(5, |sorted|);
    var i := 0;
    while i < |sorted|
      invariant i <= 2 && sorted == [Keyed(ROOTS, true), Keyed(VERSION, false)]
      invariant i == 0 ==> w.buf == start + Head(5, 2)
      invariant i == 1 ==> w.buf == start + Head(5, 2) + (EncText(ROOTS) + Enc(Array(Links(roots))))
      invariant i == 2 ==> w.buf == start + Head(5, 2) + (EncText(ROOTS) + Enc(Array(Links(roots)))) + (EncText(VERSION) + Enc(Unsigned(1)))
    {
      w.PutText(sorted[i].key);
      if sorted[i].value {
        ghost var before := w.buf;
        w.PutHead(4, |roots|);
        WriteRoots(w, roots);
      } else {
        w.PutHead(0, 1);
      }
      i := i + 1;
    }
    HeaderParts(roots);
  }

  lemma HeaderParts(roots: seq<Cid>)
    ensures HeaderBytes(roots)
            == Head(5, 2) + (EncText(ROOTS) + Enc(Array(Links(roots)))) + (EncText(VERSION) + Enc(Unsigned(1)))
  {
    hide ROOTS, VERSION, Head, EncText, EncItems;
    var entries := HeaderValue(roots).entries;
    assert EncEntries(entries[1..][1..]) == [];
    assert EncEntries(entries[1..]) == EncText(VERSION) + Enc(Unsigned(1));
    assert EncEntries(entries) == EncText(ROOTS) + Enc(Array(Links(roots))) + EncEntries(entries[1..]);
    assert HeaderBytes(roots) == Head(5, 2) + EncEntries(entries);
  }

  /** The header in bytes: a map of two, `roots` with its links, then `version` with 1. */
  lemma HeaderIs(roots: seq<Cid>)
    ensures HeaderBytes(roots)
            == [0xa2, 0x65, 0x72, 0x6f, 0x6f, 0x74, 0x73] + Enc(Array(Links(roots)))
               + [0x67, 0x76, 0x65, 0x72, 0x73, 0x69, 0x6f, 0x6e, 0x01]
  {
    HeaderParts(roots);
    Keys();
    hide Links, EncItems, HeaderBytes, ROOTS, VERSION;
    assert Head(5, 2) + (EncText(ROOTS) + Enc(Array(Links(roots)))) + (EncText(VERSION) + Enc(Unsigned(1)))
        == (Head(5, 2) + EncText(ROOTS)) + Enc(Array(Links(roots))) + (EncText(VERSION) + Enc(Unsigned(1)));
  }

  lemma Keys()
    ensures ROOTS == [0x72, 0x6f, 0x6f, 0x74, 0x73] && VERSION == [0x76, 0x65, 0x72, 0x73, 0x69, 0x6f, 0x6e]
  {
  }

  lemma HeaderSorted()
    ensures Sort(LengthFirst, [Keyed(ROOTS, true), Keyed(VERSION, false)]) == [Keyed(ROOTS, true), Keyed(VERSION, false)]
  {
    HeaderKeys();
    hide ROOTS, VERSION;
    var keys := [Keyed(ROOTS, true), Keyed(VERSION, false)];
    assert keys[1..] == [Keyed(VERSION, false)] && keys[1..][1..] == [];
    assert KeyCmp(LengthFirst, keys[0].key, keys[1].key) == Less;
    assert Sort(LengthFirst, keys[1..]) == keys[1..];
    assert Sort(LengthFirst, keys) == [keys[0]] + keys[1..];
  }

  method WriteRoots(w: Encoder.Writer, roots: seq<Cid>)
    modifies w
    ensures w.buf == old(w.buf) + EncItems(Links(roots))
  {
    hide Enc, EncLink;
    ghost var start := w.buf;
    var i := 0;
    assert roots[0..] == roots;
    while i < |roots|
      invariant i <= |roots|
      invariant w.buf + EncItems(Links(roots[i..])) == start + EncItems(Links(roots))
    {
      LinksStep(w.buf, roots, i);
      w.buf := w.buf + EncLink(roots[i]);
      i := i + 1;
    }
    assert w.buf + [] == w.buf;
  }

  lemma LinksStep(before: seq<byte>, roots: seq<Cid>, i: nat)
    requires i < |roots|
    ensures before + EncItems(Links(roots[i..])) == before + EncLink(roots[i]) + EncItems(Links(roots[i + 1..]))
  {
    hide EncLink;
    assert roots[i..][1..] == roots[i + 1..];
    assert Links(roots[i..])[1..] == Links(roots[i + 1..]);
    assert Enc(Link(roots[i])) == EncLink(roots[i]);
  }

  /** `write_all`. */
  method WriteAll(roots: seq<Cid>, blocks: seq<Block>) returns (car: seq<byte>)
    requires |HeaderBytes(roots)| < U64_LIMIT && |roots| < U64_LIMIT
    requires forall i :: 0 <= i < |blocks| ==> CID_LEN + |blocks[i].data| < U64_LIMIT
    ensures car == CarBytes(roots, blocks)
  {
    hide HeaderBytes, Encoded, BlockBytes;
    var w := new ArchiveWriter(roots);
    var i := 0;
    assert blocks[0..] == blocks;
    while i < |blocks|
      invariant i <= |blocks|
      invariant w.out + BlocksBytes(blocks[i..]) == CarBytes(roots, blocks)
    {
      assert blocks[i..][1..] == blocks[i + 1..];
      assert w.out + (BlockBytes(blocks[i]) + BlocksBytes(blocks[i + 1..]))
          == w.out + BlockBytes(blocks[i]) + BlocksBytes(blocks[i + 1..]);
      w.WriteBlock(blocks[i]);
      i := i + 1;
    }
    assert w.out + [] == w.out;
    return w.out;
  }
}
