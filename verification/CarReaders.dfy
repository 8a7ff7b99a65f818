/** The blocking reader and the reader over a slice in memory. */
module CarReaders {
  import opened Wrappers
  import opened Bytes
  import opened KeyedLists
  import opened Cids
  import opened Drisl
  import opened DecodeSpec
  import opened DecoderModel
  import opened Varint
  import opened CarSpec

  // ---------- Shared by all readers ----------

  /** `decode_header`. */
  method HeaderRoots(header: seq<byte>) returns (r: Result<seq<Cid>, CarError>)
    ensures r == DecodeHeader(header)
  {
    hide DecodeValue, ScanHeader;
    var dec := new Decoder(header);
    var v := dec.Decode();
    if v.Err? {
      return Err(Cbor(v.error));
    }
    if !dec.IsEmpty() {
      return Err(InvalidHeader(TrailingHeaderData));
    }
    match v.value {
      case Map(entries) => r := HeaderFields(entries);
      case _ => r := Err(InvalidHeader(HeaderNotMap));
    }
  }

  method HeaderFields(entries: seq<Keyed<Value>>) returns (r: Result<seq<Cid>, CarError>)
    ensures r == ScanHeader(entries, None, None)
  {
    hide VERSION, ROOTS, RootCids;
    var version: Option<u64> := None;
    var roots: Option<seq<Cid>> := None;
    var i := 0;
    assert entries[0..] == entries;
    while i < |entries|
      invariant i <= |entries|
      invariant ScanHeader(entries, None, None) == ScanHeader(entries[i..], version, roots)
    {
      assert entries[i..][1..] == entries[i + 1..];
      if entries[i].key == VERSION {
        match entries[i].value {
          case Unsigned(n) => version := Some(n);
          case _ => return Err(InvalidHeader(VersionNotInteger));
        }
      } else if entries[i].key == ROOTS {
        match entries[i].value {
          case Array(items) =>
            var cids :- RootList(items);
            roots := Some(cids);
          case _ => return Err(InvalidHeader(RootsNotArray));
        }
      }
      i := i + 1;
    }
    if version.None? {
      return Err(InvalidHeader(MissingVersion));
    }
    if version.value != 1 {
      return Err(InvalidHeader(BadVersion(version.value)));
    }
    if roots.None? {
      return Err(InvalidHeader(MissingRoots));
    }
    return Ok(roots.value);
  }

  method RootList(items: seq<Value>) returns (r: Result<seq<Cid>, CarError>)
    ensures r == RootCids(items)
  {
    var cids: seq<Cid> := [];
    var i := 0;
    assert items[0..] == items;
    RootsOnto([], items);
    while i < |items|
      invariant i <= |items|
      invariant RootCids(items) == CidsOnto(cids, RootCids(items[i..]))
    {
      assert items[i..][1..] == items[i + 1..];
      RootsOnto(cids, items[i..]);
      match items[i] {
        case Link(c) => cids := cids + [c];
        case _ => return Err(InvalidHeader(RootNotCid));
      }
      i := i + 1;
    }
    assert cids + [] == cids;
    return Ok(cids);
  }

  function CidsOnto(done: seq<Cid>, rest: Result<seq<Cid>, CarError>): Result<seq<Cid>, CarError> {
    match rest
    case Ok(cids) => Ok(done + cids)
    case Err(e) => Err(e)
  }

  lemma RootsOnto(done: seq<Cid>, items: seq<Value>)
    ensures done == [] ==> CidsOnto(done, RootCids(items)) == RootCids(items)
    ensures items != [] && items[0].Link? ==>
              CidsOnto(done, RootCids(items)) == CidsOnto(done + [items[0].cid], RootCids(items[1..]))
    ensures items != [] && !items[0].Link? ==> CidsOnto(done, RootCids(items)) == Err(InvalidHeader(RootNotCid))
  {
    if RootCids(items).Ok? {
      assert [] + RootCids(items).value == RootCids(items).value;
    }
    if items != [] && items[0].Link? && RootCids(items[1..]).Ok? {
      var rest := RootCids(items[1..]).value;
      assert done + ([items[0].cid] + rest) == done + [items[0].cid] + rest;
    }
  }

  // ---------- The blocking reader ----------

  /** A source of bytes: what is left to read. Reading never fails; it may come to the end. */
  class Source {
    var rest: seq<byte>

    constructor (bytes: seq<byte>)
      ensures rest == bytes
    {
      rest := bytes;
    }

    /** `read` with a one-byte buffer. */
    method ReadOne() returns (b: Option<byte>)
      modifies this
      ensures old(rest) == [] ==> b == None && rest == []
      ensures old(rest) != [] ==> b == Some(old(rest)[0]) && rest == old(rest)[1..]
    {
      if rest == [] {
        return None;
      }
      b := Some(rest[0]);
      rest := rest[1..];
    }

    /** `read_exact`. */
    method ReadExact(n: nat) returns (r: Option<seq<byte>>)
      modifies this
      ensures n <= |old(rest)| ==> r == Some(old(rest)[..n]) && rest == old(rest)[n..]
      ensures n > |old(rest)| ==> r == None
    {
      if n > |rest| {
        return None;
      }
      r := Some(rest[..n]);
      rest := rest[n..];
    }
  }

  function VarintOrError(p: Parsed, s: seq<byte>): Result<Option<(nat, nat)>, CarError> {
    match p
    case Err(e) => Err(InvalidBlock(BadVarint(e)))
    case Ok(None) => if s == [] then Ok(None) else Err(InvalidBlock(TruncatedVarint))
    case Ok(Some(v)) => Ok(Some(v))
  }

  /** `read_varint_eof`: one byte at a time, so nothing after the varint is consumed. */
  method ReadVarintEof(source: Source) returns (r: Result<Option<nat>, CarError>)
    modifies source
    ensures match VarintOrError(Parse(old(source.rest), 0), old(source.rest))
            case Err(e) => r == Err(e)
            case Ok(None) => r == Ok(None) && source.rest == []
            case Ok(Some((n, k))) => r == Ok(Some(n)) && source.rest == old(source.rest)[k..]
  {
    hide Parse, Scaled, Pow128;
    ghost var whole := source.rest;
    var value, i := 0, 0;
    StartScaled(whole);
    while true
      invariant i <= 8 && i <= |whole| && source.rest == whole[i..]
      invariant Parse(whole, 0) == Scaled(value, i, Parse(whole[i..], i), i)
      decreases |whole| - i
    {
      var b := source.ReadOne();
      if b.None? {
        NothingParsed(value, i, whole[i..], i);
        return if i == 0 then Ok(None) else Err(InvalidBlock(TruncatedVarint));
      }
      ScaledStep(value, i, whole[i..], i);
      assert whole[i..][1..] == whole[i + 1..];
      match Step(value, i, b.value) {
        case Err(e) => return Err(InvalidBlock(BadVarint(e)));
        case Ok((next, done)) =>
          if done {
            return Ok(Some(next));
          }
          value := next;
      }
      i := i + 1;
    }
  }

  class Reader {
    const source: Source
    const roots: seq<Cid>

    constructor (source: Source, roots: seq<Cid>)
      ensures this.source == source && this.roots == roots
    {
      this.source := source;
      this.roots := roots;
    }

    /** `next_block_into`, then the block. */
    method NextBlock() returns (r: Result<Option<Block>, CarError>)
      modifies source
      ensures match ReadBlock(old(source.rest))
              case Err(e) => r == Err(e)
              case Ok(None) => r == Ok(None)
              case Ok(Some((b, after))) => r == Ok(Some(b)) && source.rest == after
    {
      hide Parse, FromBytes;
      ghost var whole := source.rest;
      var len :- ReadVarintEof(source);
      if len.None? {
        return Ok(None);
      }
      var size :- CheckBlockLen(len.value);
      ghost var frame := source.rest;
      ghost var prefix := |whole| - |frame|;
      var cidBytes := source.ReadExact(CID_LEN);
      if cidBytes.None? {
        return Err(InvalidBlock(TruncatedData));
      }
      assert frame[..CID_LEN] == whole[prefix..prefix + CID_LEN];
      match FromBytes(cidBytes.value) {
        case Err(e) => return Err(Cbor(InvalidCid(e)));
        case Ok(cid) =>
          var data := source.ReadExact(size - CID_LEN);
          if data.None? {
            return Err(InvalidBlock(TruncatedData));
          }
          assert frame[CID_LEN..][..size - CID_LEN] == whole[prefix + CID_LEN..prefix + size];
          assert frame[CID_LEN..][size - CID_LEN..] == whole[prefix + size..];
          return Ok(Some(Block(cid, data.value)));
      }
    }
  }

  /** `Reader::new`. */
  method OpenReader(source: Source) returns (r: Result<Reader, CarError>)
    modifies source
    ensures match ReadHeader(old(source.rest))
            case Err(e) => r == Err(e)
            case Ok((roots, after)) =>
              r.Ok? && fresh(r.value) && r.value.source == source && r.value.roots == roots && source.rest == after
  {
    hide Parse, DecodeHeader;
    ghost var whole := source.rest;
    var len :- ReadVarintEof(source);
    if len.None? {
      return Err(InvalidHeader(UnexpectedEof));
    }
    var size :- CheckHeaderLen(len.value);
    ghost var frame := source.rest;
    ghost var prefix := |whole| - |frame|;
    var header := source.ReadExact(size);
    if header.None? {
      return Err(InvalidHeader(TruncatedHeader));
    }
    assert frame[..size] == whole[prefix..prefix + size] && frame[size..] == whole[prefix + size..];
    var roots :- HeaderRoots(header.value);
    var reader := new Reader(source, roots);
    return Ok(reader);
  }

  /** `read_all`, keeping what was read before an error. */
  method ReadAll(car: seq<byte>) returns (o: Outcome)
    ensures o == ReadCar(car)
  {
    hide ReadBlock, ReadHeader, Drain;
    var source := new Source(car);
    var start := OpenReader(source);
    if start.Err? {
      return Outcome(None, [], Some(start.error));
    }
    var reader := start.value;
    var blocks: seq<Block> := [];
    OntoNothing(Drain(source.rest));
    while true
      invariant reader.source == source
      invariant Onto(blocks, Drain(source.rest)) == Drain(ReadHeader(car).value.1)
      decreases |source.rest|
    {
      DrainStep(blocks, source.rest);
      var b := reader.NextBlock();
      if b.Err? {
        return Outcome(Some(reader.roots), blocks, Some(b.error));
      }
      if b.value.None? {
        return Outcome(Some(reader.roots), blocks, None);
      }
      blocks := blocks + [b.value.value];
    }
  }

  // ---------- The slice reader ----------

  class SliceReader {
    var rest: seq<byte>
    var roots: seq<Cid>

    constructor (rest: seq<byte>, roots: seq<Cid>)
      ensures this.rest == rest && this.roots == roots
    {
      this.rest := rest;
      this.roots := roots;
    }

    /** `split_block`, with the lengths of one and two bytes read directly. */
    method SplitBlock() returns (r: Result<Block, CarError>)
      requires rest != []
      modifies this`rest
      ensures match ReadBlock(old(rest))
              case Err(e) => r == Err(e) && rest == old(rest)
              case Ok(o) => o.Some? && r == Ok(o.value.0) && rest == o.value.1
    {
      hide Parse, FromBytes;
      var len: nat, prefix: nat;
      if rest[0] < 0x80 {
        OneByte(rest);
        len, prefix := rest[0], 1;
      } else if |rest| > 1 && 0 < rest[1] < 0x80 {
        TwoBytes(rest);
        len, prefix := TwoByteLen(rest[0], rest[1]), 2;
      } else {
        var v := FromSlice(rest);
        if v.Err? {
          return Err(InvalidBlock(BadVarint(v.error)));
        }
        if v.value.None? {
          return Err(InvalidBlock(TruncatedVarint));
        }
        len, prefix := v.value.value.0, v.value.value.1;
      }
      var size :- CheckBlockLen(len);
      var frame := rest[prefix..];
      if |frame| < CID_LEN {
        return Err(InvalidBlock(TruncatedData));
      }
      Prefixed(rest, prefix);
      match FromBytes(frame[..CID_LEN]) {
        case Err(e) => return Err(Cbor(InvalidCid(e)));
        case Ok(cid) =>
          if |frame| < size {
            return Err(InvalidBlock(TruncatedData));
          }
          Reframed(rest, prefix, size);
          rest := frame[size..];
          return Ok(Block(cid, frame[..size][CID_LEN..]));
      }
    }

    /** The iterator's `next`: nothing follows an error. */
    method Next() returns (r: Option<Result<Block, CarError>>)
      modifies this`rest
      ensures match ReadBlock(old(rest))
              case Err(e) => r == Some(Err(e)) && rest == []
              case Ok(None) => r == None && rest == []
              case Ok(Some((b, after))) => r == Some(Ok(b)) && rest == after
    {
      hide Parse, FromBytes;
      if rest == [] {
        NothingToParse(rest);
        return None;
      }
      var block := SplitBlock();
      if block.Err? {
        rest := [];
      }
      return Some(block);
    }
  }

  lemma Prefixed(s: seq<byte>, prefix: nat)
    requires prefix + CID_LEN <= |s|
    ensures s[prefix..][..CID_LEN] == s[prefix..prefix + CID_LEN]
  {
  }

  lemma Reframed(s: seq<byte>, prefix: nat, size: nat)
    requires CID_LEN <= size && prefix + size <= |s|
    ensures s[prefix..][..size][CID_LEN..] == s[prefix + CID_LEN..prefix + size]
    ensures s[prefix..][size..] == s[prefix + size..]
  {
    assert s[prefix..][..size] == s[prefix..prefix + size];
  }

  function TwoByteLen(low: nat, high: nat): nat {
    low % 128 + 128 * high
  }

  lemma OneByte(s: seq<byte>)
    requires s != [] && s[0] < 0x80
    ensures Parse(s, 0) == Ok(Some((s[0], 1)))
  {
  }

  lemma TwoBytes(s: seq<byte>)
    requires |s| > 1 && s[0] >= 0x80 && 0 < s[1] < 0x80
    ensures Parse(s, 0) == Ok(Some((TwoByteLen(s[0], s[1]), 2)))
  {
    assert Parse(s[1..], 1) == Ok(Some((s[1], 1)));
  }

  lemma NothingToParse(s: seq<byte>)
    requires s == []
    ensures Parse(s, 0) == Ok(None)
  {
  }

  /** `SliceReader::new`. */
  method OpenSlice(car: seq<byte>) returns (r: Result<SliceReader, CarError>)
    ensures match ReadHeader(car)
            case Err(e) => r == Err(e)
            case Ok((roots, after)) => r.Ok? && fresh(r.value) && r.value.roots == roots && r.value.rest == after
  {
    hide Parse, DecodeHeader;
    var v := FromSlice(car);
    if v.Err? {
      return Err(InvalidBlock(BadVarint(v.error)));
    }
    if v.value.None? {
      return Err(if car == [] then InvalidHeader(UnexpectedEof) else InvalidBlock(TruncatedVarint));
    }
    var (len, prefix) := v.value.value;
    var size :- CheckHeaderLen(len);
    if |car[prefix..]| < size {
      return Err(InvalidHeader(TruncatedHeader));
    }
    assert car[prefix..][..size] == car[prefix..prefix + size] && car[prefix..][size..] == car[prefix + size..];
    var roots :- HeaderRoots(car[prefix..][..size]);
    var reader := new SliceReader(car[prefix..][size..], roots);
    return Ok(reader);
  }

  /** `read_slice`, keeping what was read before an error: the blocking reader's outcome, its error included. */
  method ReadSliceAll(car: seq<byte>) returns (o: Outcome)
    ensures o == ReadCar(car)
  {
    hide ReadBlock, ReadHeader, Drain;
    var start := OpenSlice(car);
    if start.Err? {
      return Outcome(None, [], Some(start.error));
    }
    var reader := start.value;
    var blocks: seq<Block> := [];
    OntoNothing(Drain(reader.rest));
    while true
      invariant reader.roots == ReadHeader(car).value.0
      invariant Onto(blocks, Drain(reader.rest)) == Drain(ReadHeader(car).value.1)
      decreases |reader.rest|
    {
      DrainStep(blocks, reader.rest);
      var b := reader.Next();
      if b.None? {
        return Outcome(Some(reader.roots), blocks, None);
      }
      if b.value.Err? {
        return Outcome(Some(reader.roots), blocks, Some(b.value.error));
      }
      blocks := blocks + [b.value.value];
    }
  }
}
