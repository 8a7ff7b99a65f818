/** What reading a CAR v1 archive means: the header frame, then one block frame after another, and the first error. */
module CarSpec {
  import opened Wrappers
  import opened Bytes
  import opened KeyedLists
  import opened Cids
  import opened Drisl
  import opened DecodeSpec
  import opened Canonicity
  import opened Varint
  import JsonTree

  datatype HeaderReason =
    | UnexpectedEof | TruncatedHeader | HeaderTooLong(len: nat) | TrailingHeaderData | HeaderNotMap
    | VersionNotInteger | RootsNotArray | RootNotCid | MissingVersion | BadVersion(version: u64) | MissingRoots

  datatype BlockReason =
    | BadVarint(varint: VarintError) | TruncatedVarint | ZeroLength | BlockTooLong(len: nat) | TooShortForCid | TruncatedData

  datatype CarError = InvalidHeader(header: HeaderReason) | InvalidBlock(block: BlockReason) | Cbor(cbor: CborError)

  datatype Block = Block(cid: Cid, data: seq<byte>)

  const MAX_HEADER_SIZE: nat := 0x10_0000
  const MAX_BLOCK_SIZE: nat := 0x800_0000

  const ROOTS := JsonTree.Ascii("roots")
  const VERSION := JsonTree.Ascii("version")

  // ---------- Lengths ----------

  function CheckHeaderLen(len: nat): Result<nat, CarError> {
    if len > MAX_HEADER_SIZE then Err(InvalidHeader(HeaderTooLong(len))) else Ok(len)
  }

  function CheckBlockLen(len: nat): (r: Result<nat, CarError>)
    ensures r.Ok? <==> CID_LEN <= len <= MAX_BLOCK_SIZE
    ensures r.Ok? ==> r.value == len
    ensures r == Err(InvalidBlock(BlockTooLong(len))) <==> len > MAX_BLOCK_SIZE
    ensures r == Err(InvalidBlock(ZeroLength)) <==> len == 0
    ensures r == Err(InvalidBlock(TooShortForCid)) <==> 0 < len < CID_LEN
  {
    if len == 0 then Err(InvalidBlock(ZeroLength))
    else if len > MAX_BLOCK_SIZE then Err(InvalidBlock(BlockTooLong(len)))
    else if len < CID_LEN then Err(InvalidBlock(TooShortForCid))
    else Ok(len)
  }

  // ---------- The header ----------

  function RootCids(items: seq<Value>): Result<seq<Cid>, CarError> {
    if items == [] then Ok([])
    else match items[0]
      case Link(c) =>
        var rest :- RootCids(items[1..]);
        Ok([c] + rest)
      case _ => Err(InvalidHeader(RootNotCid))
  }

  /** The entries of the header map in turn, after some that gave `version` and `roots`. */
  function ScanHeader(entries: seq<Keyed<Value>>, version: Option<u64>, roots: Option<seq<Cid>>): Result<seq<Cid>, CarError> {
    if entries == [] then
      match version
      case None => Err(InvalidHeader(MissingVersion))
      case Some(v) =>
        if v != 1 then Err(InvalidHeader(BadVersion(v)))
        else if roots.None? then Err(InvalidHeader(MissingRoots))
        else Ok(roots.value)
    else if entries[0].key == VERSION then
      match entries[0].value
      case Unsigned(n) => ScanHeader(entries[1..], Some(n), roots)
      case _ => Err(InvalidHeader(VersionNotInteger))
    else if entries[0].key == ROOTS then
      match entries[0].value
      case Array(items) =>
        var cids :- RootCids(items);
        ScanHeader(entries[1..], version, Some(cids))
      case _ => Err(InvalidHeader(RootsNotArray))
    else ScanHeader(entries[1..], version, roots)
  }

  function DecodeHeader(header: seq<byte>): Result<seq<Cid>, CarError> {
    match DecodeValue(header, 0, 0)
    case Err(e) => Err(Cbor(e))
    case Ok((v, end)) =>
      if end < |header| then Err(InvalidHeader(TrailingHeaderData))
      else match v
        case Map(entries) => ScanHeader(entries, None, None)
        case _ => Err(InvalidHeader(HeaderNotMap))
  }

  function Links(roots: seq<Cid>): (items: seq<Value>)
    ensures |items| == |roots|
  {
    if roots == [] then [] else [Link(roots[0])] + Links(roots[1..])
  }

  lemma {:induction false} RootsAreLinks(items: seq<Value>, roots: seq<Cid>)
    ensures RootCids(items) == Ok(roots) <==> items == Links(roots)
    decreases |items|
  {
    if items != [] && items[0].Link? && roots != [] {
      RootsAreLinks(items[1..], roots[1..]);
      assert items == [items[0]] + items[1..] && roots == [roots[0]] + roots[1..];
      assert Links(roots)[1..] == Links(roots[1..]);
    }
    if RootCids(items) == Ok(roots) && items != [] {
      assert roots[1..] == RootCids(items[1..]).value;
    }
  }

  /** The last value of a key, or what was given before. */
  ghost predicate Gives<T>(entries: seq<Keyed<Value>>, key: seq<byte>, before: Option<T>, now: T, means: (Value, T) -> bool) {
    match Last(entries, key)
    case Some(v) => means(v, now)
    case None => before == Some(now)
  }

  ghost predicate IsVersion(v: Value, n: u64) {
    v == Unsigned(n)
  }

  ghost predicate AreRoots(v: Value, roots: seq<Cid>) {
    v == Array(Links(roots))
  }

  lemma {:induction false} ScanAccepts(entries: seq<Keyed<Value>>, version: Option<u64>, roots: Option<seq<Cid>>, cids: seq<Cid>)
    requires Distinct(entries)
    ensures ScanHeader(entries, version, roots) == Ok(cids)
            <==> Gives(entries, VERSION, version, 1, IsVersion) && Gives(entries, ROOTS, roots, cids, AreRoots)
    decreases |entries|
  {
    KeysDiffer();
    hide VERSION, ROOTS, RootCids, Links;
    if entries != [] {
      var e, rest := entries[0], entries[1..];
      assert entries == [e] + rest;
      LastCons(e, rest, VERSION);
      LastCons(e, rest, ROOTS);
      LastFound(rest, e.key);
      assert Last(rest, e.key) == None;
      hide Last;
      if e.key == VERSION && e.value.Unsigned? {
        ScanAccepts(rest, Some(e.value.n), roots, cids);
      } else if e.key == ROOTS && e.value.Array? {
        RootsAreLinks(e.value.items, cids);
        if RootCids(e.value.items).Ok? {
          RootsAreLinks(e.value.items, RootCids(e.value.items).value);
          ScanAccepts(rest, version, Some(RootCids(e.value.items).value), cids);
        }
      } else if e.key != VERSION && e.key != ROOTS {
        ScanAccepts(rest, version, roots, cids);
      }
    }
  }

  lemma KeysDiffer()
    ensures VERSION != ROOTS
  {
    assert |VERSION| == 7 && |ROOTS| == 5;
  }

  /**
   Exactly the headers that are accepted: the encoding of one map that gives version 1 and an array of links, whatever
   else it holds.
   */
  lemma HeaderAccepts(header: seq<byte>, roots: seq<Cid>)
    requires |header| < U64_LIMIT
    ensures DecodeHeader(header) == Ok(roots)
            <==> exists entries ::
                   && Decode(header) == Ok(Map(entries))
                   && Last(entries, VERSION) == Some(Unsigned(1))
                   && Last(entries, ROOTS) == Some(Array(Links(roots)))
  {
    hide VERSION, ROOTS, Links, ScanHeader, DecodeValue, Enc, Last;
    if Decode(header).Ok? && Decode(header).value.Map? {
      var entries := Decode(header).value.entries;
      DecodeIffCanonical(header, Map(entries));
      CanonicalIsSorted(None, entries, 1);
      StrictIsDistinct(LengthFirst, entries);
      ScanAccepts(entries, None, None, roots);
    }
  }

  // ---------- The archive ----------

  /** The roots, and the bytes after the header. */
  function ReadHeader(car: seq<byte>): Result<(seq<Cid>, seq<byte>), CarError> {
    match Parse(car, 0)
    case Err(e) => Err(InvalidBlock(BadVarint(e)))
    case Ok(None) => Err(if car == [] then InvalidHeader(UnexpectedEof) else InvalidBlock(TruncatedVarint))
    case Ok(Some((len, prefix))) =>
      var size :- CheckHeaderLen(len);
      if |car| - prefix < size then Err(InvalidHeader(TruncatedHeader))
      else
        var roots :- DecodeHeader(car[prefix..prefix + size]);
        Ok((roots, car[prefix + size..]))
  }

  /** The next block and the bytes after it, or nothing at a clean end. */
  function ReadBlock(rest: seq<byte>): (r: Result<Option<(Block, seq<byte>)>, CarError>)
    ensures r.Ok? && r.value.Some? ==> |r.value.value.1| < |rest|
  {
    match Parse(rest, 0)
    case Err(e) => Err(InvalidBlock(BadVarint(e)))
    case Ok(None) => if rest == [] then Ok(None) else Err(InvalidBlock(TruncatedVarint))
    case Ok(Some((len, prefix))) =>
      var size :- CheckBlockLen(len);
      if |rest| - prefix < CID_LEN then Err(InvalidBlock(TruncatedData))
      else match FromBytes(rest[prefix..prefix + CID_LEN])
        case Err(e) => Err(Cbor(InvalidCid(e)))
        case Ok(cid) =>
          if |rest| - prefix < size then Err(InvalidBlock(TruncatedData))
          else Ok(Some((Block(cid, rest[prefix + CID_LEN..prefix + size]), rest[prefix + size..])))
  }

  /** All blocks up to the end or the first error. */
  function Drain(rest: seq<byte>): (r: (seq<Block>, Option<CarError>))
    decreases |rest|
  {
    match ReadBlock(rest)
    case Err(e) => ([], Some(e))
    case Ok(None) => ([], None)
    case Ok(Some((b, after))) =>
      var (blocks, error) := Drain(after);
      ([b] + blocks, error)
  }

  /** Everything a reader can produce: the roots if the header is good, the blocks, and the error that stopped it. */
  datatype Outcome = Outcome(roots: Option<seq<Cid>>, blocks: seq<Block>, error: Option<CarError>)

  function ReadCar(car: seq<byte>): Outcome {
    match ReadHeader(car)
    case Err(e) => Outcome(None, [], Some(e))
    case Ok((roots, rest)) =>
      var (blocks, error) := Drain(rest);
      Outcome(Some(roots), blocks, error)
  }

  /** Blocks already read, in front of what is still to come. */
  function Onto(done: seq<Block>, rest: (seq<Block>, Option<CarError>)): (seq<Block>, Option<CarError>) {
    (done + rest.0, rest.1)
  }

  lemma DrainStep(done: seq<Block>, rest: seq<byte>)
    ensures match ReadBlock(rest)
            case Err(e) => Onto(done, Drain(rest)) == (done, Some(e))
            case Ok(None) => Onto(done, Drain(rest)) == (done, None)
            case Ok(Some((b, after))) => Onto(done, Drain(rest)) == Onto(done + [b], Drain(after))
  {
    hide ReadBlock;
    match ReadBlock(rest) {
      case Ok(Some((b, after))) =>
        var (blocks, error) := Drain(after);
        assert done + ([b] + blocks) == done + [b] + blocks;
      case _ =>
        assert done + [] == done;
    }
  }

  lemma OntoNothing(rest: (seq<Block>, Option<CarError>))
    ensures Onto([], rest) == rest
  {
    assert [] + rest.0 == rest.0;
  }
}
