/**
 * The reader of an archive that arrives in chunks. `Pushed` says what feeding a whole archive means; `Feed` gives that
 * for every chunking, and `PushedAgrees` ties it to the blocking reader.
 */
module CarIncremental {
  import opened Wrappers
  import opened Bytes
  import opened Cids
  import opened Drisl
  import opened Varint
  import opened CarSpec
  import CarReaders

  /** Where the body of the first frame lies, once all of it is there. Its length is judged as soon as it is known. */
  function Frame(rest: seq<byte>, check: nat -> Result<nat, CarError>): (r: Result<Option<(nat, nat)>, CarError>)
    ensures r.Ok? && r.value.Some? ==> 0 < r.value.value.0 <= r.value.value.1 <= |rest|
  {
    match Parse(rest, 0)
    case Err(e) => Err(InvalidBlock(BadVarint(e)))
    case Ok(None) => Ok(None)
    case Ok(Some((len, prefix))) =>
      var size :- check(len);
      if |rest| - prefix < size then Ok(None) else Ok(Some((prefix, prefix + size)))
  }

  function HeaderFrame(rest: seq<byte>): Result<Option<(seq<Cid>, seq<byte>)>, CarError> {
    var frame :- Frame(rest, CheckHeaderLen);
    match frame
    case None => Ok(None)
    case Some((start, end)) =>
      var roots :- DecodeHeader(rest[start..end]);
      Ok(Some((roots, rest[end..])))
  }

  function BlockFrame(rest: seq<byte>): (r: Result<Option<(Block, seq<byte>)>, CarError>)
    ensures r.Ok? && r.value.Some? ==> |r.value.value.1| < |rest|
  {
    var frame :- Frame(rest, CheckBlockLen);
    match frame
    case None => Ok(None)
    case Some((start, end)) =>
      BlockFrameIsLong(rest);
      match FromBytes(rest[start..start + CID_LEN])
      case Err(e) => Err(Cbor(InvalidCid(e)))
      case Ok(cid) => Ok(Some((Block(cid, rest[start + CID_LEN..end]), rest[end..])))
  }

  lemma BlockFrameIsLong(rest: seq<byte>)
    ensures match Frame(rest, CheckBlockLen)
            case Ok(Some((start, end))) => start + CID_LEN <= end <= start + MAX_BLOCK_SIZE
            case _ => true
  {
    hide Parse;
  }

  /** The data length of the next block, from its length prefix alone. */
  function DataLen(rest: seq<byte>): Result<Option<nat>, CarError> {
    match Parse(rest, 0)
    case Err(e) => Err(InvalidBlock(BadVarint(e)))
    case Ok(None) => Ok(None)
    case Ok(Some((len, _))) =>
      var size :- CheckBlockLen(len);
      Ok(Some(size - CID_LEN))
  }

  /** The verdict on what is left when the stream ends. */
  function Leftover(roots: Option<seq<Cid>>, rest: seq<byte>): Option<CarError> {
    if roots.None? then Some(InvalidHeader(if rest == [] then UnexpectedEof else TruncatedHeader))
    else if rest == [] then None
    else match Parse(rest, 0)
      case Err(e) => Some(InvalidBlock(BadVarint(e)))
      case Ok(Some(_)) => Some(InvalidBlock(TruncatedData))
      case Ok(None) => Some(InvalidBlock(TruncatedVarint))
  }

  function PushedBlocks(rest: seq<byte>): (seq<Block>, Option<CarError>)
    decreases |rest|
  {
    match BlockFrame(rest)
    case Err(e) => ([], Some(e))
    case Ok(None) => ([], Leftover(Some([]), rest))
    case Ok(Some((b, after))) =>
      var (blocks, error) := PushedBlocks(after);
      ([b] + blocks, error)
  }

  /** What comes of a whole archive that was pushed and drained, then finished. */
  function Pushed(car: seq<byte>): Outcome {
    match HeaderFrame(car)
    case Err(e) => Outcome(None, [], Some(e))
    case Ok(None) => Outcome(None, [], Leftover(None, car))
    case Ok(Some((roots, rest))) =>
      var (blocks, error) := PushedBlocks(rest);
      Outcome(Some(roots), blocks, error)
  }

  // ---------- Agreement with the blocking reader ----------

  /**
   * The reader that waits for whole frames reports another error in two cases only: where the blocking reader gives up
   * on a CID before it misses the rest of the block, and where the archive ends inside its very first varint.
   */
  predicate SameVerdict(pushed: Option<CarError>, read: Option<CarError>) {
    pushed == read
    || (pushed == Some(InvalidBlock(TruncatedData)) && read.Some? && read.value.Cbor? && read.value.cbor.InvalidCid?)
    || (pushed == Some(InvalidHeader(TruncatedHeader)) && read == Some(InvalidBlock(TruncatedVarint)))
  }

  lemma {:induction false} PushedBlocksAgree(rest: seq<byte>)
    ensures PushedBlocks(rest).0 == Drain(rest).0
    ensures SameVerdict(PushedBlocks(rest).1, Drain(rest).1)
    decreases |rest|
  {
    BlockFrameIsRead(rest);
    hide BlockFrame, ReadBlock;
    match ReadBlock(rest) {
      case Ok(Some((_, after))) => PushedBlocksAgree(after);
      case _ =>
    }
  }

  lemma BlockFrameIsRead(rest: seq<byte>)
    ensures BlockFrame(rest) == Ok(None) ==>
              (ReadBlock(rest).Err? && SameVerdict(Leftover(Some([]), rest), Some(ReadBlock(rest).error)))
              || (rest == [] && ReadBlock(rest) == Ok(None))
    ensures BlockFrame(rest) != Ok(None) ==> ReadBlock(rest) == BlockFrame(rest)
  {
    hide Parse, FromBytes;
    if rest == [] {
      CarReaders.NothingToParse(rest);
    }
  }

  /** Same roots, same blocks, and both succeed or both fail, with the same error but for `SameVerdict`. */
  lemma PushedAgrees(car: seq<byte>)
    ensures Pushed(car).roots == ReadCar(car).roots
    ensures Pushed(car).blocks == ReadCar(car).blocks
    ensures Pushed(car).error.None? <==> ReadCar(car).error.None?
    ensures SameVerdict(Pushed(car).error, ReadCar(car).error)
  {
    HeaderFrameIsRead(car);
    hide HeaderFrame, ReadHeader, PushedBlocks, Drain;
    match HeaderFrame(car) {
      case Ok(Some((_, rest))) => PushedBlocksAgree(rest);
      case _ =>
    }
  }

  lemma HeaderFrameIsRead(car: seq<byte>)
    ensures match HeaderFrame(car)
            case Err(e) => ReadHeader(car) == Err(e)
            case Ok(None) => ReadHeader(car).Err? && SameVerdict(Leftover(None, car), Some(ReadHeader(car).error))
            case Ok(Some(o)) => ReadHeader(car) == Ok(o)
  {
    hide Parse, DecodeHeader;
    if car == [] {
      CarReaders.NothingToParse(car);
    }
  }

  // ---------- More input changes nothing already decided ----------

  lemma FrameStable(rest: seq<byte>, check: nat -> Result<nat, CarError>, more: seq<byte>)
    requires Frame(rest, check) != Ok(None)
    ensures Frame(rest + more, check) == Frame(rest, check)
  {
    hide Parse;
    ParseStable(rest, 0, more);
  }

  lemma BlockStable(rest: seq<byte>, more: seq<byte>)
    requires BlockFrame(rest) != Ok(None)
    ensures BlockFrame(rest + more)
            == match BlockFrame(rest) { case Ok(Some((b, after))) => Ok(Some((b, after + more))) case r => r }
  {
    hide Frame, FromBytes;
    FrameStable(rest, CheckBlockLen, more);
    BlockFrameIsLong(rest);
    match Frame(rest, CheckBlockLen) {
      case Ok(Some((start, end))) =>
        assert (rest + more)[start..start + CID_LEN] == rest[start..start + CID_LEN];
        assert (rest + more)[start + CID_LEN..end] == rest[start + CID_LEN..end];
        assert (rest + more)[end..] == rest[end..] + more;
      case _ =>
    }
  }

  lemma HeaderStable(rest: seq<byte>, more: seq<byte>)
    requires HeaderFrame(rest) != Ok(None)
    ensures HeaderFrame(rest + more)
            == match HeaderFrame(rest) { case Ok(Some((roots, after))) => Ok(Some((roots, after + more))) case r => r }
  {
    hide Frame, DecodeHeader;
    FrameStable(rest, CheckHeaderLen, more);
    match Frame(rest, CheckHeaderLen) {
      case Ok(Some((start, end))) =>
        assert (rest + more)[start..end] == rest[start..end];
        assert (rest + more)[end..] == rest[end..] + more;
      case _ =>
    }
  }

  /** The predicted length is that of the block yielded once it has arrived, and a prediction that fails fails alike. */
  lemma PredictedIsYielded(rest: seq<byte>, more: seq<byte>)
    ensures match DataLen(rest)
            case Err(e) => BlockFrame(rest + more) == Err(e)
            case Ok(None) => BlockFrame(rest) == Ok(None)
            case Ok(Some(n)) =>
              match BlockFrame(rest + more)
              case Ok(Some((b, _))) => |b.data| == n
              case Ok(None) => |rest + more| < 9 + CID_LEN + n
              case Err(e) => e.Cbor? && e.cbor.InvalidCid?
  {
    hide Parse, FromBytes;
    if Parse(rest, 0) != Ok(None) {
      ParseStable(rest, 0, more);
    }
  }

  /** What a drained reader still holds is one partial frame. */
  lemma DrainedIsPartial(rest: seq<byte>)
    ensures HeaderFrame(rest) == Ok(None) ==> |rest| < 9 + MAX_HEADER_SIZE
    ensures BlockFrame(rest) == Ok(None) ==> |rest| < 9 + MAX_BLOCK_SIZE
  {
    hide Parse, FromBytes;
    if Parse(rest, 0) == Ok(None) {
      UnfinishedIsShort(rest, 0);
    }
  }

  // ---------- The reader ----------

  class IncrementalReader {
    var buf: seq<byte>
    var pos: nat
    var roots: Option<seq<Cid>>

    ghost predicate Valid()
      reads this
    {
      pos <= |buf|
    }

    /** The bytes not consumed yet. */
    ghost function Rest(): seq<byte>
      requires Valid()
      reads this
    {
      buf[pos..]
    }

    constructor ()
      ensures Valid() && Rest() == [] && roots == None
    {
      buf, pos, roots := [], 0, None;
    }

    method Push(chunk: seq<byte>)
      requires Valid()
      modifies this
      ensures Valid() && Rest() == old(Rest()) + chunk && roots == old(roots)
      ensures |buf| == |old(Rest())| + |chunk|
    {
      if pos > 0 {
        buf := buf[pos..];
        pos := 0;
      }
      buf := buf + chunk;
    }

    method NextFrame(check: nat -> Result<nat, CarError>) returns (r: Result<Option<(nat, nat)>, CarError>)
      requires Valid()
      modifies this`pos
      ensures Valid()
      ensures match Frame(old(Rest()), check)
              case Err(e) => r == Err(e) && pos == old(pos)
              case Ok(None) => r == Ok(None) && pos == old(pos)
              case Ok(Some((start, end))) => r == Ok(Some((old(pos) + start, old(pos) + end))) && pos == old(pos) + end
    {
      hide Parse;
      var v := FromSlice(buf[pos..]);
      if v.Err? {
        return Err(InvalidBlock(BadVarint(v.error)));
      }
      if v.value.None? {
        return Ok(None);
      }
      var (len, prefix) := v.value.value;
      var size :- check(len);
      if |buf[pos..]| - prefix < size {
        return Ok(None);
      }
      var start := pos + prefix;
      pos := start + size;
      return Ok(Some((start, pos)));
    }

    method ReadHeader() returns (r: Result<bool, CarError>)
      requires Valid()
      modifies this`pos, this`roots
      ensures Valid()
      ensures old(roots).Some? ==> r == Ok(true) && Rest() == old(Rest()) && roots == old(roots)
      ensures old(roots).None? ==>
                match HeaderFrame(old(Rest()))
                case Err(e) => r == Err(e) && roots == None
                case Ok(None) => r == Ok(false) && roots == None && Rest() == old(Rest())
                case Ok(Some((cids, after))) => r == Ok(true) && roots == Some(cids) && Rest() == after
    {
      hide Frame, DecodeHeader;
      if roots.None? {
        ghost var rest := Rest();
        var frame :- NextFrame(CheckHeaderLen);
        if frame.None? {
          return Ok(false);
        }
        var (start, end) := frame.value;
        assert buf[start..end] == rest[start - old(pos)..end - old(pos)];
        assert buf[end..] == rest[end - old(pos)..];
        var cids :- CarReaders.HeaderRoots(buf[start..end]);
        roots := Some(cids);
      }
      return Ok(true);
    }

    /** After an error the reader is to be discarded, so nothing but the roots is said of it. */
    method NextBlock() returns (r: Result<Option<Block>, CarError>)
      requires Valid()
      modifies this`pos, this`roots
      ensures Valid()
      ensures old(roots).Some? ==> roots == old(roots) && BlockTaken(old(Rest()), Rest(), r)
      ensures old(roots).None? ==>
                match HeaderFrame(old(Rest()))
                case Err(e) => r == Err(e) && roots == None
                case Ok(None) => r == Ok(None) && roots == None && Rest() == old(Rest())
                case Ok(Some((cids, after))) => roots == Some(cids) && BlockTaken(after, Rest(), r)
    {
      hide Frame, HeaderFrame, FromBytes;
      var header :- ReadHeader();
      if !header {
        return Ok(None);
      }
      ghost var rest, from := Rest(), pos;
      BlockFrameIsLong(rest);
      var frame :- NextFrame(CheckBlockLen);
      if frame.None? {
        return Ok(None);
      }
      var (start, end) := frame.value;
      Reframe(buf, from, start, end);
      match FromBytes(buf[start..end][..CID_LEN]) {
        case Err(e) => return Err(Cbor(InvalidCid(e)));
        case Ok(cid) => return Ok(Some(Block(cid, buf[start..end][CID_LEN..])));
      }
    }

    /** Consumes nothing but the header. */
    method NextBlockDataLen() returns (r: Result<Option<nat>, CarError>)
      requires Valid()
      modifies this`pos, this`roots
      ensures Valid()
      ensures old(roots).Some? ==> roots == old(roots) && Rest() == old(Rest()) && r == DataLen(Rest())
      ensures old(roots).None? ==>
                match HeaderFrame(old(Rest()))
                case Err(e) => r == Err(e) && roots == None
                case Ok(None) => r == Ok(None) && roots == None && Rest() == old(Rest())
                case Ok(Some((cids, after))) => roots == Some(cids) && Rest() == after && r == DataLen(after)
    {
      hide Parse, HeaderFrame;
      var header :- ReadHeader();
      if !header {
        return Ok(None);
      }
      var v := FromSlice(buf[pos..]);
      if v.Err? {
        return Err(InvalidBlock(BadVarint(v.error)));
      }
      if v.value.None? {
        return Ok(None);
      }
      var size :- CheckBlockLen(v.value.value.0);
      return Ok(Some(size - CID_LEN));
    }

    method Finish() returns (error: Option<CarError>)
      requires Valid()
      ensures error == Leftover(roots, Rest())
    {
      hide Parse;
      if roots.None? {
        return Some(InvalidHeader(if pos == |buf| then UnexpectedEof else TruncatedHeader));
      }
      if pos == |buf| {
        return None;
      }
      var v := FromSlice(buf[pos..]);
      if v.Err? {
        return Some(InvalidBlock(BadVarint(v.error)));
      }
      return Some(InvalidBlock(if v.value.Some? then TruncatedData else TruncatedVarint));
    }
  }

  ghost predicate BlockTaken(before: seq<byte>, after: seq<byte>, r: Result<Option<Block>, CarError>) {
    match BlockFrame(before)
    case Err(e) => r == Err(e)
    case Ok(None) => r == Ok(None) && after == before
    case Ok(Some((b, rest))) => r == Ok(Some(b)) && after == rest
  }

  lemma Reframe(buf: seq<byte>, from: nat, start: nat, end: nat)
    requires from <= start && start + CID_LEN <= end <= |buf|
    ensures buf[from..][start - from..start - from + CID_LEN] == buf[start..end][..CID_LEN]
    ensures buf[from..][start - from + CID_LEN..end - from] == buf[start..end][CID_LEN..]
    ensures buf[from..][end - from..] == buf[end..]
  {
    assert buf[start..end][..CID_LEN] == buf[start..start + CID_LEN];
    assert buf[start..end][CID_LEN..] == buf[start + CID_LEN..end];
  }

  // ---------- Runs ----------

  function Flatten(chunks: seq<seq<byte>>): seq<byte> {
    if chunks == [] then [] else chunks[0] + Flatten(chunks[1..])
  }

  /** What comes of a reader that has given `blocks` and is yet to see `rest`. */
  ghost function Resumed(roots: Option<seq<Cid>>, blocks: seq<Block>, rest: seq<byte>): Outcome {
    if roots.None? then Pushed(rest)
    else
      var (more, error) := PushedBlocks(rest);
      Outcome(roots, blocks + more, error)
  }

  lemma ResumedBlock(roots: Option<seq<Cid>>, blocks: seq<Block>, rest: seq<byte>, more: seq<byte>)
    requires roots.Some?
    ensures match BlockFrame(rest)
            case Err(e) => Resumed(roots, blocks, rest + more) == Outcome(roots, blocks, Some(e))
            case Ok(None) => Resumed(roots, blocks, rest) == Outcome(roots, blocks, Leftover(roots, rest))
            case Ok(Some((b, after))) => Resumed(roots, blocks, rest + more) == Resumed(roots, blocks + [b], after + more)
  {
    hide Leftover;
    LeftoverOfSome(roots, rest);
    if BlockFrame(rest) == Ok(None) {
      assert blocks + [] == blocks;
    } else {
      BlockStable(rest, more);
      hide BlockFrame;
      if BlockFrame(rest).Err? {
        assert blocks + [] == blocks;
      } else {
        var (b, after) := BlockFrame(rest).value.value;
        var later := PushedBlocks(after + more).0;
        assert blocks + ([b] + later) == blocks + [b] + later;
      }
    }
  }

  lemma LeftoverOfSome(roots: Option<seq<Cid>>, rest: seq<byte>)
    requires roots.Some?
    ensures Leftover(roots, rest) == Leftover(Some([]), rest)
  {
  }

  lemma ResumedHeader(rest: seq<byte>, more: seq<byte>)
    ensures match HeaderFrame(rest)
            case Err(e) => Resumed(None, [], rest + more) == Outcome(None, [], Some(e))
            case Ok(None) => Resumed(None, [], rest) == Outcome(None, [], Leftover(None, rest))
            case Ok(Some((roots, after))) => Resumed(None, [], rest + more) == Resumed(Some(roots), [], after + more)
  {
    hide Leftover, PushedBlocks;
    if HeaderFrame(rest) != Ok(None) {
      HeaderStable(rest, more);
      hide HeaderFrame;
      match HeaderFrame(rest) {
        case Ok(Some((_, after))) =>
          assert [] + PushedBlocks(after + more).0 == PushedBlocks(after + more).0;
        case _ =>
      }
    }
  }

  /** Takes every block that has arrived. */
  method TakeBlocks(reader: IncrementalReader, given: seq<Block>, ghost more: seq<byte>)
    returns (blocks: seq<Block>, error: Option<CarError>)
    requires reader.Valid()
    requires reader.roots.None? ==> given == []
    modifies reader`pos, reader`roots
    ensures reader.Valid()
    ensures var before := Resumed(old(reader.roots), given, old(reader.Rest()) + more);
            if error.Some? then before == Outcome(reader.roots, blocks, error)
            else before == Resumed(reader.roots, blocks, reader.Rest() + more)
    ensures reader.roots.None? ==> blocks == []
    ensures error.None? ==> Waiting(reader.roots, reader.Rest())
  {
    hide Resumed, HeaderFrame, BlockFrame;
    blocks := given;
    while true
      invariant reader.Valid()
      invariant reader.roots.None? ==> blocks == []
      invariant Resumed(old(reader.roots), given, old(reader.Rest()) + more) == Resumed(reader.roots, blocks, reader.Rest() + more)
      decreases |reader.Rest()|
    {
      ghost var was, rest := reader.roots, reader.Rest();
      if was.None? {
        ResumedHeader(rest, more);
      }
      var next := reader.NextBlock();
      ghost var start := if was.Some? then rest else match HeaderFrame(rest) { case Ok(Some((_, after))) => after case _ => rest };
      if reader.roots.Some? {
        ResumedBlock(reader.roots, blocks, start, more);
        HeaderFrameIsShorter(rest);
      }
      if next.Err? {
        return blocks, Some(next.error);
      }
      if next.value.None? {
        return blocks, None;
      }
      blocks := blocks + [next.value.value];
    }
  }

  lemma HeaderFrameIsShorter(rest: seq<byte>)
    ensures match HeaderFrame(rest)
            case Ok(Some((_, after))) => |after| < |rest|
            case _ => true
  {
    hide Frame, DecodeHeader;
  }

  /** Nothing more can be taken: what is held is one partial frame. */
  ghost predicate Waiting(roots: Option<seq<Cid>>, rest: seq<byte>) {
    if roots.None? then HeaderFrame(rest) == Ok(None) else BlockFrame(rest) == Ok(None)
  }

  /** Every chunking of an archive, drained after each chunk and then finished, comes to the same. */
  method Feed(chunks: seq<seq<byte>>) returns (o: Outcome)
    ensures o == Pushed(Flatten(chunks))
  {
    hide Pushed, PushedBlocks, HeaderFrame, BlockFrame, Leftover;
    var reader := new IncrementalReader();
    var blocks: seq<Block> := [];
    var i := 0;
    assert chunks[0..] == chunks && [] + Flatten(chunks) == Flatten(chunks);
    NothingWaits();
    while i < |chunks|
      invariant i <= |chunks| && reader.Valid()
      invariant reader.roots.None? ==> blocks == []
      invariant Resumed(reader.roots, blocks, reader.Rest() + Flatten(chunks[i..])) == Pushed(Flatten(chunks))
      invariant Waiting(reader.roots, reader.Rest())
    {
      ghost var held := reader.Rest();
      reader.Push(chunks[i]);
      FlattenNext(held, chunks, i);
      var error;
      blocks, error := TakeBlocks(reader, blocks, Flatten(chunks[i + 1..]));
      if error.Some? {
        return Outcome(reader.roots, blocks, error);
      }
      i := i + 1;
    }
    assert reader.Rest() + Flatten(chunks[i..]) == reader.Rest();
    ghost var rest := reader.Rest();
    if reader.roots.None? {
      ResumedHeader(rest, []);
    } else {
      ResumedBlock(reader.roots, blocks, rest, []);
    }
    var verdict := reader.Finish();
    return Outcome(reader.roots, blocks, verdict);
  }

  lemma NothingWaits()
    ensures Waiting(None, [])
  {
    CarReaders.NothingToParse([]);
  }

  lemma FlattenNext(held: seq<byte>, chunks: seq<seq<byte>>, i: nat)
    requires i < |chunks|
    ensures held + Flatten(chunks[i..]) == held + chunks[i] + Flatten(chunks[i + 1..])
  {
    assert chunks[i..][1..] == chunks[i + 1..];
  }
}
