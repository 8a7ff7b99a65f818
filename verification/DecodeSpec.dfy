/**
 What the strict decoder computes, as functions of the buffer, a position and a nesting level, and how heads and strings
 are read.
 */
module DecodeSpec {
  import opened Wrappers
  import opened Bytes
  import opened KeyedLists
  import opened Utf8
  import opened Cids
  import opened Drisl

  /** A value read and the position after it. */
  type Read<+T> = Result<(T, nat), CborError>

  function Fail(reason: CborReason): CborError {
    InvalidCbor(reason)
  }

  function ReadByte(buf: seq<byte>, pos: nat): (r: Read<byte>)
    ensures r.Ok? ==> pos < |buf| && r.value == (buf[pos], pos + 1)
  {
    if pos >= |buf| then Err(Fail(UnexpectedEnd)) else Ok((buf[pos], pos + 1))
  }

  function ReadFixed(buf: seq<byte>, pos: nat, n: nat): (r: Read<seq<byte>>)
    ensures r.Ok? ==> pos + n <= |buf| && r.value == (buf[pos..pos + n], pos + n)
  {
    if pos + n > |buf| then Err(Fail(UnexpectedEnd)) else Ok((buf[pos..pos + n], pos + n))
  }

  /** `usize` has 64 bits here, so `checked_add` fails from 2^64 on. */
  function ReadSlice(buf: seq<byte>, pos: nat, n: u64): (r: Read<seq<byte>>)
    ensures r.Ok? ==> pos + n <= |buf| && r.value == (buf[pos..pos + n], pos + n)
  {
    if pos + n >= U64_LIMIT then Err(Fail(LengthOverflow)) else ReadFixed(buf, pos, n)
  }

  /** The bytes the argument of a head takes after the initial byte. */
  function Width(info: nat): nat {
    if info == 24 then 1 else if info == 25 then 2 else if info == 26 then 4 else 8
  }

  /** The least argument each width may carry. */
  function Least(info: nat): nat {
    if info == 24 then 24 else if info == 25 then 0x100 else if info == 26 then 0x1_0000 else 0x1_0000_0000
  }

  function ReadArgument(buf: seq<byte>, pos: nat, info: nat): (r: Read<u64>)
    requires info < 32
    ensures r.Ok? ==> pos <= r.value.1 && (pos <= |buf| ==> r.value.1 <= |buf|)
  {
    if info < 24 then Ok((info, pos))
    else if info < 28 then
      var (bytes, next) :- ReadFixed(buf, pos, Width(info));
      Pow256Values();
      var n := FromBe(bytes);
      if n < Least(info) then Err(Fail(NonMinimal(n, Width(info)))) else Ok((n, next))
    else if info < 31 then Err(Fail(ReservedInfo(info)))
    else Err(Fail(IndefiniteLength))
  }

  function ReadString(buf: seq<byte>, pos: nat, info: nat): (r: Read<seq<byte>>)
    requires info < 32
    ensures r.Ok? ==> pos <= r.value.1 && (pos <= |buf| ==> r.value.1 <= |buf|)
  {
    var (n, next) :- ReadArgument(buf, pos, info);
    ReadSlice(buf, next, n)
  }

  function CollectionLength(buf: seq<byte>, pos: nat, info: nat, tooLong: CborReason): (r: Read<nat>)
    requires info < 32
    ensures r.Ok? ==> pos <= r.value.1 && (pos <= |buf| ==> r.value.1 <= |buf|) && r.value.0 <= MAX_COLLECTION_LEN
  {
    var (n, next) :- ReadArgument(buf, pos, info);
    if n > MAX_COLLECTION_LEN then Err(Fail(tooLong)) else Ok((n, next))
  }

  function ReadTag42Body(buf: seq<byte>, pos: nat): (r: Read<Cid>)
    ensures r.Ok? ==> pos < r.value.1 <= |buf|
  {
    var (b, next) :- ReadByte(buf, pos);
    if b / 32 != 2 then Err(Fail(TagNotBytes))
    else
      var (body, end) :- ReadString(buf, next, b % 32);
      match FromTag42(body)
      case Ok(c) => Ok((c, end))
      case Err(e) => Err(InvalidCid(e))
  }

  function ReadFloat(buf: seq<byte>, pos: nat): (r: Read<u64>)
    ensures r.Ok? ==> pos < r.value.1 <= |buf|
  {
    var (bytes, next) :- ReadFixed(buf, pos, 8);
    Pow256Values();
    var bits := FromBe(bytes);
    if NotANumberBits(bits) then Err(Fail(NotANumber))
    else if !Finite(bits) then Err(Fail(InfiniteNumber))
    else Ok((bits, next))
  }

  /** Major type 7: the simple values and the float. */
  function ReadSimple(buf: seq<byte>, pos: nat, info: nat): (r: Read<Value>)
    requires info < 32
    ensures r.Ok? ==> pos <= r.value.1 && (pos <= |buf| ==> r.value.1 <= |buf|)
  {
    match info
    case 20 => Ok((Bool(false), pos))
    case 21 => Ok((Bool(true), pos))
    case 22 => Ok((Null, pos))
    case 24 => Err(Fail(UnsupportedSimple))
    case 25 => Err(Fail(HalfFloat))
    case 26 => Err(Fail(SingleFloat))
    case 27 =>
      var (bits, next) :- ReadFloat(buf, pos);
      Ok((Float(bits), next))
    case 31 => Err(Fail(IndefiniteLength))
    case _ => Err(Fail(UnsupportedSimpleValue(info)))
  }

  /** Every value that is not an array or a map, after its initial byte. */
  function ReadScalar(buf: seq<byte>, pos: nat, major: nat, info: nat): (r: Read<Value>)
    requires major < 8 && major != 4 && major != 5 && info < 32
    ensures r.Ok? ==> pos <= r.value.1 && (pos <= |buf| ==> r.value.1 <= |buf|)
  {
    match major
    case 0 =>
      var (n, next) :- ReadArgument(buf, pos, info);
      if n > I64_MAX then Err(Fail(UnsignedOutOfRange)) else Ok((Unsigned(n), next))
    case 1 =>
      var (n, next) :- ReadArgument(buf, pos, info);
      if n > I64_MAX then Err(Fail(NegativeOutOfRange)) else Ok((Signed(-1 - n), next))
    case 2 =>
      var (s, next) :- ReadString(buf, pos, info);
      Ok((Bytes(s), next))
    case 3 =>
      var (s, next) :- ReadString(buf, pos, info);
      if ValidUtf8(s) then Ok((Text(s), next)) else Err(Fail(InvalidUtf8))
    case 6 =>
      var (tag, next) :- ReadArgument(buf, pos, info);
      if tag != 42 then Err(Fail(UnsupportedTag(tag)))
      else
        var (c, end) :- ReadTag42Body(buf, next);
        Ok((Link(c), end))
    case _ => ReadSimple(buf, pos, info)
  }

  /** A map key at `pos`, with `prev` the previous key's encoding, or nothing. */
  function ReadKeyBytes(buf: seq<byte>, pos: nat, prev: seq<byte>): (r: Read<seq<byte>>)
    ensures r.Ok? ==> pos < r.value.1 <= |buf|
  {
    var (b, next) :- ReadByte(buf, pos);
    if b / 32 != 3 then Err(Fail(KeyNotText))
    else
      var (key, end) :- ReadString(buf, next, b % 32);
      if prev == [] then Ok((key, end))
      else match Compare(prev, buf[pos..end])
        case Greater => Err(Fail(KeyOrder))
        case Equal => Err(Fail(DuplicateKey))
        case Less => Ok((key, end))
  }

  function ReadKey(buf: seq<byte>, pos: nat, prev: seq<byte>): (r: Read<seq<byte>>)
    ensures r.Ok? ==> pos < r.value.1 <= |buf|
  {
    var (key, end) :- ReadKeyBytes(buf, pos, prev);
    if ValidUtf8(key) then Ok((key, end)) else Err(Fail(InvalidUtf8))
  }

  /** One value at `pos`, from nesting level `depth`. */
  function DecodeValue(buf: seq<byte>, pos: nat, depth: nat): (r: Read<Value>)
    requires depth <= MAX_DEPTH
    ensures r.Ok? ==> pos < r.value.1 <= |buf|
    decreases MAX_DEPTH - depth, 0
  {
    if depth >= MAX_DEPTH then Err(Fail(TooDeep))
    else
      var (b, next) :- ReadByte(buf, pos);
      if b / 32 == 4 then
        var (len, start) :- CollectionLength(buf, next, b % 32, ArrayTooLong);
        var (items, end) :- DecodeItems(buf, start, depth + 1, len);
        Ok((Array(items), end))
      else if b / 32 == 5 then
        var (len, start) :- CollectionLength(buf, next, b % 32, MapTooLong);
        var (entries, end) :- DecodeEntries(buf, start, depth + 1, [], len);
        Ok((Map(entries), end))
      else ReadScalar(buf, next, b / 32, b % 32)
  }

  /** `count` values in a row. */
  function DecodeItems(buf: seq<byte>, pos: nat, depth: nat, count: nat): (r: Read<seq<Value>>)
    requires depth <= MAX_DEPTH
    ensures r.Ok? ==> pos <= r.value.1 && (pos <= |buf| ==> r.value.1 <= |buf|) && |r.value.0| == count
    decreases MAX_DEPTH - depth, count
  {
    if count == 0 then Ok(([], pos))
    else
      var (v, next) :- DecodeValue(buf, pos, depth);
      var (rest, end) :- DecodeItems(buf, next, depth, count - 1);
      Ok(([v] + rest, end))
  }

  /** `count` map entries in a row. */
  function DecodeEntries(buf: seq<byte>, pos: nat, depth: nat, prev: seq<byte>, count: nat): (r: Read<seq<Keyed<Value>>>)
    requires depth <= MAX_DEPTH
    ensures r.Ok? ==> pos <= r.value.1 && (pos <= |buf| ==> r.value.1 <= |buf|) && |r.value.0| == count
    decreases MAX_DEPTH - depth, count
  {
    if count == 0 then Ok(([], pos))
    else
      var (key, mid) :- ReadKey(buf, pos, prev);
      var (v, next) :- DecodeValue(buf, mid, depth);
      var (rest, end) :- DecodeEntries(buf, next, depth, buf[pos..mid], count - 1);
      Ok(([Keyed(key, v)] + rest, end))
  }

  /** The whole input: one value and nothing after it. */
  function Decode(data: seq<byte>): Result<Value, CborError> {
    var (v, end) :- DecodeValue(data, 0, 0);
    if end < |data| then Err(Fail(TrailingData)) else Ok(v)
  }

  // ---------- Heads ----------

  /** The minimal head of an argument is read back as it. */
  lemma HeadIsRead(buf: seq<byte>, pos: nat, major: nat, n: u64)
    requires major < 8 && At(buf, pos, Head(major, n))
    ensures pos < |buf| && buf[pos] / 32 == major
    ensures ReadArgument(buf, pos + 1, buf[pos] % 32) == Ok((n, pos + |Head(major, n)|))
  {
    hide *;
    if n < 24 {
      TinyHead(major, n);
      assert Head(major, n) == [32 * major + n] + [];
      ByteThenBytes(buf, pos, 32 * major + n, []);
      InitialByte(major, n);
      TinyRead(buf, pos + 1, n);
    } else {
      var info := InfoOf(n);
      HeadLayout(major, n);
      ByteThenBytes(buf, pos, 32 * major + info, Be(n, Width(info)));
      InitialByte(major, info);
      WideRead(buf, pos + 1, info, n);
    }
  }

  /** The low bits of the initial byte of an argument that does not fit in it. */
  function InfoOf(n: nat): (info: nat)
    ensures 24 <= info < 28
  {
    if n < 0x100 then 24 else if n < 0x1_0000 then 25 else if n < 0x1_0000_0000 then 26 else 27
  }

  lemma HeadLayout(major: nat, n: nat)
    requires major < 8 && 24 <= n < U64_LIMIT
    ensures var info := InfoOf(n);
            && Head(major, n) == [32 * major + info] + Be(n, Width(info))
            && Least(info) <= n < Pow256(Width(info))
  {
    Pow256Values();
    hide Be, Pow256;
  }

  lemma InitialByte(major: nat, info: nat)
    requires major < 8 && info < 32
    ensures (32 * major + info) / 32 == major && (32 * major + info) % 32 == info
  {
  }

  lemma ByteThenBytes(buf: seq<byte>, pos: nat, b: byte, s: seq<byte>)
    requires At(buf, pos, [b] + s)
    ensures pos + 1 + |s| <= |buf| && buf[pos] == b && buf[pos + 1..pos + 1 + |s|] == s
  {
    var whole := buf[pos..pos + 1 + |s|];
    assert whole[0] == b && whole[1..] == s;
  }

  lemma TinyRead(buf: seq<byte>, pos: nat, n: nat)
    requires n < 24
    ensures ReadArgument(buf, pos, n) == Ok((n, pos))
  {
  }

  lemma WideRead(buf: seq<byte>, pos: nat, info: nat, n: u64)
    requires 24 <= info < 28 && Least(info) <= n < Pow256(Width(info))
    requires pos + Width(info) <= |buf| && buf[pos..pos + Width(info)] == Be(n, Width(info))
    ensures ReadArgument(buf, pos, info) == Ok((n, pos + Width(info)))
  {
    FromBeOfBe(n, Width(info));
    hide Be, FromBe, Pow256, Width, Least;
  }

  /** What a successful argument read says about the bytes before its end. */
  lemma ArgumentIsHead(buf: seq<byte>, pos: nat)
    requires pos < |buf| && ReadArgument(buf, pos + 1, buf[pos] % 32).Ok?
    ensures var (n, end) := ReadArgument(buf, pos + 1, buf[pos] % 32).value;
            At(buf, pos, Head(buf[pos] / 32, n)) && end == pos + |Head(buf[pos] / 32, n)|
  {
    hide Head, Be, FromBe;
    var (n, end) := ReadArgument(buf, pos + 1, buf[pos] % 32).value;
    var info := buf[pos] % 32;
    if info >= 24 {
      var bytes := buf[pos + 1..pos + 1 + Width(info)];
      WideHead(buf[pos] / 32, info, bytes);
      assert buf[pos..pos + 1 + Width(info)] == [buf[pos]] + bytes;
    } else {
      TinyHead(buf[pos] / 32, info);
      assert buf[pos..pos + 1] == [buf[pos]];
    }
  }

  lemma TinyHead(major: nat, n: nat)
    requires major < 8 && n < 24
    ensures Head(major, n) == [32 * major + n]
  {
  }

  /** An argument in its least width makes up the head it was read from. */
  lemma WideHead(major: nat, info: nat, bytes: seq<byte>)
    requires major < 8 && 24 <= info < 28 && |bytes| == Width(info) && FromBe(bytes) >= Least(info)
    ensures Head(major, FromBe(bytes)) == [32 * major + info] + bytes
  {
    BeOfFromBe(bytes);
    if info < 27 {
      WidthBound(info, bytes);
    }
    hide Be, FromBe, Pow256;
    var n := FromBe(bytes);
    match info {
      case 24 => assert n < 0x100;
      case 25 => assert 0x100 <= n < 0x1_0000;
      case 26 => assert 0x1_0000 <= n < 0x1_0000_0000;
      case _ => assert n >= 0x1_0000_0000;
    }
  }

  lemma WidthBound(info: nat, bytes: seq<byte>)
    requires 24 <= info < 27 && |bytes| == Width(info)
    ensures FromBe(bytes) < if info == 24 then 0x100 else if info == 25 then 0x1_0000 else 0x1_0000_0000
  {
    Pow256Values();
    hide FromBe, Pow256;
  }

  /** A string with its head is read back. */
  lemma StringIsRead(buf: seq<byte>, pos: nat, major: nat, s: seq<byte>)
    requires |buf| < U64_LIMIT
    requires major < 8 && |s| < U64_LIMIT && At(buf, pos, Head(major, |s|) + s)
    ensures pos < |buf| && buf[pos] / 32 == major
    ensures ReadString(buf, pos + 1, buf[pos] % 32) == Ok((s, pos + |Head(major, |s|) + s|))
  {
    hide Head, ReadArgument, At;
    AtAppend(buf, pos, Head(major, |s|), s);
    HeadIsRead(buf, pos, major, |s|);
    var next := pos + |Head(major, |s|)|;
    AtSlice(buf, next, s);
    SliceIsRead(buf, next, s);
  }

  lemma SliceIsRead(buf: seq<byte>, pos: nat, s: seq<byte>)
    requires |buf| < U64_LIMIT && |s| < U64_LIMIT && pos + |s| <= |buf| && buf[pos..pos + |s|] == s
    ensures ReadSlice(buf, pos, |s|) == Ok((s, pos + |s|))
  {
  }

  /** What a successful string read says about the bytes before its end. */
  lemma ReadIsString(buf: seq<byte>, pos: nat)
    requires pos < |buf| && ReadString(buf, pos + 1, buf[pos] % 32).Ok?
    ensures var (s, end) := ReadString(buf, pos + 1, buf[pos] % 32).value;
            && |s| < U64_LIMIT && At(buf, pos, Head(buf[pos] / 32, |s|) + s)
            && end == pos + |Head(buf[pos] / 32, |s|) + s|
  {
    var (s, end) := ReadString(buf, pos + 1, buf[pos] % 32).value;
    ArgumentIsHead(buf, pos);
    AtAppend(buf, pos, Head(buf[pos] / 32, |s|), s);
  }
}
