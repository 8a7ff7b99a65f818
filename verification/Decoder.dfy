/** The strict decoder: an object that moves through a buffer, with its generic, arena ("bump") and shallow reads. */
module DecoderModel {
  import opened Wrappers
  import opened Bytes
  import opened KeyedLists
  import opened Utf8
  import opened Cids
  import opened Drisl
  import opened DecodeSpec
  import opened Canonicity

  /** `r`, leaving the decoder at `end`, is what the specification says of a successful or a failed read. */
  ghost predicate Agrees<T>(spec: Read<T>, r: Result<T, CborError>, end: nat) {
    match spec
    case Ok((v, e)) => r == Ok(v) && end == e
    case Err(e) => r == Err(e)
  }

  /** The outcome of a row of reads of which the first ones gave `done`. */
  function Prepend<T>(done: seq<T>, rest: Read<seq<T>>): Read<seq<T>> {
    match rest
    case Ok((s, end)) => Ok((done + s, end))
    case Err(e) => Err(e)
  }

  lemma PrependNothing<T>(r: Read<seq<T>>)
    ensures Prepend([], r) == r
  {
    if r.Ok? {
      assert [] + r.value.0 == r.value.0;
    }
  }

  function AsArray(r: Read<seq<Value>>): Read<Value> {
    match r
    case Ok((items, end)) => Ok((Array(items), end))
    case Err(e) => Err(e)
  }

  function AsMap(r: Read<seq<Keyed<Value>>>): Read<Value> {
    match r
    case Ok((entries, end)) => Ok((Map(entries), end))
    case Err(e) => Err(e)
  }

  /** One more value read from a row of them. */
  lemma ItemsRow(buf: seq<byte>, start: nat, pos: nat, depth: nat, len: nat, done: seq<Value>, left: nat)
    requires depth <= MAX_DEPTH && 0 < left
    requires DecodeItems(buf, start, depth, len) == Prepend(done, DecodeItems(buf, pos, depth, left))
    ensures match DecodeValue(buf, pos, depth)
            case Ok((v, next)) =>
              DecodeItems(buf, start, depth, len) == Prepend(done + [v], DecodeItems(buf, next, depth, left - 1))
            case Err(e) => DecodeItems(buf, start, depth, len) == Err(e)
  {
    hide DecodeValue;
    match DecodeValue(buf, pos, depth) {
      case Ok((v, next)) =>
        match DecodeItems(buf, next, depth, left - 1) {
          case Ok((rest, end)) => assert done + ([v] + rest) == done + [v] + rest;
          case Err(e) =>
        }
      case Err(e) =>
    }
  }

  lemma NoEntriesLeft(buf: seq<byte>, pos: nat, depth: nat, prev: seq<byte>, entries: seq<Keyed<Value>>)
    requires depth <= MAX_DEPTH
    ensures Prepend(entries, DecodeEntries(buf, pos, depth, prev, 0)) == Ok((entries, pos))
  {
    assert entries + [] == entries;
  }

  /** One more entry read from a row of them. */
  lemma EntriesRow(buf: seq<byte>, start: nat, pos: nat, depth: nat, first: seq<byte>, len: nat,
      done: seq<Keyed<Value>>, prev: seq<byte>, left: nat)
    requires depth <= MAX_DEPTH && 0 < left
    requires DecodeEntries(buf, start, depth, first, len) == Prepend(done, DecodeEntries(buf, pos, depth, prev, left))
    ensures match ReadKey(buf, pos, prev)
            case Ok((key, mid)) => (
              match DecodeValue(buf, mid, depth)
              case Ok((v, next)) =>
                DecodeEntries(buf, start, depth, first, len)
                == Prepend(done + [Keyed(key, v)], DecodeEntries(buf, next, depth, buf[pos..mid], left - 1))
              case Err(e) => DecodeEntries(buf, start, depth, first, len) == Err(e))
            case Err(e) => DecodeEntries(buf, start, depth, first, len) == Err(e)
  {
    hide DecodeValue, ReadKey;
    match ReadKey(buf, pos, prev) {
      case Ok((key, mid)) =>
        match DecodeValue(buf, mid, depth) {
          case Ok((v, next)) =>
            match DecodeEntries(buf, next, depth, buf[pos..mid], left - 1) {
              case Ok((rest, end)) => assert done + ([Keyed(key, v)] + rest) == done + [Keyed(key, v)] + rest;
              case Err(e) =>
            }
          case Err(e) =>
        }
      case Err(e) =>
    }
  }

  /** Every item takes at least one byte, every entry at least two. */
  lemma {:induction false} ItemsTakeBytes(buf: seq<byte>, pos: nat, depth: nat, count: nat)
    requires depth <= MAX_DEPTH && pos <= |buf| && DecodeItems(buf, pos, depth, count).Ok?
    ensures pos + count <= DecodeItems(buf, pos, depth, count).value.1 <= |buf|
    decreases count
  {
    hide DecodeValue;
    if count > 0 {
      ItemsTakeBytes(buf, DecodeValue(buf, pos, depth).value.1, depth, count - 1);
    }
  }

  lemma {:induction false} EntriesTakeBytes(buf: seq<byte>, pos: nat, depth: nat, prev: seq<byte>, count: nat)
    requires depth <= MAX_DEPTH && pos <= |buf| && DecodeEntries(buf, pos, depth, prev, count).Ok?
    ensures pos + 2 * count <= DecodeEntries(buf, pos, depth, prev, count).value.1 <= |buf|
    decreases count
  {
    hide DecodeValue, ReadKey;
    if count > 0 {
      var mid := ReadKey(buf, pos, prev).value.1;
      EntriesTakeBytes(buf, DecodeValue(buf, mid, depth).value.1, depth, buf[pos..mid], count - 1);
    }
  }

  /** How a failure of the arena decoder may differ from the generic decoder's. */
  predicate SameFailure(arena: CborError, generic: CborError) {
    || arena == generic
    || arena == InvalidCbor(ArrayPastEnd) || arena == InvalidCbor(MapPastEnd)
    || (arena == InvalidCbor(InvalidUtf8) && (generic == InvalidCbor(KeyOrder) || generic == InvalidCbor(DuplicateKey)))
  }

  /** The arena decoder accepts what the generic one does, with the same value and end. */
  ghost predicate ArenaAgrees<T>(spec: Read<T>, r: Result<T, CborError>, end: nat) {
    match spec
    case Ok((v, e)) => r == Ok(v) && end == e
    case Err(e) => r.Err? && SameFailure(r.error, e)
  }

  datatype Shallow = ShallowText(text: seq<byte>) | ShallowArray(len: nat) | ShallowMap(len: nat) | Scalar(value: Value)

  /** What a shallow read says about the full read of the value it begins. */
  ghost predicate Begins(buf: seq<byte>, start: nat, level: nat, r: Result<Shallow, CborError>, pos: nat, depth: nat)
    requires level <= MAX_DEPTH
  {
    match r
    case Err(e) => DecodeValue(buf, start, level) == Err(e)
    case Ok(ShallowText(s)) => DecodeValue(buf, start, level) == Ok((Text(s), pos)) && depth == level
    case Ok(Scalar(v)) => IsScalar(v) && DecodeValue(buf, start, level) == Ok((v, pos)) && depth == level
    case Ok(ShallowArray(len)) =>
      && depth == level + 1 <= MAX_DEPTH && len <= MAX_COLLECTION_LEN
      && DecodeValue(buf, start, level) == AsArray(DecodeItems(buf, pos, depth, len))
    case Ok(ShallowMap(len)) =>
      && depth == level + 1 <= MAX_DEPTH && len <= MAX_COLLECTION_LEN
      && DecodeValue(buf, start, level) == AsMap(DecodeEntries(buf, pos, depth, [], len))
  }

  class Decoder {
    const buf: seq<byte>
    var pos: nat
    var depth: nat

    ghost predicate Valid()
      reads this
    {
      pos <= |buf| && depth <= MAX_DEPTH
    }

    constructor (buf: seq<byte>)
      ensures this.buf == buf && pos == 0 && depth == 0
    {
      this.buf := buf;
      pos := 0;
      depth := 0;
    }

    predicate IsEmpty()
      reads this
    {
      pos >= |buf|
    }

    method NextByte() returns (r: Result<byte, CborError>)
      requires Valid()
      modifies this`pos
      ensures Valid() && old(pos) <= pos
      ensures Agrees(ReadByte(buf, old(pos)), r, pos)
    {
      if pos >= |buf| {
        return Err(Fail(UnexpectedEnd));
      }
      r := Ok(buf[pos]);
      pos := pos + 1;
    }

    method NextFixed(n: nat) returns (r: Result<seq<byte>, CborError>)
      requires Valid()
      modifies this`pos
      ensures Valid() && old(pos) <= pos
      ensures Agrees(ReadFixed(buf, old(pos), n), r, pos)
    {
      if pos + n > |buf| {
        return Err(Fail(UnexpectedEnd));
      }
      r := Ok(buf[pos..pos + n]);
      pos := pos + n;
    }

    method NextSlice(n: u64) returns (r: Result<seq<byte>, CborError>)
      requires Valid()
      modifies this`pos
      ensures Valid() && old(pos) <= pos
      ensures Agrees(ReadSlice(buf, old(pos), n), r, pos)
    {
      if pos + n >= U64_LIMIT {
        return Err(Fail(LengthOverflow));
      }
      r := NextFixed(n);
    }

    method NextArgument(info: nat) returns (r: Result<u64, CborError>)
      requires Valid() && info < 32
      modifies this`pos
      ensures Valid() && old(pos) <= pos
      ensures Agrees(ReadArgument(buf, old(pos), info), r, pos)
    {
      if info < 24 {
        return Ok(info);
      } else if info < 28 {
        var bytes := NextFixed(Width(info));
        if bytes.Err? {
          return Err(bytes.error);
        }
        Pow256Values();
        var n := FromBe(bytes.value);
        if n < Least(info) {
          return Err(Fail(NonMinimal(n, Width(info))));
        }
        return Ok(n);
      } else if info < 31 {
        return Err(Fail(ReservedInfo(info)));
      }
      return Err(Fail(IndefiniteLength));
    }

    method NextString(info: nat) returns (r: Result<seq<byte>, CborError>)
      requires Valid() && info < 32
      modifies this`pos
      ensures Valid() && old(pos) <= pos
      ensures Agrees(ReadString(buf, old(pos), info), r, pos)
    {
      hide ReadArgument, ReadSlice;
      var n := NextArgument(info);
      if n.Err? {
        return Err(n.error);
      }
      r := NextSlice(n.value);
    }

    method NextLength(info: nat, tooLong: CborReason) returns (r: Result<nat, CborError>)
      requires Valid() && info < 32
      modifies this`pos
      ensures Valid() && old(pos) <= pos
      ensures Agrees(CollectionLength(buf, old(pos), info, tooLong), r, pos)
    {
      hide ReadArgument;
      var n := NextArgument(info);
      if n.Err? {
        return Err(n.error);
      }
      if n.value > MAX_COLLECTION_LEN {
        return Err(Fail(tooLong));
      }
      return Ok(n.value);
    }

    method NextTag42Body() returns (r: Result<Cid, CborError>)
      requires Valid()
      modifies this`pos
      ensures Valid() && old(pos) <= pos
      ensures Agrees(ReadTag42Body(buf, old(pos)), r, pos)
    {
      hide ReadString;
      var inner :- NextByte();
      if inner / 32 != 2 {
        return Err(Fail(TagNotBytes));
      }
      var body :- NextString(inner % 32);
      match FromTag42(body) {
        case Ok(c) => r := Ok(c);
        case Err(e) => r := Err(InvalidCid(e));
      }
    }

    /** A value other than an array or a map, after its initial byte. */
    method NextScalar(major: nat, info: nat) returns (r: Result<Value, CborError>)
      requires Valid() && major < 8 && major != 4 && major != 5 && info < 32
      modifies this`pos
      ensures Valid() && old(pos) <= pos
      ensures Agrees(ReadScalar(buf, old(pos), major, info), r, pos)
    {
      hide ReadArgument, ReadString, ReadTag42Body;
      match major {
        case 0 =>
          var n :- NextArgument(info);
          r := if n > I64_MAX then Err(Fail(UnsignedOutOfRange)) else Ok(Unsigned(n));
        case 1 =>
          var n :- NextArgument(info);
          r := if n > I64_MAX then Err(Fail(NegativeOutOfRange)) else Ok(Signed(-1 - n));
        case 2 =>
          var s :- NextString(info);
          r := Ok(Bytes(s));
        case 3 =>
          var s :- NextString(info);
          r := if ValidUtf8(s) then Ok(Text(s)) else Err(Fail(InvalidUtf8));
        case 6 =>
          var tag :- NextArgument(info);
          if tag != 42 {
            return Err(Fail(UnsupportedTag(tag)));
          }
          var c :- NextTag42Body();
          r := Ok(Link(c));
        case _ =>
          r := NextSimple(info);
      }
    }

    method NextSimple(info: nat) returns (r: Result<Value, CborError>)
      requires Valid() && info < 32
      modifies this`pos
      ensures Valid() && old(pos) <= pos
      ensures Agrees(ReadSimple(buf, old(pos), info), r, pos)
    {
      if info == 20 || info == 21 {
        return Ok(Bool(info == 21));
      } else if info == 22 {
        return Ok(Null);
      } else if info == 24 {
        return Err(Fail(UnsupportedSimple));
      } else if info == 25 {
        return Err(Fail(HalfFloat));
      } else if info == 26 {
        return Err(Fail(SingleFloat));
      } else if info == 27 {
        var bytes :- NextFixed(8);
        Pow256Values();
        var bits := FromBe(bytes);
        r := if NotANumberBits(bits) then Err(Fail(NotANumber))
             else if !Finite(bits) then Err(Fail(InfiniteNumber))
             else Ok(Float(bits));
      } else if info == 31 {
        return Err(Fail(IndefiniteLength));
      } else {
        return Err(Fail(UnsupportedSimpleValue(info)));
      }
    }

    /** `read_map_key_bytes`; the caller keeps the encoding of the key as the next `prev`. */
    method NextKeyBytes(prev: seq<byte>) returns (r: Result<seq<byte>, CborError>)
      requires Valid()
      modifies this`pos
      ensures Valid() && old(pos) <= pos
      ensures Agrees(ReadKeyBytes(buf, old(pos), prev), r, pos)
    {
      hide ReadString, Compare;
      var start := pos;
      var b :- NextByte();
      if b / 32 != 3 {
        return Err(Fail(KeyNotText));
      }
      var key :- NextString(b % 32);
      if prev != [] {
        match Compare(prev, buf[start..pos]) {
          case Greater => return Err(Fail(KeyOrder));
          case Equal => return Err(Fail(DuplicateKey));
          case Less =>
        }
      }
      return Ok(key);
    }

    /** `read_map_key` and, with the quick test for ASCII in front, `read_map_key_utf8`. */
    method NextKey(prev: seq<byte>) returns (r: Result<seq<byte>, CborError>)
      requires Valid()
      modifies this`pos
      ensures Valid() && old(pos) <= pos
      ensures Agrees(ReadKey(buf, old(pos), prev), r, pos)
    {
      hide ReadKeyBytes, ValidUtf8;
      var key :- NextKeyBytes(prev);
      if IsAscii(key) {
        AsciiIsUtf8(key);
        return Ok(key);
      }
      r := if ValidUtf8(key) then Ok(key) else Err(Fail(InvalidUtf8));
    }

    // ---------- The generic decoder ----------

    /** `decode`. On success the nesting level is what it was. */
    method Decode() returns (r: Result<Value, CborError>)
      requires Valid()
      modifies this
      ensures Valid() && old(pos) <= pos && old(depth) <= depth
      ensures Agrees(DecodeValue(buf, old(pos), old(depth)), r, pos)
      ensures r.Ok? ==> depth == old(depth)
      decreases MAX_DEPTH - depth, 0
    {
      hide CollectionLength, DecodeItems, DecodeEntries, ReadScalar;
      if depth >= MAX_DEPTH {
        return Err(Fail(TooDeep));
      }
      var b :- NextByte();
      if b / 32 == 4 {
        var len :- NextLength(b % 32, ArrayTooLong);
        depth := depth + 1;
        var items :- DecodeArray(len);
        depth := depth - 1;
        return Ok(Array(items));
      } else if b / 32 == 5 {
        depth := depth + 1;
        var len :- NextLength(b % 32, MapTooLong);
        var entries :- DecodeMap(len);
        depth := depth - 1;
        return Ok(Map(entries));
      }
      r := NextScalar(b / 32, b % 32);
    }

    method DecodeArray(len: nat) returns (r: Result<seq<Value>, CborError>)
      requires Valid()
      modifies this
      ensures Valid() && old(pos) <= pos && old(depth) <= depth
      ensures Agrees(DecodeItems(buf, old(pos), old(depth), len), r, pos)
      ensures r.Ok? ==> depth == old(depth)
      decreases MAX_DEPTH - depth, 1
    {
      hide DecodeValue;
      var items: seq<Value> := [];
      PrependNothing(DecodeItems(buf, pos, depth, len));
      var i := 0;
      while i < len
        invariant i <= len && Valid() && depth == old(depth) && old(pos) <= pos
        invariant DecodeItems(buf, old(pos), depth, len) == Prepend(items, DecodeItems(buf, pos, depth, len - i))
      {
        ItemsRow(buf, old(pos), pos, depth, len, items, len - i);
        var v :- Decode();
        items := items + [v];
        i := i + 1;
      }
      assert items + [] == items;
      return Ok(items);
    }

    method DecodeMap(len: nat) returns (r: Result<seq<Keyed<Value>>, CborError>)
      requires Valid()
      modifies this
      ensures Valid() && old(pos) <= pos && old(depth) <= depth
      ensures Agrees(DecodeEntries(buf, old(pos), old(depth), [], len), r, pos)
      ensures r.Ok? ==> depth == old(depth)
      decreases MAX_DEPTH - depth, 1
    {
      hide DecodeValue, ReadKey;
      var entries: seq<Keyed<Value>> := [];
      var prev: seq<byte> := [];
      PrependNothing(DecodeEntries(buf, pos, depth, prev, len));
      var i := 0;
      while i < len
        invariant i <= len && Valid() && depth == old(depth) && old(pos) <= pos
        invariant DecodeEntries(buf, old(pos), depth, [], len)
                  == Prepend(entries, DecodeEntries(buf, pos, depth, prev, len - i))
      {
        EntriesRow(buf, old(pos), pos, depth, [], len, entries, prev, len - i);
        var start := pos;
        var key :- NextKey(prev);
        prev := buf[start..pos];
        var v :- Decode();
        entries := entries + [Keyed(key, v)];
        i := i + 1;
      }
      assert entries + [] == entries;
      return Ok(entries);
    }

    // ---------- The shallow read ----------

    /** `decode_shallow`: an array or map yields its length and enters its nesting level. */
    method DecodeShallow() returns (r: Result<Shallow, CborError>)
      requires Valid()
      modifies this
      ensures Valid() && old(pos) <= pos
      ensures Begins(buf, old(pos), old(depth), r, pos, depth)
      ensures r.Ok? ==> old(pos) < pos
    {
      hide CollectionLength, DecodeItems, DecodeEntries, ReadString, ValidUtf8;
      if pos < |buf| && 0x60 <= buf[pos] <= 0xbf && depth < MAX_DEPTH {
        var b := buf[pos];
        pos := pos + 1;
        if b / 32 == 3 {
          var s :- NextString(b % 32);
          if IsAscii(s) {
            AsciiIsUtf8(s);
            return Ok(ShallowText(s));
          }
          r := if ValidUtf8(s) then Ok(ShallowText(s)) else Err(Fail(InvalidUtf8));
        } else if b / 32 == 4 {
          var len :- NextLength(b % 32, ArrayTooLong);
          depth := depth + 1;
          r := Ok(ShallowArray(len));
        } else {
          var len :- NextLength(b % 32, MapTooLong);
          depth := depth + 1;
          r := Ok(ShallowMap(len));
        }
      } else {
        var v :- Decode();
        r := Ok(Scalar(v));
      }
    }

    /** `leave`. */
    method Leave()
      requires depth > 0
      modifies this`depth
      ensures depth == old(depth) - 1
    {
      depth := depth - 1;
    }

    // ---------- The arena decoder ----------

    /**
     `decode_bump_inner`: the level is a parameter, lengths beyond the remaining input are refused at once, and items
     are written over the placeholders of a slice allocated for all of them.
     */
    method DecodeBump(level: nat) returns (r: Result<Value, CborError>)
      requires Valid() && level <= MAX_DEPTH
      modifies this`pos
      ensures Valid() && old(pos) <= pos
      ensures ArenaAgrees(DecodeValue(buf, old(pos), level), r, pos)
      decreases MAX_DEPTH - level, 0
    {
      hide CollectionLength, DecodeItems, DecodeEntries, ReadScalar;
      if level >= MAX_DEPTH {
        return Err(Fail(TooDeep));
      }
      var b :- NextByte();
      if b / 32 == 4 {
        var len :- NextLength(b % 32, ArrayTooLong);
        if len > |buf| - pos {
          if DecodeItems(buf, pos, level + 1, len).Ok? {
            ItemsTakeBytes(buf, pos, level + 1, len);
          }
          return Err(Fail(ArrayPastEnd));
        }
        var items :- BumpArray(level + 1, len);
        return Ok(Array(items));
      } else if b / 32 == 5 {
        var len :- NextLength(b % 32, MapTooLong);
        if len > |buf| - pos {
          if DecodeEntries(buf, pos, level + 1, [], len).Ok? {
            EntriesTakeBytes(buf, pos, level + 1, [], len);
          }
          return Err(Fail(MapPastEnd));
        }
        var entries :- BumpMap(level + 1, len);
        return Ok(Map(entries));
      }
      r := NextScalar(b / 32, b % 32);
    }

    method BumpArray(level: nat, len: nat) returns (r: Result<seq<Value>, CborError>)
      requires Valid() && level <= MAX_DEPTH
      modifies this`pos
      ensures Valid() && old(pos) <= pos
      ensures ArenaAgrees(DecodeItems(buf, old(pos), level, len), r, pos)
      decreases MAX_DEPTH - level, 1
    {
      hide DecodeValue;
      var items := new Value[len](_ => Null);
      PrependNothing(DecodeItems(buf, pos, level, len));
      assert items[..0] == [];
      var i := 0;
      while i < len
        invariant i <= len && Valid() && old(pos) <= pos
        invariant DecodeItems(buf, old(pos), level, len) == Prepend(items[..i], DecodeItems(buf, pos, level, len - i))
      {
        ItemsRow(buf, old(pos), pos, level, len, items[..i], len - i);
        var v :- DecodeBump(level);
        items[i] := v;
        assert items[..i + 1] == items[..i] + [v];
        i := i + 1;
      }
      assert items[..len] + [] == items[..];
      return Ok(items[..]);
    }

    method BumpMap(level: nat, len: nat) returns (r: Result<seq<Keyed<Value>>, CborError>)
      requires Valid() && level <= MAX_DEPTH
      modifies this`pos
      ensures Valid() && old(pos) <= pos
      ensures ArenaAgrees(DecodeEntries(buf, old(pos), level, [], len), r, pos)
      decreases MAX_DEPTH - level, 1
    {
      hide DecodeValue, DecodeEntries, ReadKey;
      var entries := new Keyed<Value>[len](_ => Keyed([], Null));
      var prev: seq<byte> := [];
      PrependNothing(DecodeEntries(buf, pos, level, prev, len));
      assert entries[..0] == [];
      var i := 0;
      while i < len
        invariant i <= len && Valid() && old(pos) <= pos
        invariant DecodeEntries(buf, old(pos), level, [], len)
                  == Prepend(entries[..i], DecodeEntries(buf, pos, level, prev, len - i))
      {
        EntriesRow(buf, old(pos), pos, level, [], len, entries[..i], prev, len - i);
        var start := pos;
        var key :- BumpKey(prev);
        prev := buf[start..pos];
        var v :- DecodeBump(level);
        entries[i] := Keyed(key, v);
        assert entries[..i + 1] == entries[..i] + [Keyed(key, v)];
        i := i + 1;
      }
      NoEntriesLeft(buf, pos, level, prev, entries[..len]);
      assert entries[..len] == entries[..];
      return Ok(entries[..]);
    }

    /** The arena decoder's key: UTF-8 is checked before the order. */
    method BumpKey(prev: seq<byte>) returns (r: Result<seq<byte>, CborError>)
      requires Valid()
      modifies this`pos
      ensures Valid() && old(pos) <= pos
      ensures ArenaAgrees(ReadKey(buf, old(pos), prev), r, pos)
    {
      hide ReadString, Compare, ValidUtf8;
      var start := pos;
      var b :- NextByte();
      if b / 32 != 3 {
        return Err(Fail(KeyNotText));
      }
      var key :- NextString(b % 32);
      if !ValidUtf8(key) {
        return Err(Fail(InvalidUtf8));
      }
      if prev != [] {
        match Compare(prev, buf[start..pos]) {
          case Greater => return Err(Fail(KeyOrder));
          case Equal => return Err(Fail(DuplicateKey));
          case Less =>
        }
      }
      return Ok(key);
    }
  }

  /** The top-level `decode`. */
  method DecodeAll(data: seq<byte>) returns (r: Result<Value, CborError>)
    ensures r == DecodeSpec.Decode(data)
  {
    hide DecodeValue;
    var d := new Decoder(data);
    var v :- d.Decode();
    r := if !d.IsEmpty() then Err(Fail(TrailingData)) else Ok(v);
  }

  /** From a fresh decoder the arena decoder accepts the same input, with the same value and end, as the generic one. */
  method DecodeBoth(data: seq<byte>) returns (generic: Result<Value, CborError>, arena: Result<Value, CborError>, ends: (nat, nat))
    ensures generic.Ok? <==> arena.Ok?
    ensures generic.Ok? ==> generic == arena && ends.0 == ends.1
    ensures generic.Err? ==> SameFailure(arena.error, generic.error)
  {
    hide DecodeValue;
    var d := new Decoder(data);
    generic := d.Decode();
    var e := new Decoder(data);
    arena := e.DecodeBump(0);
    ends := (d.pos, e.pos);
  }
}
