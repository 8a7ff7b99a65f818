/** The map iterator: it borrows the decoder, reads one field at a time, and gives the nesting level back. */
module MapEntriesModel {
  import opened Wrappers
  import opened Bytes
  import opened KeyedLists
  import opened Utf8
  import opened Drisl
  import opened DecodeSpec
  import opened DecoderModel

  /** The bytes at `pos` start with a whole encoded key exactly when the general read finds that key there. */
  lemma KeyHit(buf: seq<byte>, pos: nat, key: seq<byte>)
    requires |buf| < U64_LIMIT && |key| < U64_LIMIT
    ensures At(buf, pos, EncText(key)) <==> ReadKeyBytes(buf, pos, []) == Ok((key, pos + |EncText(key)|))
  {
    if At(buf, pos, EncText(key)) {
      StringIsRead(buf, pos, 3, key);
    }
    if ReadKeyBytes(buf, pos, []) == Ok((key, pos + |EncText(key)|)) {
      ReadIsString(buf, pos);
    }
  }

  /** With a previous key the general read finds the key exactly when it also comes after the previous one. */
  lemma KnownKey(buf: seq<byte>, pos: nat, prev: seq<byte>, key: seq<byte>)
    requires |buf| < U64_LIMIT && TextOk(key)
    ensures ReadKey(buf, pos, prev) == Ok((key, pos + |EncText(key)|)) <==>
            At(buf, pos, EncText(key)) && (prev == [] || Compare(prev, EncText(key)) == Less)
    ensures At(buf, pos, EncText(key)) && prev != [] && Compare(prev, EncText(key)) != Less ==>
              ReadKey(buf, pos, prev) == Err(Fail(if Compare(prev, EncText(key)) == Greater then KeyOrder else DuplicateKey))
  {
    hide EncText, ReadString, Compare, ValidUtf8;
    KeyHit(buf, pos, key);
    AtSlice(buf, pos, EncText(key));
    if ReadKey(buf, pos, prev).Ok? {
      assert ReadKeyBytes(buf, pos, []) == ReadKeyBytes(buf, pos, prev);
    }
  }

  class MapEntries {
    const decoder: Decoder
    const parentDepth: nat
    var remaining: nat
    var previous: seq<byte>

    constructor (decoder: Decoder, parentDepth: nat, remaining: nat)
      ensures this.decoder == decoder && this.parentDepth == parentDepth
      ensures this.remaining == remaining && previous == []
    {
      this.decoder := decoder;
      this.parentDepth := parentDepth;
      this.remaining := remaining;
      previous := [];
    }

    /** The iterator is between fields. */
    ghost predicate Valid()
      reads this, decoder
    {
      decoder.Valid() && |decoder.buf| < U64_LIMIT && decoder.depth == parentDepth + 1
    }

    /** What the generic decoder would read from here to the end of the map. */
    ghost function Rest(): Read<seq<Keyed<Value>>>
      requires Valid()
      reads this, decoder
    {
      DecodeEntries(decoder.buf, decoder.pos, decoder.depth, previous, remaining)
    }

    /** Nothing has been read. */
    ghost predicate Unmoved(remaining: nat, previous: seq<byte>, pos: nat, depth: nat)
      reads this, decoder
    {
      this.remaining == remaining && this.previous == previous && decoder.pos == pos && decoder.depth == depth
    }

    /** `next`: a key, then its value. After an error, and at the end, there is nothing more. */
    method Next() returns (r: Option<Result<Keyed<Value>, CborError>>)
      requires remaining > 0 ==> Valid()
      modifies this, decoder
      ensures old(remaining) == 0 <==> r.None?
      ensures r.None? ==> Unmoved(old(remaining), old(previous), old(decoder.pos), old(decoder.depth))
      ensures r.Some? && r.value.Ok? ==>
                && Valid() && remaining == old(remaining) - 1
                && old(Rest()) == Prepend([r.value.value], Rest())
      ensures r.Some? && r.value.Err? ==> remaining == 0 && old(Rest()) == Err(r.value.error)
    {
      hide DecodeValue, ReadKey;
      if remaining == 0 {
        return None;
      }
      PrependNothing(Rest());
      EntriesRow(decoder.buf, decoder.pos, decoder.pos, decoder.depth, previous, remaining, [], previous, remaining);
      remaining := remaining - 1;
      var start := decoder.pos;
      var key := decoder.NextKey(previous);
      if key.Err? {
        remaining := 0;
        return Some(Err(key.error));
      }
      previous := decoder.buf[start..decoder.pos];
      var v := decoder.Decode();
      if v.Err? {
        remaining := 0;
        return Some(Err(v.error));
      }
      assert [] + [Keyed(key.value, v.value)] == [Keyed(key.value, v.value)];
      return Some(Ok(Keyed(key.value, v.value)));
    }

    /**
     `try_field` with a callback that decodes one value: a hit reads exactly what the general path reads, a miss changes
     nothing and means the next key is another one.
     */
    method TryField(encoded: seq<byte>, ghost key: seq<byte>) returns (r: Result<Option<Value>, CborError>)
      requires remaining > 0 ==> Valid()
      requires TextOk(key) && encoded == EncText(key)
      modifies this, decoder
      ensures r.Ok? && r.value.None? ==>
                && Unmoved(old(remaining), old(previous), old(decoder.pos), old(decoder.depth))
                && (remaining == 0 || ReadKeyBytes(decoder.buf, decoder.pos, []) != Ok((key, decoder.pos + |encoded|)))
      ensures r.Ok? && r.value.Some? ==>
                && Valid() && old(remaining) > 0 && remaining == old(remaining) - 1
                && old(Rest()) == Prepend([Keyed(key, r.value.value)], Rest())
      ensures r.Err? ==>
                && old(remaining) > 0 && old(Rest()).Err?
                && match ReadKey(decoder.buf, old(decoder.pos), old(previous))
                   case Err(e) => r.error == Fail(DuplicateOrUnorderedKey) && (e == Fail(KeyOrder) || e == Fail(DuplicateKey))
                   case Ok(_) => old(Rest()) == Err(r.error) && remaining == 0
    {
      hide DecodeValue, ReadKey, ReadKeyBytes, EncText, Compare, At;
      if remaining == 0 {
        return Ok(None);
      }
      AtSlice(decoder.buf, decoder.pos, encoded);
      KeyHit(decoder.buf, decoder.pos, key);
      if !At(decoder.buf, decoder.pos, encoded) {
        return Ok(None);
      }
      KnownKey(decoder.buf, decoder.pos, previous, key);
      PrependNothing(Rest());
      EntriesRow(decoder.buf, decoder.pos, decoder.pos, decoder.depth, previous, remaining, [], previous, remaining);
      if previous != [] && Compare(previous, encoded) != Less {
        return Err(Fail(DuplicateOrUnorderedKey));
      }
      remaining := remaining - 1;
      decoder.pos := decoder.pos + |encoded|;
      previous := encoded;
      var v := decoder.Decode();
      if v.Err? {
        remaining := 0;
        return Err(v.error);
      }
      assert [] + [Keyed(key, v.value)] == [Keyed(key, v.value)];
      return Ok(Some(v.value));
    }

    /**
     `next_raw` with a callback that decodes one value: the key is handed out before it is known to be UTF-8. With that
     check left to the caller, key and value are what the general path reads.
     */
    method NextRaw() returns (r: Option<Result<Keyed<Value>, CborError>>)
      requires remaining > 0 ==> Valid()
      modifies this, decoder
      ensures old(remaining) == 0 <==> r.None?
      ensures r.None? ==> Unmoved(old(remaining), old(previous), old(decoder.pos), old(decoder.depth))
      ensures r.Some? && r.value.Ok? ==>
                && Valid() && remaining == old(remaining) - 1
                && old(Rest()) == if ValidUtf8(r.value.value.key) then Prepend([r.value.value], Rest()) else Err(Fail(InvalidUtf8))
      ensures r.Some? && r.value.Err? ==>
                && remaining == 0 && old(Rest()).Err?
                && (old(Rest()) == Err(r.value.error)
                    || (old(Rest()) == Err(Fail(InvalidUtf8))
                        && ReadKey(decoder.buf, old(decoder.pos), old(previous)) == Err(Fail(InvalidUtf8))))
    {
      hide DecodeValue, ReadKeyBytes, ValidUtf8;
      if remaining == 0 {
        return None;
      }
      PrependNothing(Rest());
      EntriesRow(decoder.buf, decoder.pos, decoder.pos, decoder.depth, previous, remaining, [], previous, remaining);
      remaining := remaining - 1;
      var start := decoder.pos;
      var key := decoder.NextKeyBytes(previous);
      if key.Err? {
        remaining := 0;
        return Some(Err(key.error));
      }
      previous := decoder.buf[start..decoder.pos];
      var v := decoder.Decode();
      if v.Err? {
        remaining := 0;
        return Some(Err(v.error));
      }
      assert [] + [Keyed(key.value, v.value)] == [Keyed(key.value, v.value)];
      return Some(Ok(Keyed(key.value, v.value)));
    }

    /** `Drop`: whatever happened, the decoder gets its parent's nesting level back. */
    method Drop()
      modifies decoder`depth
      ensures decoder.depth == parentDepth
    {
      decoder.depth := parentDepth;
    }
  }

  /** `map_entries`. */
  method NewMapEntries(decoder: Decoder) returns (r: Result<MapEntries, CborError>)
    requires decoder.Valid() && |decoder.buf| < U64_LIMIT
    modifies decoder
    ensures r.Err? ==> decoder.depth == old(decoder.depth)
    ensures r.Err? ==>
              || DecodeValue(decoder.buf, old(decoder.pos), old(decoder.depth)) == Err(r.error)
              || (&& r.error == Fail(ExpectedMap)
                  && forall m, e :: DecodeValue(decoder.buf, old(decoder.pos), old(decoder.depth)) != Ok((Map(m), e)))
    ensures r.Ok? ==>
              && fresh(r.value) && r.value.decoder == decoder && r.value.Valid() && r.value.parentDepth == old(decoder.depth)
              && DecodeValue(decoder.buf, old(decoder.pos), old(decoder.depth)) == AsMap(r.value.Rest())
  {
    hide ReadArgument, DecodeEntries, DecodeItems, ReadScalar;
    if decoder.depth >= MAX_DEPTH {
      return Err(Fail(TooDeep));
    }
    var b := decoder.NextByte();
    if b.Err? {
      return Err(b.error);
    }
    if b.value / 32 != 5 {
      if b.value / 32 != 4 {
        NotAMap(decoder.buf, decoder.pos, b.value / 32, b.value % 32);
      }
      return Err(Fail(ExpectedMap));
    }
    var len := decoder.NextArgument(b.value % 32);
    if len.Err? {
      return Err(len.error);
    }
    if len.value > MAX_COLLECTION_LEN {
      return Err(Fail(MapTooLong));
    }
    var parentDepth := decoder.depth;
    decoder.depth := decoder.depth + 1;
    var entries := new MapEntries(decoder, parentDepth, len.value);
    return Ok(entries);
  }

  lemma NotAMap(buf: seq<byte>, pos: nat, major: nat, info: nat)
    requires major < 8 && major != 4 && major != 5 && info < 32
    ensures ReadScalar(buf, pos, major, info).Ok? ==> !ReadScalar(buf, pos, major, info).value.0.Map?
  {
  }

  /**
   Collecting the iterator gives the entries `decode` gives for a map, or fails when it fails or is no map. Afterwards
   the decoder stands where `decode` would leave it and, in every case, at its old nesting level.
   */
  method CollectMap(decoder: Decoder) returns (r: Result<seq<Keyed<Value>>, CborError>)
    requires decoder.Valid() && |decoder.buf| < U64_LIMIT
    modifies decoder
    ensures decoder.depth == old(decoder.depth)
    ensures forall m, e :: DecodeValue(decoder.buf, old(decoder.pos), decoder.depth) == Ok((Map(m), e)) ==>
              r == Ok(m) && decoder.pos == e
    ensures r.Ok? ==> DecodeValue(decoder.buf, old(decoder.pos), decoder.depth) == Ok((Map(r.value), decoder.pos))
    ensures r.Err? ==>
              DecodeValue(decoder.buf, old(decoder.pos), decoder.depth) == Err(r.error) || r.error == Fail(ExpectedMap)
  {
    hide DecodeValue, DecodeEntries;
    var start := NewMapEntries(decoder);
    if start.Err? {
      return Err(start.error);
    }
    var it := start.value;
    ghost var whole := it.Rest();
    var entries: seq<Keyed<Value>> := [];
    PrependNothing(whole);
    while it.remaining > 0
      invariant it.Valid() && it.decoder == decoder && it.parentDepth == old(decoder.depth)
      invariant whole == Prepend(entries, it.Rest())
      decreases it.remaining
    {
      ghost var before := it.Rest();
      var item := it.Next();
      if item.value.Err? {
        it.Drop();
        return Err(item.value.error);
      }
      PrependTwice(entries, item.value.value, it.Rest());
      entries := entries + [item.value.value];
    }
    NothingLeft(decoder.buf, decoder.pos, decoder.depth, it.previous);
    assert entries + [] == entries;
    it.Drop();
    return Ok(entries);
  }

  lemma PrependTwice(done: seq<Keyed<Value>>, x: Keyed<Value>, rest: Read<seq<Keyed<Value>>>)
    ensures Prepend(done, Prepend([x], rest)) == Prepend(done + [x], rest)
  {
    if rest.Ok? {
      assert done + ([x] + rest.value.0) == done + [x] + rest.value.0;
    }
  }

  lemma NothingLeft(buf: seq<byte>, pos: nat, depth: nat, prev: seq<byte>)
    requires depth <= MAX_DEPTH
    ensures DecodeEntries(buf, pos, depth, prev, 0) == Ok(([], pos))
  {
  }
}
