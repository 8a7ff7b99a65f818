/**
 The decoder accepts exactly the canonical encodings: `DecodeValue` reads `v` from a position if and only if `v` is
 canonical and its encoding stands there. Canonicity, injectivity and the round trip follow.
 */
module Canonicity {
  import opened Wrappers
  import opened Bytes
  import opened KeyedLists
  import opened Cids
  import opened Drisl
  import opened DecodeSpec

  // ---------- What is read is canonical ----------

  lemma LinkSound(buf: seq<byte>, pos: nat)
    requires pos < |buf| && buf[pos] / 32 == 6 && ReadScalar(buf, pos + 1, 6, buf[pos] % 32).Ok?
    ensures var (v, end) := ReadScalar(buf, pos + 1, 6, buf[pos] % 32).value;
            At(buf, pos, Enc(v)) && end == pos + |Enc(v)|
  {
    hide At, ReadArgument, FromBytes, ReadString;
    ArgumentIsHead(buf, pos);
    var next := ReadArgument(buf, pos + 1, buf[pos] % 32).value.1;
    assert Head(6, 42) == [0xd8] + Be(42, 1) == [0xd8, 0x2a];
    assert next == pos + 2;
    ReadIsString(buf, next);
    var (body, end) := ReadString(buf, next + 1, buf[next] % 32).value;
    var c := FromTag42(body).value;
    Tag42Bytes(body, c);
    assert Head(2, 37) == [0x58] + Be(37, 1) == [0x58, 0x25];
    AtAppend(buf, pos, [0xd8, 0x2a], [0x58, 0x25] + body);
    assert EncLink(c) == [0xd8, 0x2a] + ([0x58, 0x25] + body);
  }

  lemma FloatSound(buf: seq<byte>, pos: nat)
    requires pos < |buf| && buf[pos] == 0xfb && ReadFloat(buf, pos + 1).Ok?
    ensures var (bits, end) := ReadFloat(buf, pos + 1).value;
            Finite(bits) && At(buf, pos, Enc(Float(bits))) && end == pos + |Enc(Float(bits))|
  {
    var bytes := buf[pos + 1..pos + 9];
    BeOfFromBe(bytes);
    assert buf[pos..pos + 9] == [0xfb] + bytes;
  }

  lemma ScalarSound(buf: seq<byte>, pos: nat, depth: nat)
    requires depth < MAX_DEPTH && pos < |buf| && buf[pos] / 32 != 4 && buf[pos] / 32 != 5
    requires ReadScalar(buf, pos + 1, buf[pos] / 32, buf[pos] % 32).Ok?
    ensures var (v, end) := ReadScalar(buf, pos + 1, buf[pos] / 32, buf[pos] % 32).value;
            Canonical(v, depth) && At(buf, pos, Enc(v)) && end == pos + |Enc(v)|
  {
    hide At, FromBytes, ReadArgument, ReadString, ReadFloat;
    var major, info := buf[pos] / 32, buf[pos] % 32;
    match major {
      case 0 => ArgumentIsHead(buf, pos);
      case 1 => ArgumentIsHead(buf, pos);
      case 2 => ReadIsString(buf, pos);
      case 3 => ReadIsString(buf, pos);
      case 6 => LinkSound(buf, pos);
      case _ =>
        if info == 27 {
          FloatSound(buf, pos);
        } else {
          AtSlice(buf, pos, [buf[pos]]);
        }
    }
  }

  /** How the decoder keeps the previous key: its encoding, or nothing. */
  function PrevBytes(prev: Option<seq<byte>>): seq<byte> {
    if prev.None? then [] else EncText(prev.value)
  }

  predicate PrevOk(prev: Option<seq<byte>>) {
    prev.Some? ==> |prev.value| < U64_LIMIT
  }

  /** The decoder's comparison of encoded keys is the order of keys. */
  lemma PrevOrder(prev: Option<seq<byte>>, key: seq<byte>)
    requires PrevOk(prev) && |key| < U64_LIMIT
    ensures Follows(prev, key) <==> (PrevBytes(prev) != [] ==> Compare(PrevBytes(prev), EncText(key)) == Less)
  {
    if prev.Some? {
      EncodedKeyOrder(prev.value, key);
    }
  }

  lemma KeySound(buf: seq<byte>, pos: nat, prev: Option<seq<byte>>)
    requires PrevOk(prev) && ReadKey(buf, pos, PrevBytes(prev)).Ok?
    ensures var (key, end) := ReadKey(buf, pos, PrevBytes(prev)).value;
            && TextOk(key) && Follows(prev, key)
            && At(buf, pos, EncText(key)) && end == pos + |EncText(key)| && buf[pos..end] == EncText(key)
  {
    hide At, ReadString, Head, Compare, Follows;
    var key := ReadKey(buf, pos, PrevBytes(prev)).value.0;
    ReadIsString(buf, pos);
    AtSlice(buf, pos, EncText(key));
    PrevOrder(prev, key);
  }

  lemma {:induction false} ValueSound(buf: seq<byte>, pos: nat, depth: nat)
    requires depth <= MAX_DEPTH && DecodeValue(buf, pos, depth).Ok?
    ensures var (v, end) := DecodeValue(buf, pos, depth).value;
            Canonical(v, depth) && At(buf, pos, Enc(v)) && end == pos + |Enc(v)|
    decreases MAX_DEPTH - depth, 0
  {
    hide At, Head, EncItems, EncEntries, CanonicalItems, CanonicalEntries, ReadArgument, ReadScalar, DecodeItems, DecodeEntries;
    var major, info := buf[pos] / 32, buf[pos] % 32;
    if major == 4 {
      ArgumentIsHead(buf, pos);
      var (len, start) := CollectionLength(buf, pos + 1, info, ArrayTooLong).value;
      ItemsSound(buf, start, depth + 1, len);
      var items := DecodeItems(buf, start, depth + 1, len).value.0;
      AtAppend(buf, pos, Head(4, len), EncItems(items));
    } else if major == 5 {
      ArgumentIsHead(buf, pos);
      var (len, start) := CollectionLength(buf, pos + 1, info, MapTooLong).value;
      EntriesSound(buf, start, depth + 1, None, len);
      var entries := DecodeEntries(buf, start, depth + 1, [], len).value.0;
      AtAppend(buf, pos, Head(5, len), EncEntries(entries));
    } else {
      ScalarSound(buf, pos, depth);
    }
  }

  lemma {:induction false} ItemsSound(buf: seq<byte>, pos: nat, depth: nat, count: nat)
    requires pos <= |buf| && depth <= MAX_DEPTH && DecodeItems(buf, pos, depth, count).Ok?
    ensures var (items, end) := DecodeItems(buf, pos, depth, count).value;
            CanonicalItems(items, depth) && At(buf, pos, EncItems(items)) && end == pos + |EncItems(items)|
    decreases MAX_DEPTH - depth, count
  {
    hide At, Enc, Canonical, DecodeValue;
    AtSlice(buf, pos, []);
    if count > 0 {
      ValueSound(buf, pos, depth);
      var (v, next) := DecodeValue(buf, pos, depth).value;
      ItemsSound(buf, next, depth, count - 1);
      var rest := DecodeItems(buf, next, depth, count - 1).value.0;
      AtAppend(buf, pos, Enc(v), EncItems(rest));
      assert ([v] + rest)[1..] == rest;
    }
  }

  lemma {:induction false} EntriesSound(buf: seq<byte>, pos: nat, depth: nat, prev: Option<seq<byte>>, count: nat)
    requires pos <= |buf| && depth <= MAX_DEPTH && PrevOk(prev)
    requires DecodeEntries(buf, pos, depth, PrevBytes(prev), count).Ok?
    ensures var (entries, end) := DecodeEntries(buf, pos, depth, PrevBytes(prev), count).value;
            && CanonicalEntries(prev, entries, depth)
            && At(buf, pos, EncEntries(entries)) && end == pos + |EncEntries(entries)|
    decreases MAX_DEPTH - depth, count
  {
    hide At, Enc, EncText, Canonical, DecodeValue, ReadKey;
    AtSlice(buf, pos, []);
    if count > 0 {
      KeySound(buf, pos, prev);
      var (key, mid) := ReadKey(buf, pos, PrevBytes(prev)).value;
      ValueSound(buf, mid, depth);
      var (v, next) := DecodeValue(buf, mid, depth).value;
      EntriesSound(buf, next, depth, Some(key), count - 1);
      var rest := DecodeEntries(buf, next, depth, EncText(key), count - 1).value.0;
      EntryStands(buf, pos, Keyed(key, v), rest);
    }
  }

  /** An entry and the rest of its map, one after the other. */
  lemma EntryStands(buf: seq<byte>, pos: nat, e: Keyed<Value>, rest: seq<Keyed<Value>>)
    ensures At(buf, pos, EncEntries([e] + rest)) <==>
            && At(buf, pos, EncText(e.key)) && At(buf, pos + |EncText(e.key)|, Enc(e.value))
            && At(buf, pos + |EncText(e.key)| + |Enc(e.value)|, EncEntries(rest))
    ensures |EncEntries([e] + rest)| == |EncText(e.key)| + |Enc(e.value)| + |EncEntries(rest)|
    ensures ([e] + rest)[1..] == rest
  {
    AtAppend(buf, pos, EncText(e.key), Enc(e.value));
    AtAppend(buf, pos, EncText(e.key) + Enc(e.value), EncEntries(rest));
    assert ([e] + rest)[1..] == rest;
  }

  // ---------- What is canonical is read ----------

  lemma LinkComplete(buf: seq<byte>, pos: nat, c: Cid)
    requires |buf| < U64_LIMIT && At(buf, pos, EncLink(c))
    ensures pos < |buf| && buf[pos] / 32 == 6
    ensures ReadScalar(buf, pos + 1, 6, buf[pos] % 32) == Ok((Link(c), pos + |EncLink(c)|))
  {
    hide At, ReadArgument, ReadString, Head, FromTag42;
    var body := ToTag42(c);
    LinkLayout(c);
    hide EncLink;
    AtAppend(buf, pos, Head(6, 42), Head(2, 37) + body);
    HeadIsRead(buf, pos, 6, 42);
    StringIsRead(buf, pos + 2, 2, body);
    Tag42Bytes(body, c);
  }

  lemma LinkLayout(c: Cid)
    ensures |Head(6, 42)| == 2 && |ToTag42(c)| == 37 && |Head(2, 37)| == 2
    ensures EncLink(c) == Head(6, 42) + (Head(2, 37) + ToTag42(c))
  {
    assert Head(6, 42) == [0xd8] + Be(42, 1) == [0xd8, 0x2a];
    assert Head(2, 37) == [0x58] + Be(37, 1) == [0x58, 0x25];
  }

  lemma FloatComplete(buf: seq<byte>, pos: nat, bits: u64)
    requires Finite(bits) && At(buf, pos, [0xfb] + Be(bits, 8))
    ensures pos < |buf| && buf[pos] == 0xfb && ReadFloat(buf, pos + 1) == Ok((bits, pos + 9))
  {
    AtAppend(buf, pos, [0xfb], Be(bits, 8));
    assert buf[pos] == buf[pos..pos + 1][0];
    Pow256Values();
    FromBeOfBe(bits, 8);
  }

  predicate IsScalar(v: Value) {
    !v.Array? && !v.Map?
  }

  lemma ByteStands(buf: seq<byte>, pos: nat, b: byte)
    requires At(buf, pos, [b])
    ensures pos < |buf| && buf[pos] == b
  {
    assert buf[pos] == buf[pos..pos + 1][0];
  }

  lemma ScalarComplete(buf: seq<byte>, pos: nat, depth: nat, v: Value)
    requires |buf| < U64_LIMIT && IsScalar(v) && Canonical(v, depth) && At(buf, pos, Enc(v))
    ensures pos < |buf| && buf[pos] / 32 != 4 && buf[pos] / 32 != 5
    ensures ReadScalar(buf, pos + 1, buf[pos] / 32, buf[pos] % 32) == Ok((v, pos + |Enc(v)|))
  {
    hide At, FromBytes, ReadArgument, ReadString, ReadFloat;
    match v {
      case Unsigned(n) => HeadIsRead(buf, pos, 0, n);
      case Signed(i) => HeadIsRead(buf, pos, 1, -1 - i);
      case Float(bits) => FloatComplete(buf, pos, bits);
      case Text(s) => StringIsRead(buf, pos, 3, s);
      case Bytes(b) => StringIsRead(buf, pos, 2, b);
      case Link(c) => LinkComplete(buf, pos, c);
      case Bool(b) => ByteStands(buf, pos, if b then 0xf5 else 0xf4);
      case Null => ByteStands(buf, pos, 0xf6);
      case Array(_) => assert false;
      case Map(_) => assert false;
    }
  }

  lemma KeyComplete(buf: seq<byte>, pos: nat, prev: Option<seq<byte>>, key: seq<byte>)
    requires |buf| < U64_LIMIT && PrevOk(prev) && TextOk(key) && Follows(prev, key) && At(buf, pos, EncText(key))
    ensures ReadKey(buf, pos, PrevBytes(prev)) == Ok((key, pos + |EncText(key)|))
  {
    hide At, Head, ReadString, Compare;
    StringIsRead(buf, pos, 3, key);
    PrevOrder(prev, key);
    AtSlice(buf, pos, EncText(key));
  }

  lemma {:induction false} ValueComplete(buf: seq<byte>, pos: nat, depth: nat, v: Value)
    requires |buf| < U64_LIMIT && Canonical(v, depth) && At(buf, pos, Enc(v))
    ensures DecodeValue(buf, pos, depth) == Ok((v, pos + |Enc(v)|))
    decreases MAX_DEPTH - depth, 0
  {
    hide At, Head, EncText, EncBytes, EncLink, EncItems, EncEntries, CanonicalItems, CanonicalEntries;
    hide ReadArgument, ReadScalar, DecodeItems, DecodeEntries;
    match v {
      case Array(items) =>
        AtAppend(buf, pos, Head(4, |items|), EncItems(items));
        HeadIsRead(buf, pos, 4, |items|);
        ItemsComplete(buf, pos + |Head(4, |items|)|, depth + 1, items);
      case Map(entries) =>
        AtAppend(buf, pos, Head(5, |entries|), EncEntries(entries));
        HeadIsRead(buf, pos, 5, |entries|);
        EntriesComplete(buf, pos + |Head(5, |entries|)|, depth + 1, None, entries);
      case _ =>
        ScalarComplete(buf, pos, depth, v);
    }
  }

  lemma {:induction false} ItemsComplete(buf: seq<byte>, pos: nat, depth: nat, items: seq<Value>)
    requires |buf| < U64_LIMIT && depth <= MAX_DEPTH && CanonicalItems(items, depth) && At(buf, pos, EncItems(items))
    ensures DecodeItems(buf, pos, depth, |items|) == Ok((items, pos + |EncItems(items)|))
    decreases MAX_DEPTH - depth, |items|
  {
    hide At, Enc, Canonical, DecodeValue;
    if items != [] {
      var v, rest := items[0], items[1..];
      AtAppend(buf, pos, Enc(v), EncItems(rest));
      ValueComplete(buf, pos, depth, v);
      ItemsComplete(buf, pos + |Enc(v)|, depth, rest);
      assert items == [v] + rest;
    }
  }

  lemma {:induction false} EntriesComplete(buf: seq<byte>, pos: nat, depth: nat, prev: Option<seq<byte>>,
      entries: seq<Keyed<Value>>)
    requires |buf| < U64_LIMIT && depth <= MAX_DEPTH && PrevOk(prev)
    requires CanonicalEntries(prev, entries, depth) && At(buf, pos, EncEntries(entries))
    ensures DecodeEntries(buf, pos, depth, PrevBytes(prev), |entries|) == Ok((entries, pos + |EncEntries(entries)|))
    decreases MAX_DEPTH - depth, |entries|
  {
    hide At, Enc, EncText, Canonical, DecodeValue, ReadKey;
    if entries != [] {
      var e, rest := entries[0], entries[1..];
      var mid := pos + |EncText(e.key)|;
      assert entries == [e] + rest;
      EntryStands(buf, pos, e, rest);
      KeyComplete(buf, pos, prev, e.key);
      ValueComplete(buf, mid, depth, e.value);
      AtSlice(buf, pos, EncText(e.key));
      EntriesComplete(buf, mid + |Enc(e.value)|, depth, Some(e.key), rest);
    }
  }

  // ---------- The theorem ----------

  /** From any position and level, the decoder reads `v` exactly when `v` is canonical and its encoding is next. */
  lemma DecodesExactlyTheCanonical(buf: seq<byte>, pos: nat, depth: nat, v: Value, end: nat)
    requires |buf| < U64_LIMIT && depth <= MAX_DEPTH
    ensures DecodeValue(buf, pos, depth) == Ok((v, end)) <==>
            Canonical(v, depth) && At(buf, pos, Enc(v)) && end == pos + |Enc(v)|
  {
    if DecodeValue(buf, pos, depth) == Ok((v, end)) {
      ValueSound(buf, pos, depth);
    }
    if Canonical(v, depth) && At(buf, pos, Enc(v)) {
      ValueComplete(buf, pos, depth, v);
    }
  }

  /** The whole-input decoder is the inverse of the encoding on canonical values, and accepts nothing else. */
  lemma DecodeIffCanonical(data: seq<byte>, v: Value)
    requires |data| < U64_LIMIT
    ensures Decode(data) == Ok(v) <==> Canonical(v, 0) && data == Enc(v)
  {
    DecodesExactlyTheCanonical(data, 0, 0, v, |data|);
    if Decode(data) == Ok(v) {
      ValueSound(data, 0, 0);
    }
    assert data[0..|data|] == data;
  }

  /** No two inputs decode to one value. */
  lemma DecodeInjective(a: seq<byte>, b: seq<byte>)
    requires |a| < U64_LIMIT && |b| < U64_LIMIT && Decode(a).Ok? && Decode(a) == Decode(b)
    ensures a == b
  {
    DecodeIffCanonical(a, Decode(a).value);
    DecodeIffCanonical(b, Decode(a).value);
  }
}
