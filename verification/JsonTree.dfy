/**
 JSON documents and the reference conversion to DRISL: build the tree, the last value of a duplicated key winning, then
 encode it with each object's keys in canonical order.
 */
module JsonTree {
  import opened Wrappers
  import opened Bytes
  import opened KeyedLists
  import opened Utf8
  import opened Cids
  import opened Drisl

  /** A JSON number as the tokenizer classifies it. Every finite double is a real number. */
  datatype Number = PosInt(n: u64) | NegInt(i: i64) | Double(r: real)

  /**
   A JSON value. As the parser reports it, an object lists its members in document order, perhaps with duplicate keys;
   as a tree, it lists them as a `BTreeMap` iterates, in bytewise order without duplicates.
   */
  datatype Json =
    | JNull
    | JBool(b: bool)
    | JNumber(num: Number)
    | JString(s: seq<byte>)
    | JArray(items: seq<Json>)
    | JObject(members: seq<Keyed<Json>>)

  datatype Integers = Safe | Any

  /** The parsers of `$link` and `$bytes` strings: any deterministic functions. */
  datatype LinkCodec = LinkCodec(
    parseLink: seq<byte> -> Result<Option<Cid>, CborError>,
    decodeBase64: seq<byte> -> Option<seq<byte>>)

  datatype Special = SpecialCid(cid: Cid) | SpecialBytes(bytes: seq<byte>)

  function Ascii(s: string): seq<byte> {
    seq(|s|, i requires 0 <= i < |s| => s[i] as int % 256)
  }

  lemma AsciiText(s: string)
    requires forall i :: 0 <= i < |s| ==> s[i] < 128 as char
    ensures |Ascii(s)| == |s| && ValidUtf8(Ascii(s))
  {
    hide ValidUtf8;
    AsciiIsUtf8(Ascii(s));
  }

  const LINK_KEY := Ascii("$link")
  const BYTES_KEY := Ascii("$bytes")
  const PRIVATE_KEY := Ascii("$serde_json::private::")

  const MAX_SAFE_INTEGER: int := 0x1f_ffff_ffff_ffff

  // ---------- The tree ----------

  /** The tree of a parsed document: every object a map in which the last value of a key wins. */
  function Tree(e: Json): Json
    decreases e
  {
    match e
    case JArray(items) => JArray(TreeItems(items))
    case JObject(members) => JObject(PutAll(TreeMembers(members)))
    case _ => e
  }

  function TreeItems(items: seq<Json>): (r: seq<Json>)
    ensures |r| == |items|
    decreases items
  {
    if items == [] then [] else [Tree(items[0])] + TreeItems(items[1..])
  }

  function TreeMembers(members: seq<Keyed<Json>>): (r: seq<Keyed<Json>>)
    ensures |r| == |members|
    decreases members
  {
    if members == [] then []
    else [Keyed(members[0].key, Tree(members[0].value))] + TreeMembers(members[1..])
  }

  // ---------- Numbers ----------

  /** The number as an `i64`, a double counting as an integer by value if it is one a JavaScript number holds exactly. */
  function IntegerValue(n: Number): Option<i64> {
    match n
    case PosInt(n) => if n <= I64_MAX then Some(n) else None
    case NegInt(i) => Some(i)
    case Double(r) =>
      if r.Floor as real == r && -MAX_SAFE_INTEGER <= r.Floor <= MAX_SAFE_INTEGER then Some(r.Floor) else None
  }

  /** `integer`. */
  function Integer(n: Number, integers: Integers): Result<i64, CborError> {
    match IntegerValue(n)
    case None => Err(NotAnInteger)
    case Some(v) =>
      if integers.Any? || -MAX_SAFE_INTEGER <= v <= MAX_SAFE_INTEGER then Ok(v) else Err(UnsafeInteger)
  }

  /** The number a token denotes. */
  function Denoted(n: Number): real {
    match n
    case PosInt(n) => n as real
    case NegInt(i) => i as real
    case Double(r) => r
  }

  predicate Denotes(n: Number, v: int) {
    v as real == Denoted(n)
  }

  /** Exactly representable by a JavaScript number. */
  predicate JavaScriptSafe(v: int) {
    -9_007_199_254_740_991 <= v <= 9_007_199_254_740_991
  }

  /** An integer is taken by its value, however it was written; only the largest need an integer's form and consent. */
  lemma IntegerIs(n: Number, integers: Integers, v: i64)
    ensures Integer(n, integers) == Ok(v)
            <==> Denotes(n, v) && (n.Double? || integers.Safe? ==> JavaScriptSafe(v))
  {
    if n.Double? && v as real == n.r {
      assert n.r.Floor == v;
    }
  }

  /** The token denotes some `i64` that its form lets it denote. */
  ghost predicate IsInteger(n: Number) {
    exists v: i64 :: Denotes(n, v) && (n.Double? ==> JavaScriptSafe(v))
  }

  lemma IntegerErrors(n: Number, integers: Integers)
    ensures Integer(n, integers) == Err(NotAnInteger) <==> !IsInteger(n)
    ensures Integer(n, integers) == Err(UnsafeInteger)
            <==> integers.Safe? && exists v: i64 :: Denotes(n, v) && !n.Double? && !JavaScriptSafe(v)
  {
    match IntegerValue(n) {
      case Some(v) =>
        assert Denotes(n, v) && (n.Double? ==> JavaScriptSafe(v));
        forall w: i64 | Denotes(n, w) ensures w == v {
          SameInteger(v, w);
        }
      case None =>
        forall w: i64 | Denotes(n, w) ensures n.Double? && !JavaScriptSafe(w) {
          IntegerIs(n, Any, w);
        }
    }
  }

  lemma SameInteger(v: int, w: int)
    requires v as real == w as real
    ensures v == w
  {
  }

  // ---------- The reference encoding ----------

  /** What an object whose only member is `key: s` stands for. */
  function SpecialMember(codec: LinkCodec, key: seq<byte>, s: seq<byte>): Result<Option<Special>, CborError> {
    if key == LINK_KEY then
      match codec.parseLink(s)
      case Err(e) => Err(e)
      case Ok(None) => Ok(None)
      case Ok(Some(c)) => Ok(Some(SpecialCid(c)))
    else if key == BYTES_KEY then
      match codec.decodeBase64(s)
      case None => Ok(None)
      case Some(b) => Ok(Some(SpecialBytes(b)))
    else Ok(None)
  }

  function SpecialOf(codec: LinkCodec, members: seq<Keyed<Json>>): Result<Option<Special>, CborError> {
    if |members| == 1 && members[0].value.JString? then SpecialMember(codec, members[0].key, members[0].value.s)
    else Ok(None)
  }

  function EncSpecial(s: Special): seq<byte> {
    match s
    case SpecialCid(c) => EncLink(c)
    case SpecialBytes(b) => EncBytes(b)
  }

  type Encoding = Result<seq<byte>, CborError>

  /** `encode`: the DRISL bytes of a JSON tree. */
  function Encode(codec: LinkCodec, integers: Integers, j: Json): Encoding
    decreases j
  {
    match j
    case JNull => Ok(Enc(Null))
    case JBool(b) => Ok(Enc(Bool(b)))
    case JNumber(n) =>
      var i :- Integer(n, integers);
      Ok(Enc(Signed(i)))
    case JString(s) => Ok(EncText(s))
    case JArray(items) =>
      var body :- EncodeItems(codec, integers, items);
      Ok(Head(4, |items|) + body)
    case JObject(members) =>
      var special :- SpecialOf(codec, members);
      if special.Some? then Ok(EncSpecial(special.value))
      else
        var body :- Join(Sort(LengthFirst, EncodeMembers(codec, integers, members)));
        Ok(Head(5, |members|) + body)
  }

  function EncodeItems(codec: LinkCodec, integers: Integers, items: seq<Json>): Encoding
    decreases items
  {
    if items == [] then Ok([])
    else
      var first :- Encode(codec, integers, items[0]);
      var rest :- EncodeItems(codec, integers, items[1..]);
      Ok(first + rest)
  }

  function EncodeMembers(codec: LinkCodec, integers: Integers, members: seq<Keyed<Json>>): (r: seq<Keyed<Encoding>>)
    ensures |r| == |members|
    decreases members
  {
    if members == [] then []
    else [Keyed(members[0].key, Encode(codec, integers, members[0].value))] + EncodeMembers(codec, integers, members[1..])
  }

  /** Encoded members one after the other, or the first error among them. */
  function Join(members: seq<Keyed<Encoding>>): Encoding {
    if members == [] then Ok([])
    else
      var value :- members[0].value;
      var rest :- Join(members[1..]);
      Ok(EncText(members[0].key) + value + rest)
  }

  /** `json_to_drisl` over the parsed document. */
  function Reference(codec: LinkCodec, integers: Integers, e: Json): Encoding {
    Encode(codec, integers, Tree(e))
  }

  /**
   An object of one member in bytes: a CID in tag 42, a byte string, the error of the CID's parser, or a map like any
   other.
   */
  lemma OneMember(codec: LinkCodec, integers: Integers, key: seq<byte>, v: Json)
    ensures var r := Encode(codec, integers, JObject([Keyed(key, v)]));
            var link := key == [0x24, 0x6c, 0x69, 0x6e, 0x6b] && v.JString?;
            var bytes := key == [0x24, 0x62, 0x79, 0x74, 0x65, 0x73] && v.JString?;
            if link && codec.parseLink(v.s).Err? then r == Err(codec.parseLink(v.s).error)
            else if link && codec.parseLink(v.s).value.Some? then
              r == Ok([0xd8, 0x2a, 0x58, 0x25, 0x00] + ToBytes(codec.parseLink(v.s).value.value))
            else if bytes && codec.decodeBase64(v.s).Some? then
              r == Ok(Head(2, |codec.decodeBase64(v.s).value|) + codec.decodeBase64(v.s).value)
            else match Encode(codec, integers, v)
              case Ok(value) => r == Ok([0xa1] + Head(3, |key|) + key + value)
              case Err(e) => r == Err(e)
  {
    SpecialKeys();
    LinkHead();
    hide LINK_KEY, BYTES_KEY, EncLink, ToBytes, Head, Sort, EncodeMembers, Join;
    OneJoined(codec, integers, key, v);
  }

  lemma OneJoined(codec: LinkCodec, integers: Integers, key: seq<byte>, v: Json)
    ensures var r := Join(Sort(LengthFirst, EncodeMembers(codec, integers, [Keyed(key, v)])));
            match Encode(codec, integers, v)
            case Ok(value) => r.Ok? && Head(5, 1) + r.value == [0xa1] + Head(3, |key|) + key + value
            case Err(e) => r == Err(e)
  {
    var members, enc := [Keyed(key, v)], Encode(codec, integers, v);
    hide Encode;
    assert EncodeMembers(codec, integers, members) == [Keyed(key, enc)] + EncodeMembers(codec, integers, members[1..]);
    assert Sort(LengthFirst, [Keyed(key, enc)]) == [Keyed(key, enc)];
    assert Join([Keyed(key, enc)][1..]) == Ok([]);
    assert Head(5, 1) == [0xa1];
    hide Head;
    if enc.Ok? {
      assert Join([Keyed(key, enc)]) == Ok(EncText(key) + enc.value + []);
      assert [0xa1] + (EncText(key) + enc.value + []) == [0xa1] + Head(3, |key|) + key + enc.value;
    }
  }

  lemma SpecialKeys()
    ensures LINK_KEY == [0x24, 0x6c, 0x69, 0x6e, 0x6b] && BYTES_KEY == [0x24, 0x62, 0x79, 0x74, 0x65, 0x73]
  {
  }

  lemma LinkHead()
    ensures forall c :: EncLink(c) == [0xd8, 0x2a, 0x58, 0x25, 0x00] + ToBytes(c)
  {
  }

  /** No other object is special. */
  lemma ManyMembers(codec: LinkCodec, integers: Integers, members: seq<Keyed<Json>>)
    requires |members| != 1
    ensures var r := Encode(codec, integers, JObject(members)); r.Ok? ==> Head(5, |members|) <= r.value
  {
    hide Head, Sort, EncodeMembers, Join;
  }

  // ---------- Sorting members and encoding them ----------

  lemma {:induction false} EncodeMembersAt(codec: LinkCodec, integers: Integers, members: seq<Keyed<Json>>, i: nat)
    requires i < |members|
    ensures EncodeMembers(codec, integers, members)[i] == Keyed(members[i].key, Encode(codec, integers, members[i].value))
  {
    hide Encode;
    if i > 0 {
      EncodeMembersAt(codec, integers, members[1..], i - 1);
    }
  }

  /** Encoding the values and then sorting is sorting and then encoding the values. */
  lemma SortEncoded(codec: LinkCodec, integers: Integers, members: seq<Keyed<Json>>)
    ensures Sort(LengthFirst, EncodeMembers(codec, integers, members))
            == EncodeMembers(codec, integers, Sort(LengthFirst, members))
  {
    hide Encode, Sort;
    var r := (k: seq<byte>, j: Json, e: Encoding) => e == Encode(codec, integers, j);
    var enc := EncodeMembers(codec, integers, members);
    forall i | 0 <= i < |members| ensures members[i].key == enc[i].key && r(members[i].key, members[i].value, enc[i].value) {
      EncodeMembersAt(codec, integers, members, i);
    }
    SortAligned(r, LengthFirst, members, enc);
    var a, b := Sort(LengthFirst, members), Sort(LengthFirst, enc);
    forall i | 0 <= i < |a| ensures b[i] == EncodeMembers(codec, integers, a)[i] {
      EncodeMembersAt(codec, integers, a, i);
    }
  }

  /** The members of an object of the tree, encoded: the last of each key, in canonical order. */
  lemma ObjectBody(codec: LinkCodec, integers: Integers, members: seq<Keyed<Json>>)
    ensures var last := DedupLast(Sort(LengthFirst, members));
            && Sort(LengthFirst, EncodeMembers(codec, integers, PutAll(members))) == EncodeMembers(codec, integers, last)
            && |PutAll(members)| == |last|
            && (|last| == 1 ==> PutAll(members) == last)
  {
    hide Encode, PutAll;
    SortEncoded(codec, integers, PutAll(members));
    SortedMap(LengthFirst, members);
    var m := PutAll(members);
    if |m| == 1 {
      assert m == [m[0]];
      assert Sort(LengthFirst, m[1..]) == [];
    }
  }
}
