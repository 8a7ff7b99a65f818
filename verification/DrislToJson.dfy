/**
 The one-pass conversion of DRISL to JSON text: values are printed as they are decoded, and each object's members, which
 DRISL orders by length first, are put in bytewise order in place. It gives what decoding, converting and printing a
 tree would give.
 */
module DrislToJson {
  import opened Wrappers
  import opened Bytes
  import opened KeyedLists
  import opened Cids
  import opened Drisl
  import opened DecodeSpec
  import opened Canonicity
  import opened JsonTree
  import opened JsonText
  import opened Words
  import opened DecoderModel

  // ---------- Bytes and CIDs as text ----------

  function Pow2(k: nat): nat
  {
    if k == 0 then 1 else 2 * Pow2(k - 1)
  }

  /** The low `k` symbols of `n`, most significant first: five bits each, or six. */
  function InSymbols(n: nat, five: bool, k: nat): (r: seq<nat>)
    ensures |r| == k && forall i :: 0 <= i < k ==> r[i] < if five then 32 else 64
  {
    if k == 0 then []
    else if five then InSymbols(n / 32, five, k - 1) + [n % 32]
    else InSymbols(n / 64, five, k - 1) + [n % 64]
  }

  /** A byte string as symbols, the last filled up with zero bits (RFC 4648, without padding). */
  function Symbols(b: seq<byte>, five: bool): (r: seq<nat>)
    ensures forall i :: 0 <= i < |r| ==> r[i] < if five then 32 else 64
  {
    var w := if five then 5 else 6;
    var k := (8 * |b| + w - 1) / w;
    InSymbols(FromBe(b) * Pow2((w - 8 * |b| % w) % w), five, k)
  }

  function Base64Symbol(d: nat): byte
    requires d < 64
  {
    if d < 26 then 0x41 + d else if d < 52 then 0x61 + d - 26 else if d < 62 then 0x30 + d - 52
    else if d == 62 then 0x2b else 0x2f
  }

  function Base32Symbol(d: nat): byte
    requires d < 32
  {
    if d < 26 then 0x61 + d else 0x32 + d - 26
  }

  /** Unpadded base64, standard alphabet. */
  function Base64(b: seq<byte>): seq<byte> {
    var d := Symbols(b, false);
    seq(|d|, i requires 0 <= i < |d| => Base64Symbol(d[i]))
  }

  /** A CID as a string: `b`, then lowercase base32. */
  function CidText(c: Cid): seq<byte> {
    var d := Symbols(ToBytes(c), true);
    [0x62] + seq(|d|, i requires 0 <= i < |d| => Base32Symbol(d[i]))
  }

  lemma TextsAreClean(b: seq<byte>, c: Cid)
    ensures Escaped(Base64(b)) == Base64(b) && Escaped(CidText(c)) == CidText(c)
  {
    hide Symbols, Escaped;
    EscapedClean(Base64(b));
    EscapedClean(CidText(c));
  }

  // ---------- The reference: decode, convert, print ----------

  function Single(key: seq<byte>, text: seq<byte>): Json {
    JObject([Keyed(key, JString(text))])
  }

  /** `value_to_json`. */
  function ValueToJson(v: Value): Result<Json, CborError>
    decreases v
  {
    match v
    case Unsigned(n) => if n > I64_MAX then Err(UnsignedOutsideModel(n)) else Ok(JNumber(PosInt(n)))
    case Signed(i) => Ok(JNumber(if i >= 0 then PosInt(i) else NegInt(i)))
    case Float(bits) => Err(FloatOutsideModel(bits))
    case Bool(b) => Ok(JBool(b))
    case Null => Ok(JNull)
    case Text(s) => Ok(JString(s))
    case Bytes(b) => Ok(Single(BYTES_KEY, Base64(b)))
    case Link(c) => Ok(Single(LINK_KEY, CidText(c)))
    case Array(items) =>
      var js :- ItemsToJson(items);
      Ok(JArray(js))
    case Map(entries) =>
      var js :- EntriesToJson(entries);
      Ok(JObject(PutAll(js)))
  }

  function ItemsToJson(items: seq<Value>): Result<seq<Json>, CborError>
    decreases items
  {
    if items == [] then Ok([])
    else
      var first :- ValueToJson(items[0]);
      var rest :- ItemsToJson(items[1..]);
      Ok([first] + rest)
  }

  function EntriesToJson(entries: seq<Keyed<Value>>): Result<seq<Keyed<Json>>, CborError>
    decreases entries
  {
    if entries == [] then Ok([])
    else
      var first :- ValueToJson(entries[0].value);
      var rest :- EntriesToJson(entries[1..]);
      Ok([Keyed(entries[0].key, first)] + rest)
  }

  /** `drisl_to_json`. */
  function DrislToJsonTree(data: seq<byte>): Result<Json, CborError> {
    var v :- Decode(data);
    ValueToJson(v)
  }

  /** A signed number in decimal. */
  function SignedText(i: int): seq<byte> {
    if i < 0 then [0x2d] + Decimal(-i) else Decimal(i)
  }

  /** Compact JSON text. No double is ever printed: the conversion makes none. */
  function Print(j: Json): seq<byte>
    decreases j
  {
    match j
    case JNull => Ascii("null")
    case JBool(b) => if b then Ascii("true") else Ascii("false")
    case JNumber(PosInt(n)) => Decimal(n)
    case JNumber(NegInt(i)) => SignedText(i)
    case JNumber(Double(_)) => []
    case JString(s) => Quoted(s)
    case JArray(items) => [0x5b] + PrintItems(items) + [0x5d]
    case JObject(members) => [0x7b] + PrintMembers(members) + [0x7d]
  }

  function PrintItems(items: seq<Json>): seq<byte>
    decreases items
  {
    if items == [] then []
    else if |items| == 1 then Print(items[0])
    else Print(items[0]) + [0x2c] + PrintItems(items[1..])
  }

  function PrintMember(m: Keyed<Json>): seq<byte>
    decreases m, 0
  {
    Quoted(m.key) + [0x3a] + Print(m.value)
  }

  function PrintMembers(members: seq<Keyed<Json>>): seq<byte>
    decreases members
  {
    if members == [] then []
    else if |members| == 1 then PrintMember(members[0])
    else PrintMember(members[0]) + [0x2c] + PrintMembers(members[1..])
  }

  // ---------- What the one pass writes ----------

  /** The text of a value, floats leaving none. Items and members end in commas, the last of which is dropped. */
  function RawText(v: Value): seq<byte>
    decreases v
  {
    match v
    case Unsigned(n) => Decimal(n)
    case Signed(i) => SignedText(i)
    case Float(_) => []
    case Bool(b) => if b then Ascii("true") else Ascii("false")
    case Null => Ascii("null")
    case Text(s) => Quoted(s)
    case Bytes(b) => Ascii("{\"$bytes\":\"") + Base64(b) + Ascii("\"}")
    case Link(c) => Ascii("{\"$link\":\"") + CidText(c) + Ascii("\"}")
    case Array(items) => [0x5b] + Close(RawItems(items), 0x5d)
    case Map(entries) => [0x7b] + Close(Flat(Sort(Bytewise, RawEntries(entries))), 0x7d)
  }

  function RawItems(items: seq<Value>): seq<byte>
    decreases items
  {
    if items == [] then [] else RawText(items[0]) + [0x2c] + RawItems(items[1..])
  }

  function RawEntries(entries: seq<Keyed<Value>>): (r: seq<Keyed<seq<byte>>>)
    ensures |r| == |entries|
    decreases entries
  {
    if entries == [] then []
    else [Keyed(entries[0].key, Quoted(entries[0].key) + [0x3a] + RawText(entries[0].value) + [0x2c])] + RawEntries(entries[1..])
  }

  /** Texts one after the other. */
  function Flat(texts: seq<Keyed<seq<byte>>>): seq<byte> {
    if texts == [] then [] else texts[0].value + Flat(texts[1..])
  }

  /** The closing bracket, in place of the last comma if there is one. */
  function Close(body: seq<byte>, bracket: byte): seq<byte> {
    (if body == [] then [] else body[..|body| - 1]) + [bracket]
  }

  /** The first float in document order. */
  function FirstFloat(v: Value): Option<u64>
    decreases v
  {
    match v
    case Float(bits) => Some(bits)
    case Array(items) => FloatInItems(items)
    case Map(entries) => FloatInEntries(entries)
    case _ => None
  }

  function FloatInItems(items: seq<Value>): Option<u64>
    decreases items
  {
    if items == [] then None
    else if FirstFloat(items[0]).Some? then FirstFloat(items[0])
    else FloatInItems(items[1..])
  }

  function FloatInEntries(entries: seq<Keyed<Value>>): Option<u64>
    decreases entries
  {
    if entries == [] then None
    else if FirstFloat(entries[0].value).Some? then FirstFloat(entries[0].value)
    else FloatInEntries(entries[1..])
  }

  /** The first of two floats. */
  function OrElse(a: Option<u64>, b: Option<u64>): Option<u64> {
    if a.Some? then a else b
  }

  // ---------- One pass against the reference ----------

  /** A canonical value converts unless it has a float, and the first float is the error. */
  lemma {:induction false} ConvertsUnlessFloat(v: Value, depth: nat)
    requires Canonical(v, depth)
    ensures match FirstFloat(v) case Some(bits) => ValueToJson(v) == Err(FloatOutsideModel(bits)) case None => ValueToJson(v).Ok?
    decreases v
  {
    match v {
      case Array(items) => ItemsConvert(items, depth + 1);
      case Map(entries) => EntriesConvert(None, entries, depth + 1);
      case _ =>
    }
  }

  lemma {:induction false} ItemsConvert(items: seq<Value>, depth: nat)
    requires CanonicalItems(items, depth)
    ensures match FloatInItems(items) case Some(bits) => ItemsToJson(items) == Err(FloatOutsideModel(bits)) case None => ItemsToJson(items).Ok?
    decreases items
  {
    hide ValueToJson, FirstFloat, Canonical;
    if items != [] {
      ConvertsUnlessFloat(items[0], depth);
      ItemsConvert(items[1..], depth);
    }
  }

  lemma {:induction false} EntriesConvert(prev: Option<seq<byte>>, entries: seq<Keyed<Value>>, depth: nat)
    requires CanonicalEntries(prev, entries, depth)
    ensures match FloatInEntries(entries) case Some(bits) => EntriesToJson(entries) == Err(FloatOutsideModel(bits)) case None => EntriesToJson(entries).Ok?
    decreases entries
  {
    hide ValueToJson, FirstFloat, Canonical, Follows;
    if entries != [] {
      ConvertsUnlessFloat(entries[0].value, depth);
      EntriesConvert(Some(entries[0].key), entries[1..], depth);
    }
  }

  /** Text of members that each end in a comma: dropping the last comma leaves them separated by commas. */
  ghost predicate IsMemberText(k: seq<byte>, j: Json, t: seq<byte>) {
    t == PrintMember(Keyed(k, j)) + [0x2c]
  }

  lemma {:induction false} MembersFlat(members: seq<Keyed<Json>>, texts: seq<Keyed<seq<byte>>>)
    requires Aligned(IsMemberText, members, texts)
    ensures members != [] ==> Flat(texts) == PrintMembers(members) + [0x2c]
    ensures members == [] ==> Flat(texts) == []
  {
    hide PrintMember;
    if members != [] {
      MembersFlat(members[1..], texts[1..]);
      assert texts[0].value == PrintMember(members[0]) + [0x2c] by {
        assert members[0] == Keyed(members[0].key, members[0].value);
      }
      if |members| == 1 {
        assert Flat(texts) == texts[0].value + [];
      } else {
        assert PrintMember(members[0]) + [0x2c] + (PrintMembers(members[1..]) + [0x2c])
            == PrintMember(members[0]) + [0x2c] + PrintMembers(members[1..]) + [0x2c];
      }
    }
  }

  /** Without floats, what the one pass writes is the printed tree. */
  lemma {:induction false} RawIsPrinted(v: Value, depth: nat)
    requires Canonical(v, depth) && FirstFloat(v).None?
    ensures ValueToJson(v).Ok? && RawText(v) == Print(ValueToJson(v).value)
    decreases v
  {
    match v {
      case Bytes(b) => SinglesPrinted(b, Cid(Raw, Be(0, 32)));
      case Link(c) => SinglesPrinted([], c);
      case Array(items) =>
        ItemsPrinted(items, depth + 1);
      case Map(entries) =>
        MapPrinted(entries, depth + 1);
      case _ =>
    }
  }

  lemma OpenBytes()
    ensures Ascii("{\"$bytes\":\"") == [0x7b, 0x22] + BYTES_KEY + [0x22, 0x3a, 0x22]
    ensures forall i :: 0 <= i < |BYTES_KEY| ==> !NeedsEscape(BYTES_KEY[i])
  {
    assert BYTES_KEY == [0x24, 0x62, 0x79, 0x74, 0x65, 0x73];
  }

  lemma OpenLink()
    ensures Ascii("{\"$link\":\"") == [0x7b, 0x22] + LINK_KEY + [0x22, 0x3a, 0x22]
    ensures forall i :: 0 <= i < |LINK_KEY| ==> !NeedsEscape(LINK_KEY[i])
  {
    assert LINK_KEY == [0x24, 0x6c, 0x69, 0x6e, 0x6b];
  }

  lemma CloseText()
    ensures Ascii("\"}") == [0x22, 0x7d]
  {
  }

  /** A map with one clean member. */
  lemma SingleText(key: seq<byte>, open: seq<byte>, text: seq<byte>)
    requires open == [0x7b, 0x22] + key + [0x22, 0x3a, 0x22]
    requires Escaped(text) == text && forall i :: 0 <= i < |key| ==> !NeedsEscape(key[i])
    ensures Print(Single(key, text)) == open + text + Ascii("\"}")
  {
    hide Escaped, Ascii;
    CloseText();
    EscapedClean(key);
    var m := [Keyed(key, JString(text))];
    assert PrintMembers(m) == PrintMember(m[0]) == ([0x22] + key + [0x22]) + [0x3a] + ([0x22] + text + [0x22]);
    assert [0x7b] + (([0x22] + key + [0x22]) + [0x3a] + ([0x22] + text + [0x22])) + [0x7d]
        == [0x7b, 0x22] + key + [0x22, 0x3a, 0x22] + text + [0x22, 0x7d];
  }

  lemma SinglesPrinted(b: seq<byte>, c: Cid)
    ensures Print(Single(BYTES_KEY, Base64(b))) == RawText(Bytes(b))
    ensures Print(Single(LINK_KEY, CidText(c))) == RawText(Link(c))
  {
    hide Base64, CidText, Ascii, Print;
    TextsAreClean(b, c);
    OpenBytes();
    OpenLink();
    SingleText(BYTES_KEY, Ascii("{\"$bytes\":\""), Base64(b));
    SingleText(LINK_KEY, Ascii("{\"$link\":\""), CidText(c));
  }

  lemma {:induction false} ItemsPrinted(items: seq<Value>, depth: nat)
    requires CanonicalItems(items, depth) && FloatInItems(items).None?
    ensures ItemsToJson(items).Ok?
    ensures var js := ItemsToJson(items).value;
            |js| == |items| && RawItems(items) == if items == [] then [] else PrintItems(js) + [0x2c]
    decreases items
  {
    hide ValueToJson, FirstFloat, Canonical, RawText, Print;
    if items != [] {
      RawIsPrinted(items[0], depth);
      ItemsPrinted(items[1..], depth);
      var first, rest := ValueToJson(items[0]).value, ItemsToJson(items[1..]).value;
      var js := ItemsToJson(items).value;
      assert js[0] == first && js[1..] == rest;
      if rest == [] {
        assert RawItems(items) == RawText(items[0]) + [0x2c] + [];
      } else {
        assert RawItems(items) == Print(first) + [0x2c] + (PrintItems(rest) + [0x2c]);
        assert PrintItems(js) + [0x2c] == Print(first) + [0x2c] + PrintItems(rest) + [0x2c];
      }
    }
  }

  lemma {:induction false} EntriesPrinted(prev: Option<seq<byte>>, entries: seq<Keyed<Value>>, depth: nat)
    requires CanonicalEntries(prev, entries, depth) && FloatInEntries(entries).None?
    ensures EntriesToJson(entries).Ok?
    ensures Aligned(IsMemberText, EntriesToJson(entries).value, RawEntries(entries))
    ensures SameKeys(EntriesToJson(entries).value, entries)
    decreases entries, 0
  {
    hide ValueToJson, FirstFloat, Canonical, RawText, Print, Quoted, Follows, Aligned, SameKeys;
    if entries == [] {
      NoneAligned([], entries);
    } else {
      var e, rest := entries[0], entries[1..];
      RawIsPrinted(e.value, depth);
      EntriesPrinted(Some(e.key), rest, depth);
      var js := EntriesToJson(rest).value;
      assert EntriesToJson(entries) == Ok([Keyed(e.key, ValueToJson(e.value).value)] + js);
      EntryAligned(Keyed(e.key, ValueToJson(e.value).value), js, e, rest);
      assert entries == [e] + rest;
    }
  }

  ghost predicate SameKeys(js: seq<Keyed<Json>>, entries: seq<Keyed<Value>>) {
    |js| == |entries| && forall i :: 0 <= i < |js| ==> js[i].key == entries[i].key
  }

  lemma NoneAligned(js: seq<Keyed<Json>>, entries: seq<Keyed<Value>>)
    requires js == [] && entries == []
    ensures Aligned(IsMemberText, js, RawEntries(entries)) && SameKeys(js, entries)
  {
  }

  lemma EntryAligned(j: Keyed<Json>, js: seq<Keyed<Json>>, e: Keyed<Value>, rest: seq<Keyed<Value>>)
    requires j.key == e.key && Print(j.value) == RawText(e.value)
    requires Aligned(IsMemberText, js, RawEntries(rest)) && SameKeys(js, rest)
    ensures Aligned(IsMemberText, [j] + js, RawEntries([e] + rest)) && SameKeys([j] + js, [e] + rest)
  {
    hide RawText, Print, Quoted;
    assert ([e] + rest)[1..] == rest;
  }

  lemma {:induction false} MapPrinted(entries: seq<Keyed<Value>>, depth: nat)
    requires CanonicalEntries(None, entries, depth) && FloatInEntries(entries).None?
    ensures EntriesToJson(entries).Ok?
    ensures [0x7b] + Close(Flat(Sort(Bytewise, RawEntries(entries))), 0x7d) == Print(JObject(PutAll(EntriesToJson(entries).value)))
    decreases entries, 1
  {
    hide Sort, PutAll, Flat;
    EntriesPrinted(None, entries, depth);
    var js, texts := EntriesToJson(entries).value, RawEntries(entries);
    CanonicalIsSorted(None, entries, depth);
    StrictIsDistinct(LengthFirst, entries);
    DistinctMap(js);
    SortAligned(IsMemberText, Bytewise, js, texts);
    MembersFlat(Sort(Bytewise, js), Sort(Bytewise, texts));
  }

  // ---------- Entries moved into order ----------

  /** The range of one entry's text in the buffer. */
  datatype Span = Span(start: nat, end: nat)

  /** The spans hold the texts. */
  ghost predicate Hold(out: seq<byte>, low: nat, spans: seq<Keyed<Span>>, texts: seq<Keyed<seq<byte>>>) {
    && |spans| == |texts|
    && forall i :: 0 <= i < |spans| ==>
         && spans[i].key == texts[i].key && low <= spans[i].value.start <= spans[i].value.end <= |out|
         && out[spans[i].value.start..spans[i].value.end] == texts[i].value
  }

  lemma SortHold(out: seq<byte>, low: nat, spans: seq<Keyed<Span>>, texts: seq<Keyed<seq<byte>>>)
    requires Hold(out, low, spans, texts)
    ensures Hold(out, low, Sort(Bytewise, spans), Sort(Bytewise, texts))
  {
    hide Sort;
    var r := (k: seq<byte>, s: Span, t: seq<byte>) => low <= s.start <= s.end <= |out| && out[s.start..s.end] == t;
    SortAligned(r, Bytewise, spans, texts);
  }

  lemma {:induction false} InsertFlat(x: Keyed<seq<byte>>, s: seq<Keyed<seq<byte>>>)
    ensures |Flat(Insert(Bytewise, x, s))| == |x.value| + |Flat(s)|
  {
    hide KeyCmp;
    var r := Insert(Bytewise, x, s);
    if s == [] || KeyCmp(Bytewise, x.key, s[0].key) != Greater {
      assert r[1..] == s;
    } else {
      InsertFlat(x, s[1..]);
      assert r[1..] == Insert(Bytewise, x, s[1..]);
    }
  }

  /** Sorting texts keeps their total length. */
  lemma {:induction false} SortFlat(s: seq<Keyed<seq<byte>>>)
    ensures |Flat(Sort(Bytewise, s))| == |Flat(s)|
  {
    hide Insert;
    if s != [] {
      SortFlat(s[1..]);
      InsertFlat(s[0], Sort(Bytewise, s[1..]));
    }
  }

  lemma {:induction false} FlatSnoc(s: seq<Keyed<seq<byte>>>, x: Keyed<seq<byte>>)
    ensures Flat(s + [x]) == Flat(s) + x.value
  {
    if s == [] {
      assert s + [x] == [x];
      assert Flat([x][1..]) == [];
    } else {
      assert (s + [x])[1..] == s[1..] + [x];
      FlatSnoc(s[1..], x);
    }
  }

  /** `key_cmp`: settled by the first byte if that differs. */
  function FirstByteCmp(a: seq<byte>, b: seq<byte>): Ordering {
    if a == [] then (if b == [] then Equal else Less)
    else if b == [] then Greater
    else if a[0] < b[0] then Less else if a[0] > b[0] then Greater else Equal
  }

  function JsonKeyCmp(a: seq<byte>, b: seq<byte>): Ordering {
    FirstByteCmp(a, b).Then(Compare(a, b))
  }

  lemma JsonKeyOrder(a: seq<byte>, b: seq<byte>)
    ensures JsonKeyCmp(a, b) == KeyCmp(Bytewise, a, b)
  {
  }

  // ---------- The writer ----------

  /** What a decode step says of the writer's: the same error, or the value's text appended and its first float noted. */
  ghost predicate Writes(spec: Read<Value>, r: Result<(), CborError>, before: seq<byte>, out: seq<byte>,
      floatBefore: Option<u64>, float: Option<u64>, pos: nat)
  {
    && before <= out
    && match spec
       case Err(e) => r == Err(e)
       case Ok((v, end)) =>
         r.Ok? && pos == end && out == before + RawText(v) && float == OrElse(floatBefore, FirstFloat(v))
  }

  lemma EscapedHead(s: seq<byte>)
    requires s != []
    ensures Escaped(s) == Escape(s[0]) + Escaped(s[1..])
  {
  }

  lemma EscapedNothing()
    ensures Escaped([]) == []
  {
  }

  lemma EscapedStretch(rest: seq<byte>, n: nat)
    requires n == CleanPrefix(rest)
    ensures n < |rest| ==> Escaped(rest) == rest[..n] + (Escape(rest[n]) + Escaped(rest[n + 1..]))
    ensures n == |rest| ==> Escaped(rest) == rest
  {
    hide CleanPrefix, NeedsEscape, Escape, Escaped;
    CleanPart(rest, n);
    var clean, tail := rest[..n], rest[n..];
    EscapedConcat(clean, tail);
    assert rest == clean + tail;
    if n < |rest| {
      EscapedHead(tail);
      assert tail[0] == rest[n] && tail[1..] == rest[n + 1..];
    } else {
      EscapedNothing();
      assert tail == [] && clean == rest;
    }
  }

  lemma Regroup(a: seq<byte>, b: seq<byte>, c: seq<byte>, d: seq<byte>)
    ensures a + (b + (c + d)) == a + b + c + d
  {
  }

  /** A clean stretch, and the byte after it that needs an escape, are written. */
  lemma Stretch(out: seq<byte>, rest: seq<byte>, n: nat)
    requires n == CleanPrefix(rest)
    ensures n < |rest| ==> out + Escaped(rest) == out + rest[..n] + Escape(rest[n]) + Escaped(rest[n + 1..])
    ensures n == |rest| ==> out + Escaped(rest) == out + rest[..n]
  {
    EscapedStretch(rest, n);
    hide CleanPrefix, NeedsEscape, Escape, Escaped;
    if n < |rest| {
      Regroup(out, rest[..n], Escape(rest[n]), Escaped(rest[n + 1..]));
    }
  }

  /** Short text between quotes, from its word: eight bytes are stored, and the closing quote goes over the padding. */
  method ShortQuoted(text: seq<byte>, word: bv64) returns (r: seq<byte>)
    requires |text| < 8 && word == ShortWord(text)
    ensures |r| == 10 && r[..|text| + 2] == [0x22] + text + [0x22]
  {
    hide ShortWord, WordOf, BytesOf;
    ShortWordIsPadded(text);
    BytesOfWord(Padded(text));
    var quoted := new byte[10](_ => 0x22);
    var bytes := BytesOf(word);
    for i := 0 to 8
      invariant forall j :: 0 <= j < i ==> quoted[1 + j] == bytes[j]
      invariant quoted[0] == 0x22
    {
      quoted[1 + i] := bytes[i];
    }
    quoted[1 + |text|] := 0x22;
    r := quoted[..];
    var t := [0x22] + text + [0x22];
    forall j | 0 <= j < |text| + 2 ensures r[j] == t[j] {
      if 0 < j <= |text| {
        assert r[1 + (j - 1)] == bytes[j - 1] == Padded(text)[..|text|][j - 1];
      }
    }
  }

  lemma ItemWritten(items: seq<Value>, v: Value)
    ensures RawItems(items + [v]) == RawItems(items) + RawText(v) + [0x2c]
    ensures FloatInItems(items + [v]) == OrElse(FloatInItems(items), FirstFloat(v))
    decreases items
  {
    hide RawText, FirstFloat;
    if items == [] {
      assert items + [v] == [v];
      assert RawItems([v][1..]) == [] && FloatInItems([v][1..]) == None;
      assert [] + RawText(v) + [0x2c] == RawText(v) + [0x2c] + [];
    } else {
      assert (items + [v])[1..] == items[1..] + [v];
      ItemWritten(items[1..], v);
      assert RawText(items[0]) + [0x2c] + (RawItems(items[1..]) + RawText(v) + [0x2c])
          == RawText(items[0]) + [0x2c] + RawItems(items[1..]) + RawText(v) + [0x2c];
    }
  }

  lemma NoItemsLeft(buf: seq<byte>, pos: nat, depth: nat, items: seq<Value>)
    requires depth <= MAX_DEPTH
    ensures Prepend(items, DecodeItems(buf, pos, depth, 0)) == Ok((items, pos))
  {
    assert items + [] == items;
  }

  lemma ArrayText(items: seq<Value>)
    ensures RawText(Array(items)) == [0x5b] + Close(RawItems(items), 0x5d) && FirstFloat(Array(items)) == FloatInItems(items)
    ensures items != [] <==> RawItems(items) != []
  {
    hide Close;
  }

  lemma MapText(entries: seq<Keyed<Value>>)
    ensures RawText(Map(entries)) == [0x7b] + Close(Flat(Sort(Bytewise, RawEntries(entries))), 0x7d)
    ensures FirstFloat(Map(entries)) == FloatInEntries(entries)
    ensures |Flat(Sort(Bytewise, RawEntries(entries)))| == |Flat(RawEntries(entries))|
    ensures entries != [] <==> |Flat(RawEntries(entries))| > 0
  {
    hide Close, Sort;
    SortFlat(RawEntries(entries));
  }

  function EntryText(key: seq<byte>, v: Value): seq<byte> {
    Quoted(key) + [0x3a] + RawText(v) + [0x2c]
  }

  lemma EntryWritten(entries: seq<Keyed<Value>>, e: Keyed<Value>)
    ensures RawEntries(entries + [e]) == RawEntries(entries) + [Keyed(e.key, EntryText(e.key, e.value))]
    ensures FloatInEntries(entries + [e]) == OrElse(FloatInEntries(entries), FirstFloat(e.value))
    decreases entries
  {
    hide RawText, FirstFloat, Quoted;
    if entries == [] {
      assert entries + [e] == [e];
      assert RawEntries([e][1..]) == [] && FloatInEntries([e][1..]) == None;
    } else {
      assert (entries + [e])[1..] == entries[1..] + [e];
      EntryWritten(entries[1..], e);
    }
  }

  /** A member appended to the buffer, with its span. */
  lemma HoldExtended(before: seq<byte>, out: seq<byte>, low: nat, spans: seq<Keyed<Span>>, texts: seq<Keyed<seq<byte>>>,
      key: seq<byte>, text: seq<byte>)
    requires Hold(before, low, spans, texts) && low <= |before| && out == before + text
    ensures Hold(out, low, spans + [Keyed(key, Span(|before|, |out|))], texts + [Keyed(key, text)])
  {
    forall i | 0 <= i < |spans| ensures out[spans[i].value.start..spans[i].value.end] == texts[i].value {
      assert before[spans[i].value.start..spans[i].value.end] == out[spans[i].value.start..spans[i].value.end];
    }
  }

  lemma AscendingSnoc(spans: seq<Keyed<Span>>, x: Keyed<Span>)
    ensures Ascending(Bytewise, spans + [x]) <==>
            && Ascending(Bytewise, spans)
            && (spans != [] ==> KeyCmp(Bytewise, spans[|spans| - 1].key, x.key) == Less)
  {
    hide KeyCmp;
    var s := spans + [x];
    if Ascending(Bytewise, s) {
      forall i | 0 <= i < |spans| - 1 ensures KeyCmp(Bytewise, spans[i].key, spans[i + 1].key) == Less {
        assert KeyCmp(Bytewise, s[i].key, s[i + 1].key) == Less;
      }
      if spans != [] {
        var n := |spans| - 1;
        assert KeyCmp(Bytewise, s[n].key, s[n + 1].key) == Less;
      }
    }
  }

  class JsonWriter {
    var out: seq<byte>
    /** The first float, an error only once the whole input has decoded. */
    var float: Option<u64>

    constructor (out: seq<byte>)
      ensures this.out == out && float == None
    {
      this.out := out;
      float := None;
    }

    /** `write_str`: short clean text is quoted in a buffer of ten bytes, other text stretch by stretch. */
    method WriteStr(text: seq<byte>)
      modifies this`out
      ensures out == old(out) + Quoted(text)
    {
      hide Escapes, First, ShortWord, CleanPrefix, BytesOf, Escaped;
      if |text| < 8 {
        var word := ShortWord(text);
        ShortScan(text);
        if First(Escapes(word)) == |text| {
          EscapedClean(text);
          var quoted := ShortQuoted(text, word);
          var start := |out|;
          out := out + quoted;
          out := out[..start + |text| + 2];
          return;
        }
      }
      out := out + [0x22];
      var rest := text;
      while true
        invariant out + Escaped(rest) == old(out) + [0x22] + Escaped(text)
        decreases |rest|
      {
        var n := CleanLen(rest);
        var clean, tail := rest[..n], rest[n..];
        Stretch(out, rest, n);
        out := out + clean;
        if tail == [] {
          break;
        }
        out := out + Escape(tail[0]);
        rest := tail[1..];
      }
      out := out + [0x22];
    }

    method WriteU64(n: u64)
      modifies this`out
      ensures out == old(out) + Decimal(n)
    {
      var digits := Digits(n);
      out := out + digits;
    }

    /** A value that is neither text read as bytes nor a collection. */
    method WriteScalar(v: Value)
      requires IsScalar(v)
      modifies this
      ensures out == old(out) + RawText(v) && float == OrElse(old(float), FirstFloat(v))
    {
      hide Decimal, Base64, CidText, Ascii, Quoted;
      match v {
        case Unsigned(n) =>
          WriteU64(n);
        case Signed(i) =>
          if i < 0 {
            out := out + [0x2d];
            WriteU64(-1 - i + 1);
          } else {
            WriteU64(i);
          }
        case Float(bits) =>
          float := OrElse(float, Some(bits));
        case Bool(b) =>
          out := out + if b then Ascii("true") else Ascii("false");
        case Null =>
          out := out + Ascii("null");
        case Text(s) =>
          WriteStr(s);
        case Bytes(b) =>
          out := out + Ascii("{\"$bytes\":\"");
          out := out + Base64(b);
          out := out + Ascii("\"}");
        case Link(c) =>
          out := out + Ascii("{\"$link\":\"");
          out := out + CidText(c);
          out := out + Ascii("\"}");
        case _ =>
          assert false;
      }
    }

    /** `close`: the last comma makes way for the bracket. */
    method CloseBracket(len: nat, bracket: byte, ghost before: seq<byte>, ghost body: seq<byte>)
      requires out == before + body && (len > 0 <==> body != [])
      modifies this`out
      ensures out == before + Close(body, bracket)
    {
      if len > 0 {
        out := out[..|out| - 1];
        assert out == before + body[..|body| - 1];
      }
      out := out + [bracket];
    }

    /** `write_value`. */
    method WriteValue(dec: Decoder) returns (r: Result<(), CborError>)
      requires dec.Valid()
      modifies this, dec
      ensures dec.Valid() && old(dec.pos) <= dec.pos
      ensures Writes(DecodeValue(dec.buf, old(dec.pos), old(dec.depth)), r, old(out), out, old(float), float, dec.pos)
      ensures r.Ok? ==> dec.depth == old(dec.depth)
      decreases |dec.buf| - dec.pos, 0
    {
      hide DecodeValue, DecodeItems, DecodeEntries, RawItems, RawEntries, Flat, Sort, Quoted, FloatInItems, FloatInEntries, Close;
      var head :- dec.DecodeShallow();
      match head {
        case ShallowText(s) =>
          WriteStr(s);
        case Scalar(v) =>
          WriteScalar(v);
        case ShallowArray(len) =>
          r := WriteArray(dec, len);
          return;
        case ShallowMap(len) =>
          r := WriteMap(dec, len);
          return;
      }
      return Ok(());
    }

    /** The rest of an array, once its head is read and its level entered. */
    method WriteArray(dec: Decoder, len: nat) returns (r: Result<(), CborError>)
      requires dec.Valid() && dec.depth > 0
      modifies this, dec
      ensures dec.Valid() && old(dec.pos) <= dec.pos
      ensures Writes(AsArray(DecodeItems(dec.buf, old(dec.pos), old(dec.depth), len)), r, old(out), out, old(float), float, dec.pos)
      ensures r.Ok? ==> dec.depth == old(dec.depth) - 1
      decreases |dec.buf| - dec.pos, 1
    {
      hide DecodeValue, DecodeItems, RawText, FirstFloat, Close;
      out := out + [0x5b];
      ghost var items: seq<Value> := [];
      ghost var depth := dec.depth;
      PrependNothing(DecodeItems(dec.buf, dec.pos, depth, len));
      var i := 0;
      while i < len
        invariant i <= len && dec.Valid() && dec.depth == depth && old(dec.pos) <= dec.pos
        invariant |items| == i
        invariant DecodeItems(dec.buf, old(dec.pos), depth, len)
                  == Prepend(items, DecodeItems(dec.buf, dec.pos, depth, len - i))
        invariant out == old(out) + [0x5b] + RawItems(items)
        invariant float == OrElse(old(float), FloatInItems(items))
      {
        ItemsRow(dec.buf, old(dec.pos), dec.pos, depth, len, items, len - i);
        ghost var spec := DecodeValue(dec.buf, dec.pos, depth);
        var w := WriteValue(dec);
        if w.Err? {
          return w;
        }
        out := out + [0x2c];
        ItemWritten(items, spec.value.0);
        items := items + [spec.value.0];
        i := i + 1;
      }
      NoItemsLeft(dec.buf, dec.pos, depth, items);
      dec.Leave();
      CloseBracket(len, 0x5d, old(out) + [0x5b], RawItems(items));
      ArrayText(items);
      return Ok(());
    }

    /** The rest of a map, once its head is read and its level entered. */
    method WriteMap(dec: Decoder, len: nat) returns (r: Result<(), CborError>)
      requires dec.Valid() && dec.depth > 0
      modifies this, dec
      ensures dec.Valid() && old(dec.pos) <= dec.pos
      ensures Writes(AsMap(DecodeEntries(dec.buf, old(dec.pos), old(dec.depth), [], len)), r, old(out), out, old(float), float, dec.pos)
      ensures r.Ok? ==> dec.depth == old(dec.depth) - 1
      decreases |dec.buf| - dec.pos, 1
    {
      hide DecodeValue, DecodeEntries, ReadKey, RawText, RawEntries, FirstFloat, FloatInEntries, Close, Flat, Sort, Quoted, Hold, Ascending, MapSoFar;
      out := out + [0x7b];
      ghost var base := out;
      ghost var entries: seq<Keyed<Value>> := [];
      ghost var depth := dec.depth;
      var spans: seq<Keyed<Span>> := [];
      var previous: seq<byte> := [];
      var sorted := true;
      var lastKey: Option<seq<byte>> := None;
      PrependNothing(DecodeEntries(dec.buf, dec.pos, depth, previous, len));
      NothingWritten(base, float);
      var i := 0;
      while i < len
        invariant i <= len && dec.Valid() && dec.depth == depth && old(dec.pos) <= dec.pos && |entries| == i
        invariant DecodeEntries(dec.buf, old(dec.pos), depth, [], len)
                  == Prepend(entries, DecodeEntries(dec.buf, dec.pos, depth, previous, len - i))
        invariant MapSoFar(base, out, spans, entries, old(float), float)
        invariant sorted <==> Ascending(Bytewise, spans)
        invariant lastKey == if spans == [] then None else Some(spans[|spans| - 1].key)
      {
        EntriesRow(dec.buf, old(dec.pos), dec.pos, depth, [], len, entries, previous, len - i);
        StillAfter(base, out, spans, entries, old(float), float);
        ghost var before, floatBefore := out, float;
        var keyStart := dec.pos;
        var key :- dec.NextKey(previous);
        previous := dec.buf[keyStart..dec.pos];
        sorted := sorted && (lastKey.None? || JsonKeyCmp(lastKey.value, key) == Less);
        lastKey := Some(key);
        var start := |out|;
        WriteStr(key);
        out := out + [0x3a];
        ghost var spec := DecodeValue(dec.buf, dec.pos, depth);
        var w := WriteValue(dec);
        if w.Err? {
          return w;
        }
        out := out + [0x2c];
        EntryDone(base, before, out, spans, entries, old(float), floatBefore, float, key, spec.value.0);
        spans := spans + [Keyed(key, Span(start, |out|))];
        entries := entries + [Keyed(key, spec.value.0)];
        i := i + 1;
      }
      NoEntriesLeft(dec.buf, dec.pos, depth, previous, entries);
      AllWritten(base, out, spans, entries, old(float), float);
      dec.Leave();
      ghost var texts := RawEntries(entries);
      if sorted {
        AlreadySorted(out, |base|, spans, texts);
      } else {
        SortEntries(spans, base, texts);
      }
      MapText(entries);
      CloseBracket(len, 0x7d, base, Flat(Sort(Bytewise, texts)));
      return Ok(());
    }

    /** `sort_entries`: the entries copied in order past the end of the buffer, then back over the originals. */
    method SortEntries(spans: seq<Keyed<Span>>, ghost base: seq<byte>, ghost texts: seq<Keyed<seq<byte>>>)
      requires Hold(out, |base|, spans, texts) && out == base + Flat(texts)
      requires spans != [] ==> spans[0].value.start == |base|
      modifies this`out
      ensures out == base + Flat(Sort(Bytewise, texts))
    {
      hide Flat, Sort;
      if spans == [] {
        NothingToSort(texts);
        return;
      }
      var start, end := spans[0].value.start, |out|;
      var order := Sort(Bytewise, spans);
      ghost var ts := Sort(Bytewise, texts);
      SortHold(out, |base|, spans, texts);
      var i := 0;
      while i < |order|
        invariant i <= |order| && old(out) <= out
        invariant out + Flat(ts[i..]) == old(out) + Flat(ts)
      {
        var e := order[i].value;
        assert old(out)[e.start..e.end] == ts[i].value;
        assert out[..end] == old(out);
        assert out[e.start..e.end] == old(out)[e.start..e.end];
        FlatStep(out, ts[i..]);
        assert ts[i..][1..] == ts[i + 1..];
        out := out + out[e.start..e.end];
        i := i + 1;
      }
      NothingFlat(out, ts[i..]);
      SortFlat(texts);
      assert out == base + Flat(texts) + Flat(ts);
      var copied := out[end..];
      out := out[..start] + copied + out[start + |copied|..];
      out := out[..end];
    }
  }

  /** The entries so far, written one after another from `base` on, and the first float among them. */
  ghost predicate MapSoFar(base: seq<byte>, out: seq<byte>, spans: seq<Keyed<Span>>, entries: seq<Keyed<Value>>,
      floatBefore: Option<u64>, float: Option<u64>)
  {
    && |spans| == |entries| && out == base + Flat(RawEntries(entries))
    && Hold(out, |base|, spans, RawEntries(entries))
    && (spans != [] ==> spans[0].value.start == |base|)
    && float == OrElse(floatBefore, FloatInEntries(entries))
  }

  lemma NothingWritten(base: seq<byte>, float: Option<u64>)
    ensures MapSoFar(base, base, [], [], float, float) && Ascending<Span>(Bytewise, [])
  {
  }

  lemma StillAfter(base: seq<byte>, out: seq<byte>, spans: seq<Keyed<Span>>, entries: seq<Keyed<Value>>,
      floatBefore: Option<u64>, float: Option<u64>)
    requires MapSoFar(base, out, spans, entries, floatBefore, float)
    ensures base <= out
  {
  }

  lemma AllWritten(base: seq<byte>, out: seq<byte>, spans: seq<Keyed<Span>>, entries: seq<Keyed<Value>>,
      floatBefore: Option<u64>, float: Option<u64>)
    requires MapSoFar(base, out, spans, entries, floatBefore, float)
    ensures out == base + Flat(RawEntries(entries)) && Hold(out, |base|, spans, RawEntries(entries))
    ensures spans != [] ==> spans[0].value.start == |base|
    ensures float == OrElse(floatBefore, FloatInEntries(entries))
  {
  }

  lemma NothingToSort(texts: seq<Keyed<seq<byte>>>)
    requires texts == []
    ensures Flat(Sort(Bytewise, texts)) == Flat(texts)
  {
  }

  lemma NothingFlat(out: seq<byte>, texts: seq<Keyed<seq<byte>>>)
    requires texts == []
    ensures out + Flat(texts) == out
  {
  }

  lemma FlatStep(out: seq<byte>, texts: seq<Keyed<seq<byte>>>)
    requires texts != []
    ensures out + Flat(texts) == out + texts[0].value + Flat(texts[1..])
  {
  }

  lemma AlreadySorted(out: seq<byte>, low: nat, spans: seq<Keyed<Span>>, texts: seq<Keyed<seq<byte>>>)
    requires Hold(out, low, spans, texts) && Ascending(Bytewise, spans)
    ensures Sort(Bytewise, texts) == texts
  {
    hide Sort, KeyCmp;
    AscendingIsStrict(Bytewise, spans);
    SortOfSorted(Bytewise, texts);
  }

  /** One entry written: key, colon, value, comma. */
  lemma EntryDone(base: seq<byte>, before: seq<byte>, out: seq<byte>, spans: seq<Keyed<Span>>, entries: seq<Keyed<Value>>,
      start: Option<u64>, floatBefore: Option<u64>, float: Option<u64>, key: seq<byte>, v: Value)
    requires MapSoFar(base, before, spans, entries, start, floatBefore)
    requires out == before + Quoted(key) + [0x3a] + RawText(v) + [0x2c] && float == OrElse(floatBefore, FirstFloat(v))
    ensures MapSoFar(base, out, spans + [Keyed(key, Span(|before|, |out|))], entries + [Keyed(key, v)], start, float)
    ensures Ascending(Bytewise, spans + [Keyed(key, Span(|before|, |out|))]) <==>
            Ascending(Bytewise, spans) && (spans != [] ==> JsonKeyCmp(spans[|spans| - 1].key, key) == Less)
  {
    hide Hold, RawEntries, RawText, FirstFloat, FloatInEntries, Quoted, Ascending, Flat, KeyCmp, JsonKeyCmp;
    EntryWritten(entries, Keyed(key, v));
    FlatSnoc(RawEntries(entries), Keyed(key, EntryText(key, v)));
    assert out == before + EntryText(key, v);
    assert base + Flat(RawEntries(entries)) + EntryText(key, v) == base + (Flat(RawEntries(entries)) + EntryText(key, v));
    HoldExtended(before, out, |base|, spans, RawEntries(entries), key, EntryText(key, v));
    AscendingSnoc(spans, Keyed(key, Span(|before|, |out|)));
    FirstAtBase(base, before, spans, entries);
    if spans != [] {
      JsonKeyOrder(spans[|spans| - 1].key, key);
    }
  }

  lemma FirstAtBase(base: seq<byte>, out: seq<byte>, spans: seq<Keyed<Span>>, entries: seq<Keyed<Value>>)
    requires |spans| == |entries| && out == base + Flat(RawEntries(entries))
    ensures spans == [] ==> out == base
  {
  }

  /** The reference result: the printed tree, or the error of decoding or converting. */
  function ReferenceText(data: seq<byte>): Result<seq<byte>, CborError> {
    var j :- DrislToJsonTree(data);
    Ok(Print(j))
  }

  lemma ReferenceIsRaw(data: seq<byte>)
    ensures match Decode(data)
            case Err(e) => ReferenceText(data) == Err(e)
            case Ok(v) =>
              match FirstFloat(v)
              case Some(bits) => ReferenceText(data) == Err(FloatOutsideModel(bits))
              case None => ReferenceText(data) == Ok(RawText(v))
  {
    hide DecodeValue, Print, RawText, FirstFloat, ValueToJson;
    if Decode(data).Ok? {
      var v := Decode(data).value;
      ValueSound(data, 0, 0);
      ConvertsUnlessFloat(v, 0);
      if FirstFloat(v).None? {
        RawIsPrinted(v, 0);
      }
    }
  }

  /** `write_document`. */
  method WriteDocument(data: seq<byte>, out: seq<byte>) returns (r: Result<(), CborError>, written: seq<byte>)
    ensures out <= written
    ensures match ReferenceText(data)
            case Err(e) => r == Err(e)
            case Ok(text) => r == Ok(()) && written == out + text
  {
    hide DecodeValue, RawText, FirstFloat, ReferenceText;
    ReferenceIsRaw(data);
    var w := new JsonWriter(out);
    var dec := new Decoder(data);
    r := w.WriteValue(dec);
    written := w.out;
    if r.Err? {
      return;
    }
    if !dec.IsEmpty() {
      r := Err(Fail(TrailingData));
      return;
    }
    match w.float {
      case Some(bits) => r := Err(FloatOutsideModel(bits));
      case None => r := Ok(());
    }
  }

  /** `drisl_to_json_into`: on failure the buffer is as it was. */
  method DrislToJsonInto(data: seq<byte>, out: seq<byte>) returns (r: Result<(), CborError>, after: seq<byte>)
    ensures match ReferenceText(data)
            case Err(e) => r == Err(e) && after == out
            case Ok(text) => r == Ok(()) && after == out + text
  {
    hide ReferenceText;
    r, after := WriteDocument(data, out);
    if r.Err? {
      after := after[..|out|];
    }
  }
}
