/**
 A reader of compact JSON text, by the grammar of RFC 8259 and nothing of the writer: what the conversion from DRISL
 writes is read back as the tree it stands for. Half a surrogate pair, a fraction, an exponent and white space are not
 read; the writer makes none.
 */
module JsonReader {
  import opened Wrappers
  import opened Bytes
  import opened KeyedLists
  import opened Utf8
  import opened DecodeSpec
  import Drisl
  import opened JsonTree
  import opened JsonText
  import opened DrislToJson
  import JsonRoundTrip

  // ---------- Strings ----------

  /** What a letter after a backslash stands for (RFC 8259, section 7). */
  function Unescaped(letter: byte): Option<byte> {
    match letter
    case 0x22 => Some(0x22)
    case 0x5c => Some(0x5c)
    case 0x2f => Some(0x2f)
    case 0x62 => Some(0x08)
    case 0x66 => Some(0x0c)
    case 0x6e => Some(0x0a)
    case 0x72 => Some(0x0d)
    case 0x74 => Some(0x09)
    case _ => None
  }

  function HexValue(b: byte): Option<nat> {
    if 0x30 <= b <= 0x39 then Some(b - 0x30)
    else if 0x41 <= b <= 0x46 then Some(b - 0x41 + 10)
    else if 0x61 <= b <= 0x66 then Some(b - 0x61 + 10)
    else None
  }

  function HexNumber(t: seq<byte>): Option<nat> {
    if t == [] then Some(0)
    else match (HexNumber(t[..|t| - 1]), HexValue(t[|t| - 1]))
      case (Some(n), Some(d)) => Some(16 * n + d)
      case _ => None
  }

  type Text = Option<(seq<byte>, seq<byte>)>

  function Before(s: seq<byte>, r: Text): Text {
    match r
    case Some((more, rest)) => Some((s + more, rest))
    case None => None
  }

  /** The characters of a string up to its closing quote, and the text after that. */
  function ReadChars(t: seq<byte>): (r: Text)
    ensures r.Some? ==> |r.value.1| < |t|
    decreases |t|
  {
    if t == [] then None
    else if t[0] == 0x22 then Some(([], t[1..]))
    else if t[0] < 0x20 then None
    else if t[0] != 0x5c then Before([t[0]], ReadChars(t[1..]))
    else if |t| < 2 then None
    else if t[1] != 0x75 then
      match Unescaped(t[1])
      case Some(b) => Before([b], ReadChars(t[2..]))
      case None => None
    else if |t| < 6 then None
    else
      match HexNumber(t[2..6])
      case Some(c) => if ScalarValue(c) then Before(EncodeScalar(c), ReadChars(t[6..])) else None
      case None => None
  }

  function ReadString(t: seq<byte>): (r: Text)
    ensures r.Some? ==> |r.value.1| < |t|
  {
    if t != [] && t[0] == 0x22 then ReadChars(t[1..]) else None
  }

  lemma EscapeIsRead(b: byte, more: seq<byte>)
    ensures ReadChars(Escape(b) + more) == Before([b], ReadChars(more))
  {
    var t := Escape(b) + more;
    if b == 0x22 || b == 0x5c || b == 0x08 || b == 0x09 || b == 0x0a || b == 0x0c || b == 0x0d {
      assert t[2..] == more;
    } else if b < 0x20 {
      assert t[2..6] == [0x30, 0x30, Hex(b / 16), Hex(b % 16)] && t[6..] == more;
      HexIsRead(b);
    } else {
      assert t[1..] == more;
    }
  }

  lemma HexIsRead(b: byte)
    ensures HexNumber([0x30, 0x30, Hex(b / 16), Hex(b % 16)]) == Some(b)
  {
    var t := [0x30, 0x30, Hex(b / 16), Hex(b % 16)];
    assert t[..3] == [0x30, 0x30, Hex(b / 16)] && t[..3][..2] == [0x30, 0x30] && t[..3][..2][..1] == [0x30];
    assert t[..3][..2][..1][..0] == [];
    assert HexNumber([0x30]) == Some(0);
    assert HexNumber([0x30, 0x30]) == Some(0);
    assert HexNumber([0x30, 0x30, Hex(b / 16)]) == Some(b / 16);
  }

  lemma {:induction false} CharsAreRead(s: seq<byte>, rest: seq<byte>)
    ensures ReadChars(Escaped(s) + [0x22] + rest) == Some((s, rest))
  {
    if s == [] {
      assert Escaped(s) + [0x22] + rest == [0x22] + rest;
    } else {
      hide Escape, ReadChars;
      var tail := Escaped(s[1..]) + [0x22] + rest;
      assert Escaped(s) + [0x22] + rest == Escape(s[0]) + tail;
      EscapeIsRead(s[0], tail);
      CharsAreRead(s[1..], rest);
      assert s == [s[0]] + s[1..];
    }
  }

  /** A string that was written is read back as the same string, whatever follows. */
  lemma StringIsRead(s: seq<byte>, rest: seq<byte>)
    ensures ReadString(Quoted(s) + rest) == Some((s, rest))
  {
    CharsAreRead(s, rest);
    assert (Quoted(s) + rest)[1..] == Escaped(s) + [0x22] + rest;
  }

  /** No control character stands in a string that was written. */
  lemma {:induction false} NoControls(s: seq<byte>)
    ensures forall i :: 0 <= i < |Escaped(s)| ==> Escaped(s)[i] >= 0x20
  {
    if s != [] {
      NoControls(s[1..]);
    }
  }

  /** An escape is as short as the table allows: the byte itself, a letter, or the six bytes of a code in lower case. */
  lemma EscapeLength(b: byte)
    ensures Escape(b) == [b] <==> b >= 0x20 && b != 0x22 && b != 0x5c
    ensures |Escape(b)| in {1, 2, 6} && (|Escape(b)| == 1 <==> Escape(b) == [b])
    ensures |Escape(b)| == 2 <==> (b < 0x20 || b == 0x22 || b == 0x5c) && HasLetter(b)
    ensures b < 0x20 ==> Escape(b)[0] == 0x5c && forall i :: 1 <= i < |Escape(b)| ==> IsDigit(Escape(b)[i]) || 0x61 <= Escape(b)[i] <= 0x7a
  {
    Letters(b);
    hide HasLetter;
  }

  ghost predicate HasLetter(b: byte) {
    exists letter: byte :: Unescaped(letter) == Some(b)
  }

  lemma Letters(b: byte)
    ensures HasLetter(b)
            <==> b == 0x22 || b == 0x5c || b == 0x2f || b == 0x08 || b == 0x0c || b == 0x0a || b == 0x0d || b == 0x09
  {
    assert Unescaped(0x22) == Some(0x22) && Unescaped(0x5c) == Some(0x5c) && Unescaped(0x62) == Some(0x08);
    assert Unescaped(0x66) == Some(0x0c) && Unescaped(0x6e) == Some(0x0a) && Unescaped(0x72) == Some(0x0d);
    assert Unescaped(0x74) == Some(0x09) && Unescaped(0x2f) == Some(0x2f);
  }

  // ---------- Numbers ----------

  predicate IsDigit(b: byte) {
    0x30 <= b <= 0x39
  }

  /** The number of digits that start a text. */
  function DigitRun(t: seq<byte>): (k: nat)
    ensures k <= |t| && forall i :: 0 <= i < k ==> IsDigit(t[i])
    ensures k < |t| ==> !IsDigit(t[k])
  {
    if t == [] || !IsDigit(t[0]) then 0 else 1 + DigitRun(t[1..])
  }

  function DecimalValue(s: seq<byte>): nat
    requires forall i :: 0 <= i < |s| ==> IsDigit(s[i])
  {
    if s == [] then 0
    else
      var last: nat := s[|s| - 1];
      assert IsDigit(s[|s| - 1]);
      10 * DecimalValue(s[..|s| - 1]) + (last - 0x30)
  }

  /** A number without a leading zero, and the text after it. */
  function ReadDigits(t: seq<byte>): (r: Option<(nat, seq<byte>)>)
    ensures r.Some? ==> |r.value.1| < |t|
  {
    var k := DigitRun(t);
    if k == 0 || (t[0] == 0x30 && k > 1) then None else Some((DecimalValue(t[..k]), t[k..]))
  }

  /** What may follow a number. */
  predicate Stops(rest: seq<byte>) {
    rest == [] || !IsDigit(rest[0])
  }

  lemma {:induction false} DecimalIs(n: nat)
    ensures var d := Decimal(n);
            && (forall i :: 0 <= i < |d| ==> IsDigit(d[i])) && DecimalValue(d) == n
            && (d[0] == 0x30 ==> |d| == 1)
            && (n > 0 ==> d[0] != 0x30)
  {
    if n < 10 {
      assert Decimal(n)[..0] == [];
    } else {
      DecimalIs(n / 10);
      var d := Decimal(n);
      assert d[..|d| - 1] == Decimal(n / 10);
    }
  }

  lemma DigitsAreRead(n: nat, rest: seq<byte>)
    requires Stops(rest)
    ensures ReadDigits(Decimal(n) + rest) == Some((n, rest))
  {
    var d := Decimal(n);
    DecimalIs(n);
    hide Decimal, DecimalValue;
    RunOfDigits(d, rest);
    assert (d + rest)[..|d|] == d && (d + rest)[|d|..] == rest;
  }

  lemma {:induction false} RunOfDigits(d: seq<byte>, rest: seq<byte>)
    requires (forall i :: 0 <= i < |d| ==> IsDigit(d[i])) && Stops(rest)
    ensures DigitRun(d + rest) == |d|
  {
    if d == [] {
      assert d + rest == rest;
    } else {
      assert (d + rest)[1..] == d[1..] + rest;
      RunOfDigits(d[1..], rest);
    }
  }

  // ---------- Values ----------

  type Reading = Option<(Json, seq<byte>)>

  function Literal(t: seq<byte>, word: seq<byte>, j: Json): Reading {
    if word <= t then Some((j, t[|word|..])) else None
  }

  function ReadNumber(t: seq<byte>, negative: bool): (r: Reading)
    ensures r.Some? ==> |r.value.1| < |t|
  {
    match ReadDigits(t)
    case None => None
    case Some((n, rest)) =>
      if !negative then if n < U64_LIMIT then Some((JNumber(PosInt(n)), rest)) else None
      else if 0 < n <= I64_MAX + 1 then
        var i: i64 := 0 - n as int;
        Some((JNumber(NegInt(i)), rest))
      else None
  }

  function ReadValue(t: seq<byte>): (r: Reading)
    ensures r.Some? ==> |r.value.1| < |t|
    decreases |t|, 0
  {
    if t == [] then None
    else if t[0] == 0x6e then Literal(t, Ascii("null"), JNull)
    else if t[0] == 0x74 then Literal(t, Ascii("true"), JBool(true))
    else if t[0] == 0x66 then Literal(t, Ascii("false"), JBool(false))
    else if t[0] == 0x22 then
      match ReadString(t)
      case Some((s, rest)) => Some((JString(s), rest))
      case None => None
    else if t[0] == 0x5b then
      if |t| > 1 && t[1] == 0x5d then Some((JArray([]), t[2..]))
      else match ReadItems(t[1..])
        case Some((items, rest)) => Some((JArray(items), rest))
        case None => None
    else if t[0] == 0x7b then
      if |t| > 1 && t[1] == 0x7d then Some((JObject([]), t[2..]))
      else match ReadMembers(t[1..])
        case Some((members, rest)) => Some((JObject(members), rest))
        case None => None
    else if t[0] == 0x2d then ReadNumber(t[1..], true)
    else ReadNumber(t, false)
  }

  /** Items separated by commas, up to the closing bracket. */
  function ReadItems(t: seq<byte>): (r: Option<(seq<Json>, seq<byte>)>)
    ensures r.Some? ==> |r.value.1| < |t|
    decreases |t|, 1
  {
    match ReadValue(t)
    case None => None
    case Some((j, rest)) =>
      if rest == [] then None
      else if rest[0] == 0x5d then Some(([j], rest[1..]))
      else if rest[0] != 0x2c then None
      else match ReadItems(rest[1..])
        case Some((items, end)) => Some(([j] + items, end))
        case None => None
  }

  /** One member: a string, a colon, a value. */
  function ReadMember(t: seq<byte>): (r: Option<(Keyed<Json>, seq<byte>)>)
    ensures r.Some? ==> |r.value.1| < |t|
    decreases |t|, 1
  {
    match ReadString(t)
    case None => None
    case Some((key, rest)) =>
      if rest == [] || rest[0] != 0x3a then None
      else match ReadValue(rest[1..])
        case Some((j, end)) => Some((Keyed(key, j), end))
        case None => None
  }

  function ReadMembers(t: seq<byte>): (r: Option<(seq<Keyed<Json>>, seq<byte>)>)
    ensures r.Some? ==> |r.value.1| < |t|
    decreases |t|, 2
  {
    match ReadMember(t)
    case None => None
    case Some((m, rest)) =>
      if rest == [] then None
      else if rest[0] == 0x7d then Some(([m], rest[1..]))
      else if rest[0] != 0x2c then None
      else match ReadMembers(rest[1..])
        case Some((members, end)) => Some(([m] + members, end))
        case None => None
  }

  function ReadDocument(t: seq<byte>): Option<Json> {
    match ReadValue(t)
    case Some((j, rest)) => if rest == [] then Some(j) else None
    case None => None
  }

  // ---------- What is printed is read ----------

  /** The trees the conversion makes: no doubles, and one form for each integer. */
  predicate Readable(j: Json)
    decreases j
  {
    match j
    case JNumber(NegInt(i)) => i < 0
    case JNumber(Double(_)) => false
    case JArray(items) => forall i :: 0 <= i < |items| ==> Readable(items[i])
    case JObject(members) => forall i :: 0 <= i < |members| ==> Readable(members[i].value)
    case _ => true
  }

  lemma Words()
    ensures Ascii("null") == [0x6e, 0x75, 0x6c, 0x6c]
    ensures Ascii("true") == [0x74, 0x72, 0x75, 0x65]
    ensures Ascii("false") == [0x66, 0x61, 0x6c, 0x73, 0x65]
  {
  }

  lemma NumberStart(n: nat)
    ensures IsDigit(Decimal(n)[0])
  {
    DecimalIs(n);
  }

  /** Text of a value never starts with a closing bracket. */
  lemma PrintStart(j: Json)
    requires Readable(j)
    ensures |Print(j)| > 0 && Print(j)[0] != 0x5d
  {
    hide Decimal, Quoted, PrintItems, PrintMembers;
    match j {
      case JNull => Words();
      case JBool(_) => Words();
      case JNumber(PosInt(n)) => NumberStart(n);
      case JNumber(NegInt(i)) => assert SignedText(i)[0] == 0x2d;
      case JString(s) => QuotedStart(s);
      case _ =>
    }
  }

  lemma QuotedStart(s: seq<byte>)
    ensures |Quoted(s)| > 1 && Quoted(s)[0] == 0x22
  {
  }

  lemma NumberIsRead(num: Number, rest: seq<byte>)
    requires Readable(JNumber(num)) && Stops(rest)
    ensures ReadValue(Print(JNumber(num)) + rest) == Some((JNumber(num), rest))
  {
    hide Decimal, ReadDigits;
    match num {
      case PosInt(n) =>
        NumberStart(n);
        DigitsAreRead(n, rest);
        assert (Decimal(n) + rest)[0] == Decimal(n)[0];
      case NegInt(i) =>
        var n: nat := 0 - i as int;
        DigitsAreRead(n, rest);
        assert ([0x2d] + Decimal(n) + rest)[1..] == Decimal(n) + rest;
    }
  }

  /** The text of a tree is read back as the tree, whatever follows but more digits. */
  lemma {:induction false} ValueIsRead(j: Json, rest: seq<byte>)
    requires Readable(j) && Stops(rest)
    ensures ReadValue(Print(j) + rest) == Some((j, rest))
    decreases j, 0
  {
    hide ReadString, ReadItems, ReadMembers, ReadNumber, PrintItems, PrintMembers, Quoted, Decimal, SignedText;
    match j {
      case JNull => Words();
      case JBool(_) => Words();
      case JNumber(num) => NumberIsRead(num, rest);
      case JString(s) =>
        StringIsRead(s, rest);
        QuotedStart(s);
        assert (Quoted(s) + rest)[0] == Quoted(s)[0];
      case JArray(items) => ArrayIsRead(items, rest);
      case JObject(members) => ObjectIsRead(members, rest);
    }
  }

  lemma ArrayIsRead(items: seq<Json>, rest: seq<byte>)
    requires forall i :: 0 <= i < |items| ==> Readable(items[i])
    ensures ReadValue(Print(JArray(items)) + rest) == Some((JArray(items), rest))
    decreases items, 2
  {
    hide ReadString, ReadItems, ReadMembers, ReadNumber, Readable;
    var t := Print(JArray(items)) + rest;
    if items == [] {
      assert t == [0x5b, 0x5d] + rest && t[2..] == rest;
    } else {
      ItemsAreRead(items, rest);
      PrintStart(items[0]);
      hide Print;
      assert t[1..] == PrintItems(items) + [0x5d] + rest;
      assert |t[1..]| > 0 && t[1] == t[1..][0] == PrintItems(items)[0];
    }
  }

  lemma {:induction false} ItemsAreRead(items: seq<Json>, rest: seq<byte>)
    requires items != [] && forall i :: 0 <= i < |items| ==> Readable(items[i])
    ensures |PrintItems(items)| > 0 && |Print(items[0])| > 0 && PrintItems(items)[0] == Print(items[0])[0]
    ensures ReadItems(PrintItems(items) + [0x5d] + rest) == Some((items, rest))
    decreases items, 1
  {
    hide Print, ReadValue, Readable;
    var first, more := Print(items[0]), items[1..];
    PrintStart(items[0]);
    if more == [] {
      var tail := [0x5d] + rest;
      ValueIsRead(items[0], tail);
      assert PrintItems(items) + [0x5d] + rest == first + tail;
      assert tail[1..] == rest && items == [items[0]];
    } else {
      var later := PrintItems(more) + [0x5d] + rest;
      var tail := [0x2c] + later;
      ValueIsRead(items[0], tail);
      ItemsAreRead(more, rest);
      assert PrintItems(items) + [0x5d] + rest == first + tail;
      assert tail[1..] == later && items == [items[0]] + more;
    }
  }

  lemma ObjectIsRead(members: seq<Keyed<Json>>, rest: seq<byte>)
    requires forall i :: 0 <= i < |members| ==> Readable(members[i].value)
    ensures ReadValue(Print(JObject(members)) + rest) == Some((JObject(members), rest))
    decreases members, 2
  {
    hide ReadString, ReadItems, ReadMembers, ReadNumber, Readable;
    var t := Print(JObject(members)) + rest;
    if members == [] {
      assert t == [0x7b, 0x7d] + rest && t[2..] == rest;
    } else {
      MembersAreRead(members, rest);
      hide Print;
      assert t[1..] == PrintMembers(members) + [0x7d] + rest;
      assert |t[1..]| > 0 && t[1] == t[1..][0] == PrintMembers(members)[0];
    }
  }

  lemma MemberIsRead(m: Keyed<Json>, rest: seq<byte>)
    requires Readable(m.value) && Stops(rest)
    ensures |PrintMember(m)| > 0 && PrintMember(m)[0] == 0x22
    ensures ReadMember(PrintMember(m) + rest) == Some((m, rest))
    decreases m, 1
  {
    hide Print, ReadValue, ReadString, Readable, Quoted;
    var tail := [0x3a] + Print(m.value) + rest;
    QuotedStart(m.key);
    StringIsRead(m.key, tail);
    ValueIsRead(m.value, rest);
    assert PrintMember(m) + rest == Quoted(m.key) + tail;
    assert tail[1..] == Print(m.value) + rest;
  }

  lemma {:induction false} MembersAreRead(members: seq<Keyed<Json>>, rest: seq<byte>)
    requires members != [] && forall i :: 0 <= i < |members| ==> Readable(members[i].value)
    ensures |PrintMembers(members)| > 0 && PrintMembers(members)[0] == 0x22
    ensures ReadMembers(PrintMembers(members) + [0x7d] + rest) == Some((members, rest))
    decreases members, 1
  {
    hide Print, PrintMember, ReadMember, Readable;
    var first, more := PrintMember(members[0]), members[1..];
    if more == [] {
      var tail := [0x7d] + rest;
      MemberIsRead(members[0], tail);
      assert PrintMembers(members) + [0x7d] + rest == first + tail;
      assert tail[1..] == rest && members == [members[0]];
    } else {
      var later := PrintMembers(more) + [0x7d] + rest;
      var tail := [0x2c] + later;
      MemberIsRead(members[0], tail);
      MembersAreRead(more, rest);
      assert PrintMembers(members) + [0x7d] + rest == first + tail;
      assert tail[1..] == later && members == [members[0]] + more;
    }
  }

  // ---------- What the conversion writes ----------

  lemma {:induction false} ConvertedIsReadable(v: Drisl.Value)
    requires ValueToJson(v).Ok?
    ensures Readable(ValueToJson(v).value)
    decreases v
  {
    match v {
      case Array(items) => ItemsReadable(items);
      case Map(entries) =>
        EntriesReadable(entries);
        var js := EntriesToJson(entries).value;
        forall i | 0 <= i < |PutAll(js)| ensures Readable(PutAll(js)[i].value) {
          var m := JsonRoundTrip.PutAllOrigin(js, i);
        }
      case _ =>
    }
  }

  lemma {:induction false} ItemsReadable(items: seq<Drisl.Value>)
    requires ItemsToJson(items).Ok?
    ensures forall i :: 0 <= i < |ItemsToJson(items).value| ==> Readable(ItemsToJson(items).value[i])
    decreases items
  {
    hide ValueToJson, Readable;
    if items != [] {
      ConvertedIsReadable(items[0]);
      ItemsReadable(items[1..]);
    }
  }

  lemma {:induction false} EntriesReadable(entries: seq<Keyed<Drisl.Value>>)
    requires EntriesToJson(entries).Ok?
    ensures forall i :: 0 <= i < |EntriesToJson(entries).value| ==> Readable(EntriesToJson(entries).value[i].value)
    decreases entries
  {
    hide ValueToJson, Readable;
    if entries != [] {
      ConvertedIsReadable(entries[0].value);
      EntriesReadable(entries[1..]);
    }
  }

  /** The text that DRISL converts to is read back as the tree it converts to. */
  lemma TextIsRead(data: seq<byte>)
    requires ReferenceText(data).Ok?
    ensures DrislToJsonTree(data).Ok? && ReadDocument(ReferenceText(data).value) == Some(DrislToJsonTree(data).value)
  {
    hide Print, ReadValue, ValueToJson, Decode, Readable;
    var j := DrislToJsonTree(data).value;
    ConvertedIsReadable(Decode(data).value);
    ValueIsRead(j, []);
    assert Print(j) + [] == Print(j);
  }

  // ---------- The whole way as text ----------

  /** The tree that DRISL converts to lists no key twice, in bytewise order, so taking the last of each changes nothing. */
  lemma {:induction false} ConvertedIsTree(v: Drisl.Value)
    requires ValueToJson(v).Ok?
    ensures Tree(ValueToJson(v).value) == ValueToJson(v).value
    decreases v
  {
    hide PutAll;
    match v {
      case Bytes(b) => SingleIsTree(BYTES_KEY, Base64(b));
      case Link(c) => SingleIsTree(LINK_KEY, CidText(c));
      case Array(items) => ItemsAreTrees(items);
      case Map(entries) =>
        EntriesAreTrees(entries);
        var js := EntriesToJson(entries).value;
        forall i | 0 <= i < |PutAll(js)| ensures Tree(PutAll(js)[i].value) == PutAll(js)[i].value {
          var m := JsonRoundTrip.PutAllOrigin(js, i);
        }
        SameMembers(PutAll(js));
        PutAgain(js);
      case _ =>
    }
  }

  lemma SingleIsTree(key: seq<byte>, text: seq<byte>)
    ensures Tree(Single(key, text)) == Single(key, text)
  {
    var m := [Keyed(key, JString(text))];
    SameMembers(m);
    assert m[..0] == [] && PutAll(m[..0]) == [];
    assert PutAll(m) == m;
  }

  lemma {:induction false} SameMembers(members: seq<Keyed<Json>>)
    requires forall i :: 0 <= i < |members| ==> Tree(members[i].value) == members[i].value
    ensures TreeMembers(members) == members
  {
    hide Tree;
    if members != [] {
      SameMembers(members[1..]);
      assert members == [members[0]] + members[1..];
    }
  }

  lemma PutAgain(js: seq<Keyed<Json>>)
    ensures PutAll(PutAll(js)) == PutAll(js)
  {
    hide PutAll, Sort;
    PutAllCorrect(js, []);
    StrictIsDistinct(Bytewise, PutAll(js));
    DistinctMap(PutAll(js));
    SortOfSorted(Bytewise, PutAll(js));
  }

  lemma {:induction false} ItemsAreTrees(items: seq<Drisl.Value>)
    requires ItemsToJson(items).Ok?
    ensures TreeItems(ItemsToJson(items).value) == ItemsToJson(items).value
    decreases items
  {
    hide ValueToJson, Tree;
    if items != [] {
      ConvertedIsTree(items[0]);
      ItemsAreTrees(items[1..]);
      assert ItemsToJson(items).value[1..] == ItemsToJson(items[1..]).value;
    }
  }

  lemma {:induction false} EntriesAreTrees(entries: seq<Keyed<Drisl.Value>>)
    requires EntriesToJson(entries).Ok?
    ensures var js := EntriesToJson(entries).value; forall i :: 0 <= i < |js| ==> Tree(js[i].value) == js[i].value
    decreases entries
  {
    hide ValueToJson, Tree;
    if entries != [] {
      ConvertedIsTree(entries[0].value);
      EntriesAreTrees(entries[1..]);
    }
  }

  /**
   DRISL written as JSON text, read by the grammar and converted back is the same bytes exactly when its integers are
   allowed and none of its maps would be mistaken for a link or bytes.
   */
  lemma BackThroughText(codec: LinkCodec, integers: Integers, data: seq<byte>)
    requires JsonRoundTrip.Faithful(codec) && |data| < U64_LIMIT && ReferenceText(data).Ok?
    ensures var read := ReadDocument(ReferenceText(data).value);
            && read.Some?
            && (Reference(codec, integers, read.value) == Ok(data)
                <==> JsonRoundTrip.Survives(codec, integers, Decode(data).value))
  {
    hide *;
    TextIsRead(data);
    TreeStays(data);
    JsonRoundTrip.BackToTheSameBytes(codec, integers, data);
    ReferenceOfTree(codec, integers, DrislToJsonTree(data).value);
  }

  lemma TreeStays(data: seq<byte>)
    requires DrislToJsonTree(data).Ok?
    ensures Tree(DrislToJsonTree(data).value) == DrislToJsonTree(data).value
  {
    hide Tree, ValueToJson, Decode;
    ConvertedIsTree(Decode(data).value);
  }

  lemma ReferenceOfTree(codec: LinkCodec, integers: Integers, j: Json)
    requires Tree(j) == j
    ensures Reference(codec, integers, j) == Encode(codec, integers, j)
  {
    hide Encode, Tree;
  }
}
