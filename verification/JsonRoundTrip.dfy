/**
 The two JSON conversions together: what JSON comes to is canonical DRISL, and what DRISL comes back as through JSON.
 */
module JsonRoundTrip {
  import opened Wrappers
  import opened Bytes
  import opened KeyedLists
  import opened Cids
  import opened Drisl
  import opened DecodeSpec
  import opened Canonicity
  import opened EncodeSpec
  import opened RoundTrip
  import opened JsonTree
  import opened DrislToJson
  import Utf8
  import BaseX

  type Valued = Result<Value, CborError>

  // ---------- The value a tree stands for ----------

  function SpecialValue(s: Special): Value {
    match s
    case SpecialCid(c) => Link(c)
    case SpecialBytes(b) => Bytes(b)
  }

  /** The value of a JSON tree, its maps in canonical order, or the error of the first part that has none. */
  function ValueOf(codec: LinkCodec, integers: Integers, j: Json): Valued
    decreases j
  {
    match j
    case JNull => Ok(Null)
    case JBool(b) => Ok(Bool(b))
    case JNumber(n) =>
      var i :- Integer(n, integers);
      Ok(if i >= 0 then Unsigned(i) else Signed(i))
    case JString(s) => Ok(Text(s))
    case JArray(items) =>
      var values :- ItemValues(codec, integers, items);
      Ok(Array(values))
    case JObject(members) =>
      var special :- SpecialOf(codec, members);
      if special.Some? then Ok(SpecialValue(special.value))
      else
        var entries :- Gather(Sort(LengthFirst, MemberValues(codec, integers, members)));
        Ok(Map(entries))
  }

  function ItemValues(codec: LinkCodec, integers: Integers, items: seq<Json>): Result<seq<Value>, CborError>
    decreases items
  {
    if items == [] then Ok([])
    else
      var first :- ValueOf(codec, integers, items[0]);
      var rest :- ItemValues(codec, integers, items[1..]);
      Ok([first] + rest)
  }

  function MemberValues(codec: LinkCodec, integers: Integers, members: seq<Keyed<Json>>): (r: seq<Keyed<Valued>>)
    ensures |r| == |members|
    decreases members
  {
    if members == [] then []
    else [Keyed(members[0].key, ValueOf(codec, integers, members[0].value))] + MemberValues(codec, integers, members[1..])
  }

  function Gather(members: seq<Keyed<Valued>>): Result<seq<Keyed<Value>>, CborError> {
    if members == [] then Ok([])
    else
      var first :- members[0].value;
      var rest :- Gather(members[1..]);
      Ok([Keyed(members[0].key, first)] + rest)
  }

  // ---------- The encoding of a tree is the encoding of its value ----------

  function EncValued(v: Valued): Encoding {
    match v
    case Ok(value) => Ok(Enc(value))
    case Err(e) => Err(e)
  }

  ghost predicate Encodes(k: seq<byte>, v: Valued, e: Encoding) {
    e == EncValued(v)
  }

  lemma {:induction false} EncodesItsValue(codec: LinkCodec, integers: Integers, j: Json)
    ensures Encode(codec, integers, j) == EncValued(ValueOf(codec, integers, j))
    decreases j, 0
  {
    hide Head, Sort;
    match j {
      case JArray(items) => EncodesItems(codec, integers, items);
      case JObject(members) =>
        EncodesMembers(codec, integers, members);
        EncodesObject(codec, integers, members);
      case _ =>
    }
  }

  lemma EncodesObject(codec: LinkCodec, integers: Integers, members: seq<Keyed<Json>>)
    requires Aligned(Encodes, MemberValues(codec, integers, members), EncodeMembers(codec, integers, members))
    ensures Encode(codec, integers, JObject(members)) == EncValued(ValueOf(codec, integers, JObject(members)))
  {
    hide Head, Sort, SpecialOf, Join, Gather, EncodeMembers, MemberValues, EncEntries, EncBytes, EncLink, Aligned;
    match SpecialOf(codec, members) {
      case Err(e) =>
      case Ok(Some(s)) =>
      case Ok(None) => EncodesBody(codec, integers, members);
    }
  }

  lemma EncodesBody(codec: LinkCodec, integers: Integers, members: seq<Keyed<Json>>)
    requires Aligned(Encodes, MemberValues(codec, integers, members), EncodeMembers(codec, integers, members))
    ensures var gathered := Gather(Sort(LengthFirst, MemberValues(codec, integers, members)));
            && Join(Sort(LengthFirst, EncodeMembers(codec, integers, members)))
               == (match gathered { case Ok(es) => Ok(EncEntries(es)) case Err(e) => Err(e) })
            && (gathered.Ok? ==> |gathered.value| == |members|)
  {
    hide Sort, Enc, Encode, ValueOf;
    var a, b := MemberValues(codec, integers, members), EncodeMembers(codec, integers, members);
    SortAligned(Encodes, LengthFirst, a, b);
    JoinsGathered(Sort(LengthFirst, a), Sort(LengthFirst, b));
  }

  lemma {:induction false} EncodesItems(codec: LinkCodec, integers: Integers, items: seq<Json>)
    ensures EncodeItems(codec, integers, items)
            == match ItemValues(codec, integers, items) { case Ok(vs) => Ok(EncItems(vs)) case Err(e) => Err(e) }
    ensures ItemValues(codec, integers, items).Ok? ==> |ItemValues(codec, integers, items).value| == |items|
    decreases items, 1
  {
    hide Encode, ValueOf, Enc;
    if items != [] {
      EncodesItsValue(codec, integers, items[0]);
      EncodesItems(codec, integers, items[1..]);
      if ItemValues(codec, integers, items).Ok? {
        var vs := ItemValues(codec, integers, items).value;
        assert vs[1..] == ItemValues(codec, integers, items[1..]).value;
      }
    }
  }

  lemma {:induction false} EncodesMembers(codec: LinkCodec, integers: Integers, members: seq<Keyed<Json>>)
    ensures Aligned(Encodes, MemberValues(codec, integers, members), EncodeMembers(codec, integers, members))
    decreases members, 1
  {
    hide Encode, ValueOf, Enc;
    if members != [] {
      EncodesItsValue(codec, integers, members[0].value);
      EncodesMembers(codec, integers, members[1..]);
    }
  }

  lemma {:induction false} JoinsGathered(a: seq<Keyed<Valued>>, b: seq<Keyed<Encoding>>)
    requires Aligned(Encodes, a, b)
    ensures Join(b) == match Gather(a) { case Ok(es) => Ok(EncEntries(es)) case Err(e) => Err(e) }
    ensures Gather(a).Ok? ==> |Gather(a).value| == |a|
  {
    hide Enc, EncText;
    if a != [] {
      assert Encodes(a[0].key, a[0].value, b[0].value);
      assert Aligned(Encodes, a[1..], b[1..]);
      JoinsGathered(a[1..], b[1..]);
      if Gather(a).Ok? {
        assert Gather(a).value[1..] == Gather(a[1..]).value;
      }
    }
  }

  // ---------- JSON to DRISL is canonical ----------

  /** A tree: no object lists a key twice. */
  ghost predicate IsTree(j: Json)
    decreases j
  {
    match j
    case JArray(items) => forall i :: 0 <= i < |items| ==> IsTree(items[i])
    case JObject(members) => Distinct(members) && forall i :: 0 <= i < |members| ==> IsTree(members[i].value)
    case _ => true
  }

  lemma {:induction false} ItemValuesAt(codec: LinkCodec, integers: Integers, items: seq<Json>)
    requires ItemValues(codec, integers, items).Ok?
    ensures var vs := ItemValues(codec, integers, items).value;
            |vs| == |items| && forall i :: 0 <= i < |items| ==> ValueOf(codec, integers, items[i]) == Ok(vs[i])
  {
    hide ValueOf;
    if items != [] {
      ItemValuesAt(codec, integers, items[1..]);
      var vs, more := ItemValues(codec, integers, items).value, ItemValues(codec, integers, items[1..]).value;
      forall i | 0 <= i < |items| ensures ValueOf(codec, integers, items[i]) == Ok(vs[i]) {
        if i > 0 {
          assert items[i] == items[1..][i - 1] && vs[i] == more[i - 1];
        }
      }
    }
  }

  lemma {:induction false} MemberValuesAt(codec: LinkCodec, integers: Integers, members: seq<Keyed<Json>>, i: nat)
    requires i < |members|
    ensures MemberValues(codec, integers, members)[i] == Keyed(members[i].key, ValueOf(codec, integers, members[i].value))
  {
    hide ValueOf;
    if i > 0 {
      MemberValuesAt(codec, integers, members[1..], i - 1);
    }
  }

  lemma {:induction false} GatherAt(members: seq<Keyed<Valued>>)
    requires Gather(members).Ok?
    ensures var es := Gather(members).value;
            |es| == |members| && forall i :: 0 <= i < |es| ==> es[i].key == members[i].key && members[i].value == Ok(es[i].value)
  {
    if members != [] {
      GatherAt(members[1..]);
      var es, more := Gather(members).value, Gather(members[1..]).value;
      forall i | 0 <= i < |es| ensures es[i].key == members[i].key && members[i].value == Ok(es[i].value) {
        if i > 0 {
          assert members[i] == members[1..][i - 1] && es[i] == more[i - 1];
        }
      }
    }
  }

  /** Every entry of an object's value comes from one of its members, and the keys are in strict canonical order. */
  lemma ObjectEntries(codec: LinkCodec, integers: Integers, members: seq<Keyed<Json>>)
    requires Distinct(members)
    ensures var sorted := Sort(LengthFirst, MemberValues(codec, integers, members));
            && StrictlySorted(LengthFirst, sorted)
            && forall i :: 0 <= i < |sorted| ==>
                 exists m :: 0 <= m < |members| && sorted[i] == Keyed(members[m].key, ValueOf(codec, integers, members[m].value))
  {
    hide ValueOf, Sort;
    var values := MemberValues(codec, integers, members);
    forall i | 0 <= i < |members| ensures values[i] == Keyed(members[i].key, ValueOf(codec, integers, members[i].value)) {
      MemberValuesAt(codec, integers, members, i);
    }
    DistinctSort(LengthFirst, values);
    var sorted := Sort(LengthFirst, values);
    forall i | 0 <= i < |sorted|
      ensures exists m :: 0 <= m < |members| && sorted[i] == Keyed(members[m].key, ValueOf(codec, integers, members[m].value))
    {
      var m := SortOrigin(LengthFirst, values, i);
      assert sorted[i] == values[m];
    }
  }

  /** The value of a tree is sorted, and its numbers are in the one form they are decoded to. */
  lemma {:induction false} ValueIsNormal(codec: LinkCodec, integers: Integers, j: Json)
    requires IsTree(j) && ValueOf(codec, integers, j).Ok?
    ensures var v := ValueOf(codec, integers, j).value; Normal(v) == v && AllFinite(v)
    decreases j
  {
    hide Sort;
    match j {
      case JArray(items) =>
        ItemValuesAt(codec, integers, items);
        var vs := ItemValues(codec, integers, items).value;
        forall i | 0 <= i < |vs| ensures Normal(vs[i]) == vs[i] && AllFinite(vs[i]) {
          ValueIsNormal(codec, integers, items[i]);
        }
        NormalList(vs);
      case JObject(members) =>
        var special := SpecialOf(codec, members);
        if special.Ok? && special.value.None? {
          ObjectEntries(codec, integers, members);
          var sorted := Sort(LengthFirst, MemberValues(codec, integers, members));
          GatherAt(sorted);
          var es := Gather(sorted).value;
          forall i | 0 <= i < |es| ensures Normal(es[i].value) == es[i].value && AllFinite(es[i].value) {
            var m :| 0 <= m < |members| && sorted[i] == Keyed(members[m].key, ValueOf(codec, integers, members[m].value));
            ValueIsNormal(codec, integers, members[m].value);
          }
          NormalMap(es);
        }
      case _ =>
    }
  }

  lemma {:induction false} NormalList(vs: seq<Value>)
    requires forall i :: 0 <= i < |vs| ==> Normal(vs[i]) == vs[i] && AllFinite(vs[i])
    ensures NormalItems(vs) == vs && AcceptsItems(true, vs)
  {
    hide Normal, Accepts;
    if vs != [] {
      forall i | 0 <= i < |vs[1..]| ensures Normal(vs[1..][i]) == vs[1..][i] && AllFinite(vs[1..][i]) {
        assert vs[1..][i] == vs[i + 1];
      }
      NormalList(vs[1..]);
    }
  }

  lemma NormalMap(es: seq<Keyed<Value>>)
    requires StrictlySorted(LengthFirst, es)
    requires forall i :: 0 <= i < |es| ==> Normal(es[i].value) == es[i].value && AllFinite(es[i].value)
    ensures Sort(LengthFirst, NormalEntries(es)) == es && AcceptsEntries(true, None, es)
  {
    hide Sort, Normal, Accepts;
    NormalMembers(None, es);
    SortOfSorted(LengthFirst, es);
  }

  lemma {:induction false} NormalMembers(prev: Option<seq<byte>>, es: seq<Keyed<Value>>)
    requires forall i :: 0 <= i < |es| ==> Normal(es[i].value) == es[i].value && AllFinite(es[i].value)
    ensures NormalEntries(es) == es && AcceptsEntries(true, prev, es)
    decreases |es|
  {
    hide Normal, Accepts, Follows;
    if es != [] {
      forall i | 0 <= i < |es[1..]| ensures Normal(es[1..][i].value) == es[1..][i].value && AllFinite(es[1..][i].value) {
        assert es[1..][i] == es[i + 1];
      }
      NormalMembers(Some(es[0].key), es[1..]);
      assert es == [es[0]] + es[1..];
    }
  }

  lemma {:induction false} TreeIsTree(e: Json)
    ensures IsTree(Tree(e))
    decreases e
  {
    hide PutAll;
    match e {
      case JArray(items) =>
        forall i | 0 <= i < |items| ensures IsTree(TreeItems(items)[i]) {
          TreeItemAt(items, i);
          TreeIsTree(items[i]);
        }
      case JObject(members) =>
        var ms := TreeMembers(members);
        PutAllCorrect(ms, []);
        StrictIsDistinct(Bytewise, PutAll(ms));
        forall i | 0 <= i < |PutAll(ms)| ensures IsTree(PutAll(ms)[i].value) {
          var m := PutAllOrigin(ms, i);
          TreeMemberAt(members, m);
          TreeIsTree(members[m].value);
        }
      case _ =>
    }
  }

  lemma {:induction false} TreeItemAt(items: seq<Json>, i: nat)
    requires i < |items|
    ensures TreeItems(items)[i] == Tree(items[i])
  {
    hide Tree;
    if i > 0 {
      TreeItemAt(items[1..], i - 1);
    }
  }

  lemma {:induction false} TreeMemberAt(members: seq<Keyed<Json>>, i: nat)
    requires i < |members|
    ensures TreeMembers(members)[i] == Keyed(members[i].key, Tree(members[i].value))
  {
    hide Tree;
    if i > 0 {
      TreeMemberAt(members[1..], i - 1);
    }
  }

  lemma {:induction false} PutOrigin(m: seq<Keyed<Json>>, x: Keyed<Json>, i: nat) returns (j: int)
    requires i < |Put(m, x)|
    ensures -1 <= j < |m| && Put(m, x)[i] == if j == -1 then x else m[j]
    decreases |m|
  {
    if m == [] {
      return -1;
    }
    match Compare(x.key, m[0].key) {
      case Less => j := i - 1;
      case Equal => j := if i == 0 then -1 else i;
      case Greater =>
        if i == 0 {
          j := 0;
        } else {
          j := PutOrigin(m[1..], x, i - 1);
          j := if j == -1 then -1 else j + 1;
        }
    }
  }

  lemma {:induction false} PutAllOrigin(s: seq<Keyed<Json>>, i: nat) returns (j: nat)
    requires i < |PutAll(s)|
    ensures j < |s| && PutAll(s)[i] == s[j]
    decreases |s|
  {
    hide Put;
    var p := PutOrigin(PutAll(s[..|s| - 1]), s[|s| - 1], i);
    if p == -1 {
      j := |s| - 1;
    } else {
      j := PutAllOrigin(s[..|s| - 1], p);
    }
  }

  /**
   What the conversion of a document gives is the canonical encoding of the value it stands for: it decodes exactly when
   the value is within the decoder's limits, and then to that value.
   */
  lemma OutputIsCanonical(codec: LinkCodec, integers: Integers, e: Json)
    requires Reference(codec, integers, e).Ok? && |Reference(codec, integers, e).value| < U64_LIMIT
    ensures var bytes := Reference(codec, integers, e).value;
            var v := ValueOf(codec, integers, Tree(e));
            && v.Ok? && bytes == Enc(v.value)
            && (Decode(bytes).Ok? <==> Fits(v.value, 0))
            && (Fits(v.value, 0) ==> Decode(bytes) == v)
  {
    hide Encode, ValueOf, Tree, Enc, Fits, Normal, Decode;
    EncodesItsValue(codec, integers, Tree(e));
    TreeIsTree(e);
    ValueIsNormal(codec, integers, Tree(e));
    var v := ValueOf(codec, integers, Tree(e)).value;
    ShortIsSized(v);
    EncodeThenDecode(v);
  }

  /** A value whose encoding fits in memory has only parts that do. */
  lemma {:induction false} ShortIsSized(v: Value)
    requires |Enc(v)| < U64_LIMIT
    ensures Sized(v)
    decreases v
  {
    hide Head;
    match v {
      case Array(items) => ShortItems(items);
      case Map(entries) => ShortEntries(entries);
      case _ =>
    }
  }

  lemma {:induction false} ShortItems(items: seq<Value>)
    requires |EncItems(items)| < U64_LIMIT
    ensures |items| <= |EncItems(items)| && SizedItems(items)
    decreases items
  {
    hide Enc, Sized;
    if items != [] {
      ShortIsSized(items[0]);
      ShortItems(items[1..]);
      assert forall i :: 0 < i < |items| ==> items[i] == items[1..][i - 1];
    }
  }

  lemma {:induction false} ShortEntries(entries: seq<Keyed<Value>>)
    requires |EncEntries(entries)| < U64_LIMIT
    ensures |entries| <= |EncEntries(entries)| && SizedEntries(entries)
    decreases entries
  {
    hide Enc, EncText, Sized;
    if entries != [] {
      ShortIsSized(entries[0].value);
      ShortEntries(entries[1..]);
      assert forall i :: 0 < i < |entries| ==> entries[i] == entries[1..][i - 1];
    }
  }

  // ---------- The texts of bytes and CIDs ----------

  /** `n` letters in a row. */
  function Row(first: byte, n: nat): (r: seq<byte>)
    requires first + n <= 0x100
    ensures |r| == n && forall i :: 0 <= i < n ==> r[i] == first + i
  {
    seq(n, i requires 0 <= i < n => first + i)
  }

  /** The alphabets of RFC 4648, sections 4 and 6: A to Z, a to z, 0 to 9, + and /; and a to z, 2 to 7. */
  const BASE64 := Row(0x41, 26) + Row(0x61, 26) + Row(0x30, 10) + [0x2b, 0x2f]
  const BASE32 := Row(0x61, 26) + Row(0x32, 6)

  /** The places of letters in an alphabet. */
  function Places(text: seq<byte>, alphabet: seq<byte>): Option<seq<nat>> {
    if text == [] then Some([])
    else match (BaseX.Digit(alphabet, text[0]), Places(text[1..], alphabet))
      case (Some(d), Some(more)) => Some([d] + more)
      case _ => None
  }

  /** Symbols of `w` bits each, the first highest. */
  function Joined(d: seq<nat>, w: nat): nat {
    if d == [] then 0 else Pow2(w) * Joined(d[..|d| - 1], w) + d[|d| - 1]
  }

  /** The bytes that symbols hold, if the bits left over are fewer than a symbol's and all zero. */
  function Held(d: seq<nat>, w: nat): Option<seq<byte>> {
    var bits := w * |d|;
    var pad := bits % 8;
    Pow2Positive(pad);
    if pad < w && Joined(d, w) % Pow2(pad) == 0 then Some(Be(Joined(d, w) / Pow2(pad), bits / 8)) else None
  }

  function ReadBase64(text: seq<byte>): Option<seq<byte>> {
    match Places(text, BASE64)
    case Some(d) => Held(d, 6)
    case None => None
  }

  /** A CID in the multibase form with the prefix `b`. */
  function ReadCidText(text: seq<byte>): Option<Cid> {
    if text == [] || text[0] != 0x62 then None
    else match Places(text[1..], BASE32)
      case None => None
      case Some(d) =>
        match Held(d, 5)
        case None => None
        case Some(b) => if FromBytes(b).Ok? then Some(FromBytes(b).value) else None
  }

  lemma {:induction false} Pow2Sum(a: nat, b: nat)
    ensures Pow2(a + b) == Pow2(a) * Pow2(b)
  {
    if a > 0 {
      Pow2Sum(a - 1, b);
      assert Pow2(a) == 2 * Pow2(a - 1) && Pow2(a + b) == 2 * Pow2(a - 1 + b);
      hide Pow2;
      Doubled(Pow2(a - 1), Pow2(b));
    }
  }

  lemma Doubled(x: nat, y: nat)
    ensures (2 * x) * y == 2 * (x * y)
  {
  }

  lemma {:induction false} Pow256IsPow2(k: nat)
    ensures Pow256(k) == Pow2(8 * k)
  {
    if k > 0 {
      Pow256IsPow2(k - 1);
      Pow2Sum(8, 8 * (k - 1));
      assert Pow2(8) == 256;
    }
  }

  lemma {:induction false} Pow2Positive(k: nat)
    ensures Pow2(k) > 0
  {
    if k > 0 {
      Pow2Positive(k - 1);
    }
  }

  lemma SymbolBits(five: bool, k: nat)
    requires k > 0
    ensures five ==> Pow2(5 * k) == 32 * Pow2(5 * (k - 1))
    ensures !five ==> Pow2(6 * k) == 64 * Pow2(6 * (k - 1))
    ensures Pow2(5) == 32 && Pow2(6) == 64
  {
    assert Pow2(5) == 32 && Pow2(6) == 64;
    var w := if five then 5 else 6;
    Pow2Sum(w, w * (k - 1));
    hide Pow2;
    assert w + w * (k - 1) == w * k;
  }

  lemma {:induction false} JoinedAgain(n: nat, five: bool, k: nat)
    requires n < Pow2((if five then 5 else 6) * k)
    ensures Joined(InSymbols(n, five, k), if five then 5 else 6) == n
  {
    hide Pow2;
    if k == 0 {
      NoBits();
    } else {
      SymbolBits(five, k);
      var d := InSymbols(n, five, k);
      if five {
        JoinedAgain(n / 32, five, k - 1);
        assert d[..k - 1] == InSymbols(n / 32, five, k - 1);
      } else {
        JoinedAgain(n / 64, five, k - 1);
        assert d[..k - 1] == InSymbols(n / 64, five, k - 1);
      }
    }
  }

  lemma NoBits()
    ensures Pow2(0) == 1
  {
  }

  lemma Scale(a: nat, b: nat, c: nat)
    requires a < b && c > 0
    ensures a * c < b * c
  {
  }

  lemma PaddedBits(b: seq<byte>, pad: nat)
    ensures FromBe(b) * Pow2(pad) < Pow2(8 * |b| + pad)
  {
    Pow256IsPow2(|b|);
    Pow2Sum(8 * |b|, pad);
    Pow2Positive(pad);
    hide FromBe, Pow2, Pow256;
    Scale(FromBe(b), Pow2(8 * |b|), Pow2(pad));
  }

  lemma RoundUp(n: nat)
    ensures 5 * ((n + 4) / 5) == n + (5 - n % 5) % 5 && 6 * ((n + 5) / 6) == n + (6 - n % 6) % 6
  {
    var q, r := n / 5, n % 5;
    assert n == 5 * q + r;
    if r == 0 {
      assert (n + 4) / 5 == q;
    } else {
      assert (n + 4) / 5 == q + 1;
    }
  }

  lemma Divided(n: nat, p: nat)
    requires p > 0
    ensures (n * p) % p == 0 && (n * p) / p == n
  {
    BaseX.LastDigit(n, 0, (n * p) / p, (n * p) % p, p);
  }

  lemma SymbolShape(b: seq<byte>, five: bool) returns (pad: nat, k: nat)
    ensures var w := if five then 5 else 6;
            w * k == 8 * |b| + pad && pad < w && Symbols(b, five) == InSymbols(FromBe(b) * Pow2(pad), five, k)
  {
    hide FromBe, Pow2, InSymbols;
    RoundUp(8 * |b|);
    if five {
      pad, k := (5 - 8 * |b| % 5) % 5, (8 * |b| + 4) / 5;
    } else {
      pad, k := (6 - 8 * |b| % 6) % 6, (8 * |b| + 5) / 6;
    }
  }

  /** Symbols whose number is that of some bytes, followed by fewer zero bits than a symbol has, hold the bytes. */
  lemma HeldOf(d: seq<nat>, w: nat, b: seq<byte>, pad: nat)
    requires w <= 8 && w * |d| == 8 * |b| + pad && pad < w && Joined(d, w) == FromBe(b) * Pow2(pad)
    ensures Held(d, w) == Some(b)
  {
    hide FromBe, Pow2, Joined, Be;
    Pow2Positive(pad);
    Divided(FromBe(b), Pow2(pad));
    BeOfFromBe(b);
    WholeBytes(w * |d|, |b|, pad);
  }

  lemma WholeBytes(bits: nat, n: nat, pad: nat)
    requires bits == 8 * n + pad && pad < 8
    ensures bits % 8 == pad && bits / 8 == n
  {
  }

  /** The symbols of a byte string hold it. */
  lemma SymbolsHold(b: seq<byte>, five: bool)
    ensures Held(Symbols(b, five), if five then 5 else 6) == Some(b)
  {
    hide FromBe, Pow2, Symbols, InSymbols, Joined, Held;
    var pad, k := SymbolShape(b, five);
    PaddedBits(b, pad);
    JoinedAgain(FromBe(b) * Pow2(pad), five, k);
    HeldOf(Symbols(b, five), if five then 5 else 6, b, pad);
  }

  lemma {:induction false} PlacesOf(text: seq<byte>, d: seq<nat>, alphabet: seq<byte>)
    requires |text| == |d| && forall i :: 0 <= i < |d| ==> BaseX.Digit(alphabet, text[i]) == Some(d[i])
    ensures Places(text, alphabet) == Some(d)
  {
    hide BaseX.Digit;
    if d != [] {
      PlacesOf(text[1..], d[1..], alphabet);
      assert d == [d[0]] + d[1..];
    }
  }

  lemma Base64Place(d: nat)
    requires d < 64
    ensures BaseX.Digit(BASE64, Base64Symbol(d)) == Some(d)
  {
    Letters64();
    hide BaseX.Digit, BASE64;
    var c := Base64Symbol(d);
    assert BASE64[d] == c;
    forall e | 0 <= e < 64 && BASE64[e] == c ensures e == d {
    }
  }

  lemma Letters64()
    ensures |BASE64| == 64 && forall d :: 0 <= d < 64 ==> BASE64[d] == Base64Symbol(d)
  {
  }

  lemma Base32Place(d: nat)
    requires d < 32
    ensures BaseX.Digit(BASE32, Base32Symbol(d)) == Some(d)
  {
    Letters32();
    hide BaseX.Digit, BASE32;
    var c := Base32Symbol(d);
    assert BASE32[d] == c;
    forall e | 0 <= e < 32 && BASE32[e] == c ensures e == d {
    }
  }

  lemma Letters32()
    ensures |BASE32| == 32 && forall d :: 0 <= d < 32 ==> BASE32[d] == Base32Symbol(d)
  {
  }

  /** Base64 text is read back, by the alphabet and the bits of RFC 4648, as the bytes it was written for. */
  lemma Base64IsRead(b: seq<byte>)
    ensures ReadBase64(Base64(b)) == Some(b)
  {
    hide Symbols, Held, BaseX.Digit, Base64Symbol, BASE64;
    var d := Symbols(b, false);
    forall i | 0 <= i < |d| ensures BaseX.Digit(BASE64, Base64(b)[i]) == Some(d[i]) {
      Base64Place(d[i]);
    }
    PlacesOf(Base64(b), d, BASE64);
    SymbolsHold(b, false);
  }

  /** The text of a CID is read back as that CID. */
  lemma CidTextIsRead(c: Cid)
    ensures ReadCidText(CidText(c)) == Some(c)
  {
    hide Symbols, Held, BaseX.Digit, Base32Symbol, BASE32, ToBytes, FromBytes;
    var d := Symbols(ToBytes(c), true);
    var text := CidText(c)[1..];
    forall i | 0 <= i < |d| ensures BaseX.Digit(BASE32, text[i]) == Some(d[i]) {
      Base32Place(d[i]);
    }
    PlacesOf(text, d, BASE32);
    SymbolsHold(ToBytes(c), true);
    CidBytes(ToBytes(c), c);
  }

  /** So no two byte strings have one base64 text, and no two CIDs one string. */
  lemma TextsInjective(a: seq<byte>, b: seq<byte>, c: Cid, d: Cid)
    ensures Base64(a) == Base64(b) ==> a == b
    ensures CidText(c) == CidText(d) ==> c == d
  {
    hide *;
    Base64IsRead(a);
    Base64IsRead(b);
    CidTextIsRead(c);
    CidTextIsRead(d);
  }

  // ---------- DRISL to JSON and back ----------

  /** What is assumed of the parsers of `$link` and `$bytes`: they read what the conversion to JSON writes. */
  ghost predicate Faithful(codec: LinkCodec) {
    && (forall c :: codec.parseLink(CidText(c)) == Ok(Some(c)))
    && (forall b :: codec.decodeBase64(Base64(b)) == Some(b))
  }

  /** There are such parsers: those that read the texts by their alphabets. */
  lemma FaithfulParsersExist()
    ensures Faithful(LinkCodec(t => Ok(ReadCidText(t)), t => ReadBase64(t)))
  {
    hide ReadCidText, ReadBase64, CidText, Base64;
    forall c ensures ReadCidText(CidText(c)) == Some(c) {
      CidTextIsRead(c);
    }
    forall b ensures ReadBase64(Base64(b)) == Some(b) {
      Base64IsRead(b);
    }
  }

  /** Whether a map would read as a link or as bytes, or as an error. */
  predicate Mistaken(codec: LinkCodec, entries: seq<Keyed<Value>>) {
    |entries| == 1 && entries[0].value.Text? && SpecialMember(codec, entries[0].key, entries[0].value.text) != Ok(None)
  }

  /** No integer outside the allowed range, and no map that would be mistaken. */
  predicate Survives(codec: LinkCodec, integers: Integers, v: Value)
    decreases v
  {
    match v
    case Unsigned(n) => integers.Any? || n <= MAX_SAFE_INTEGER
    case Signed(i) => integers.Any? || -MAX_SAFE_INTEGER <= i
    case Array(items) => forall i :: 0 <= i < |items| ==> Survives(codec, integers, items[i])
    case Map(entries) =>
      && !Mistaken(codec, entries)
      && forall i :: 0 <= i < |entries| ==> Survives(codec, integers, entries[i].value)
    case _ => true
  }

  lemma {:induction false} SurvivesIff(codec: LinkCodec, integers: Integers, v: Value, depth: nat)
    requires Faithful(codec) && Canonical(v, depth) && ValueToJson(v).Ok?
    ensures ValueOf(codec, integers, ValueToJson(v).value) == Ok(v) <==> Survives(codec, integers, v)
    decreases v
  {
    match v {
      case Bytes(b) => SingleBytes(codec, integers, b);
      case Link(c) => SingleLink(codec, integers, c);
      case Array(items) => ItemsSurvive(codec, integers, items, depth + 1);
      case Map(entries) => MapSurvives(codec, integers, entries, depth + 1);
      case _ =>
    }
  }

  lemma SingleBytes(codec: LinkCodec, integers: Integers, b: seq<byte>)
    requires Faithful(codec)
    ensures ValueOf(codec, integers, Single(BYTES_KEY, Base64(b))) == Ok(Bytes(b))
  {
    hide Base64;
    assert BYTES_KEY != LINK_KEY by {
      assert |BYTES_KEY| == 6 && |LINK_KEY| == 5;
    }
  }

  lemma SingleLink(codec: LinkCodec, integers: Integers, c: Cid)
    requires Faithful(codec)
    ensures ValueOf(codec, integers, Single(LINK_KEY, CidText(c))) == Ok(Link(c))
  {
    hide CidText;
  }

  lemma {:induction false} ItemsSurvive(codec: LinkCodec, integers: Integers, items: seq<Value>, depth: nat)
    requires Faithful(codec) && CanonicalItems(items, depth) && ItemsToJson(items).Ok?
    ensures ItemValues(codec, integers, ItemsToJson(items).value) == Ok(items)
            <==> forall i :: 0 <= i < |items| ==> Survives(codec, integers, items[i])
    decreases items
  {
    hide Canonical, ValueToJson, ValueOf, Survives, Faithful;
    if items != [] {
      SurvivesIff(codec, integers, items[0], depth);
      ItemsSurvive(codec, integers, items[1..], depth);
      var js := ItemsToJson(items).value;
      assert js[1..] == ItemsToJson(items[1..]).value;
      assert items == [items[0]] + items[1..];
      assert forall i :: 0 < i < |items| ==> items[i] == items[1..][i - 1];
      var values := ItemValues(codec, integers, js);
      if values == Ok(items) {
        assert values.value[0] == items[0] && values.value[1..] == items[1..];
      }
    }
  }

  lemma {:induction false} EntriesSurvive(codec: LinkCodec, integers: Integers, prev: Option<seq<byte>>,
                                          entries: seq<Keyed<Value>>, depth: nat)
    requires Faithful(codec) && CanonicalEntries(prev, entries, depth) && EntriesToJson(entries).Ok?
    ensures Gather(MemberValues(codec, integers, EntriesToJson(entries).value)) == Ok(entries)
            <==> forall i :: 0 <= i < |entries| ==> Survives(codec, integers, entries[i].value)
    decreases entries, 0
  {
    hide Canonical, ValueToJson, ValueOf, Survives, Faithful, Follows, MemberValues, Gather;
    if entries == [] {
      GatherNothing(codec, integers);
    } else {
      SurvivesIff(codec, integers, entries[0].value, depth);
      EntriesSurvive(codec, integers, Some(entries[0].key), entries[1..], depth);
      var js := EntriesToJson(entries).value;
      assert js[1..] == EntriesToJson(entries[1..]).value;
      GatherStep(codec, integers, js, entries);
      SurvivesStep(codec, integers, entries);
    }
  }

  lemma SurvivesStep(codec: LinkCodec, integers: Integers, entries: seq<Keyed<Value>>)
    requires entries != []
    ensures (forall i :: 0 <= i < |entries| ==> Survives(codec, integers, entries[i].value))
            <==> Survives(codec, integers, entries[0].value)
                 && forall i :: 0 <= i < |entries[1..]| ==> Survives(codec, integers, entries[1..][i].value)
  {
    hide Survives;
    assert forall i :: 0 < i < |entries| ==> entries[i] == entries[1..][i - 1];
  }

  /** The members of the JSON object have the keys of the map, and its text values become strings. */
  lemma {:induction false} EntriesKept(entries: seq<Keyed<Value>>)
    requires EntriesToJson(entries).Ok?
    ensures var js := EntriesToJson(entries).value;
            |js| == |entries| && forall i :: 0 <= i < |js| ==> js[i].key == entries[i].key && ValueToJson(entries[i].value) == Ok(js[i].value)
  {
    hide ValueToJson;
    if entries != [] {
      EntriesKept(entries[1..]);
      var js, more := EntriesToJson(entries).value, EntriesToJson(entries[1..]).value;
      assert forall i :: 0 < i < |entries| ==> entries[i] == entries[1..][i - 1] && js[i] == more[i - 1];
    }
  }

  lemma GatherNothing(codec: LinkCodec, integers: Integers)
    ensures Gather(MemberValues(codec, integers, [])) == Ok([])
  {
  }

  lemma GatherStep(codec: LinkCodec, integers: Integers, js: seq<Keyed<Json>>, entries: seq<Keyed<Value>>)
    requires js != [] && entries != [] && js[0].key == entries[0].key
    ensures Gather(MemberValues(codec, integers, js)) == Ok(entries)
            <==> ValueOf(codec, integers, js[0].value) == Ok(entries[0].value)
                 && Gather(MemberValues(codec, integers, js[1..])) == Ok(entries[1..])
  {
    hide ValueOf;
    var values := MemberValues(codec, integers, js);
    assert values[1..] == MemberValues(codec, integers, js[1..]);
    assert entries == [entries[0]] + entries[1..];
    var gathered := Gather(values);
    if gathered == Ok(entries) {
      assert gathered.value[0] == entries[0] && gathered.value[1..] == entries[1..];
    }
  }

  lemma MapSurvives(codec: LinkCodec, integers: Integers, entries: seq<Keyed<Value>>, depth: nat)
    requires Faithful(codec) && CanonicalEntries(None, entries, depth) && EntriesToJson(entries).Ok?
    ensures ValueOf(codec, integers, JObject(PutAll(EntriesToJson(entries).value))) == Ok(Map(entries))
            <==> !Mistaken(codec, entries) && forall i :: 0 <= i < |entries| ==> Survives(codec, integers, entries[i].value)
    decreases entries, 1
  {
    hide Sort, PutAll, Survives, Faithful, SpecialMember, Gather, MemberValues, SpecialOf, Mistaken, EntriesToJson;
    EntriesSurvive(codec, integers, None, entries, depth);
    EntriesKept(entries);
    var js := EntriesToJson(entries).value;
    CanonicalIsSorted(None, entries, depth);
    InOrder(codec, integers, js);
    MistakenIsSpecial(codec, entries, js);
  }

  lemma MistakenIsSpecial(codec: LinkCodec, entries: seq<Keyed<Value>>, js: seq<Keyed<Json>>)
    requires |js| == |entries| == |PutAll(js)| && (|js| == 1 ==> PutAll(js) == js)
    requires forall i :: 0 <= i < |js| ==> js[i].key == entries[i].key && ValueToJson(entries[i].value) == Ok(js[i].value)
    ensures Mistaken(codec, entries) <==> SpecialOf(codec, PutAll(js)) != Ok(None)
  {
    hide SpecialMember, PutAll;
    if |js| == 1 {
      TextToString(entries[0].value);
    }
  }

  lemma TextToString(v: Value)
    ensures match ValueToJson(v)
            case Ok(JString(s)) => v == Text(s)
            case _ => !v.Text?
  {
    hide EntriesToJson, ItemsToJson;
  }

  /** Members in canonical order are put in that order again, whatever map held them. */
  lemma InOrder(codec: LinkCodec, integers: Integers, js: seq<Keyed<Json>>)
    requires StrictlySorted(LengthFirst, js)
    ensures Sort(LengthFirst, MemberValues(codec, integers, PutAll(js))) == MemberValues(codec, integers, js)
    ensures |PutAll(js)| == |js| && (|js| == 1 ==> PutAll(js) == js)
  {
    hide ValueOf, Sort, PutAll;
    SortedMap(LengthFirst, js);
    SortOfSorted(LengthFirst, js);
    DedupOfStrict(LengthFirst, js);
    SortValues(codec, integers, PutAll(js));
    if |js| == 1 {
      SortOne(PutAll(js));
    }
  }

  lemma SortOne(m: seq<Keyed<Json>>)
    requires |m| == 1
    ensures Sort(LengthFirst, m) == m
  {
    assert m == [m[0]];
    assert Sort(LengthFirst, m[1..]) == [];
  }

  lemma SortValues(codec: LinkCodec, integers: Integers, members: seq<Keyed<Json>>)
    ensures Sort(LengthFirst, MemberValues(codec, integers, members))
            == MemberValues(codec, integers, Sort(LengthFirst, members))
  {
    hide ValueOf, Sort;
    var r := (k: seq<byte>, j: Json, v: Valued) => v == ValueOf(codec, integers, j);
    var values := MemberValues(codec, integers, members);
    forall i | 0 <= i < |members| ensures members[i].key == values[i].key && r(members[i].key, members[i].value, values[i].value) {
      MemberValuesAt(codec, integers, members, i);
    }
    SortAligned(r, LengthFirst, members, values);
    var a, b := Sort(LengthFirst, members), Sort(LengthFirst, values);
    forall i | 0 <= i < |a| ensures b[i] == MemberValues(codec, integers, a)[i] {
      MemberValuesAt(codec, integers, a, i);
    }
  }

  /**
   DRISL that converts to JSON converts back to the same bytes exactly when its integers are allowed and none of its
   maps is a lone `$link` or `$bytes` text that parses as one.
   */
  lemma BackToTheSameBytes(codec: LinkCodec, integers: Integers, data: seq<byte>)
    requires Faithful(codec) && |data| < U64_LIMIT && DrislToJsonTree(data).Ok?
    ensures Encode(codec, integers, DrislToJsonTree(data).value) == Ok(data)
            <==> Survives(codec, integers, Decode(data).value)
  {
    hide Encode, ValueOf, ValueToJson, Enc, Canonical, Decode, Faithful, Survives;
    var v, j := Decode(data).value, DrislToJsonTree(data).value;
    DecodeIffCanonical(data, v);
    EncodesItsValue(codec, integers, j);
    SurvivesIff(codec, integers, v, 0);
    CanonicalIsTidy(v, 0);
    if Encode(codec, integers, j) == Ok(data) {
      var w := ValueOf(codec, integers, j).value;
      ShortIsSized(w);
      ValueIsTidy(codec, integers, j);
      EncPrefixFree(w, [], v, []);
    }
  }

  /** A map of one text under the key `$bytes`, which JSON cannot tell from bytes. */
  const MISTAKEN := Map([Keyed(BYTES_KEY, Text([]))])

  /** Whatever the integers allowed, some DRISL comes back from JSON as other bytes. */
  lemma MistakenComesBackChanged(codec: LinkCodec, integers: Integers)
    requires Faithful(codec)
    ensures var data := Enc(MISTAKEN);
            && |data| < U64_LIMIT && Decode(data) == Ok(MISTAKEN) && DrislToJsonTree(data).Ok?
            && Encode(codec, integers, DrislToJsonTree(data).value) != Ok(data)
  {
    hide *;
    MistakenDecodes();
    MistakenConverts(Enc(MISTAKEN));
    MistakenDies(codec, integers);
    BackToTheSameBytes(codec, integers, Enc(MISTAKEN));
  }

  lemma MistakenConverts(data: seq<byte>)
    requires Decode(data) == Ok(MISTAKEN)
    ensures DrislToJsonTree(data).Ok?
  {
    hide BYTES_KEY, Decode;
    assert ValueToJson(Text([])) == Ok(JString([]));
    assert EntriesToJson(MISTAKEN.entries[1..]) == Ok([]);
    assert EntriesToJson(MISTAKEN.entries).Ok?;
  }

  lemma MistakenDies(codec: LinkCodec, integers: Integers)
    requires Faithful(codec)
    ensures !Survives(codec, integers, MISTAKEN)
  {
    MistakenReads(codec);
    hide Faithful, Mistaken, BYTES_KEY;
  }

  lemma MistakenDecodes()
    ensures |Enc(MISTAKEN)| < U64_LIMIT && Decode(Enc(MISTAKEN)) == Ok(MISTAKEN)
  {
    BytesKey();
    hide BYTES_KEY;
    var entries := MISTAKEN.entries;
    assert EncEntries(entries[1..]) == [] && |Enc(Text([]))| == 1;
    assert |EncEntries(entries)| == |EncText(BYTES_KEY)| + 1;
    assert Canonical(Text([]), 1);
    assert CanonicalEntries(Some(BYTES_KEY), entries[1..], 1);
    assert CanonicalEntries(None, entries, 1);
    assert Canonical(MISTAKEN, 0);
    hide Enc, Canonical, Decode;
    DecodeIffCanonical(Enc(MISTAKEN), MISTAKEN);
  }

  lemma BytesKey()
    ensures |BYTES_KEY| == 6 && TextOk(BYTES_KEY) && TextOk([]) && BYTES_KEY != LINK_KEY
  {
    hide Utf8.ValidUtf8;
    assert |BYTES_KEY| == 6 && |LINK_KEY| == 5;
    Utf8.AsciiIsUtf8(BYTES_KEY);
    Utf8.AsciiIsUtf8([]);
  }

  lemma MistakenReads(codec: LinkCodec)
    requires Faithful(codec)
    ensures Mistaken(codec, MISTAKEN.entries)
  {
    BytesKey();
    hide BYTES_KEY, LINK_KEY;
    assert Base64([]) == [];
    assert codec.decodeBase64(Base64([])) == Some([]);
  }

  lemma {:induction false} ValueIsTidy(codec: LinkCodec, integers: Integers, j: Json)
    requires ValueOf(codec, integers, j).Ok?
    ensures Tidy(ValueOf(codec, integers, j).value)
    decreases j
  {
    hide Sort;
    match j {
      case JArray(items) =>
        ItemValuesAt(codec, integers, items);
        var vs := ItemValues(codec, integers, items).value;
        forall i | 0 <= i < |vs| ensures Tidy(vs[i]) {
          ValueIsTidy(codec, integers, items[i]);
        }
      case JObject(members) =>
        var special := SpecialOf(codec, members);
        if special.Ok? && special.value.None? {
          var values := MemberValues(codec, integers, members);
          var sorted := Sort(LengthFirst, values);
          GatherAt(sorted);
          var es := Gather(sorted).value;
          forall i | 0 <= i < |es| ensures Tidy(es[i].value) {
            var m := SortOrigin(LengthFirst, values, i);
            MemberValuesAt(codec, integers, members, m);
            ValueIsTidy(codec, integers, members[m].value);
          }
        }
      case _ =>
    }
  }
}
