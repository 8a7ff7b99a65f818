/** Encoding and decoding are inverse: what decodes re-encodes to the same bytes, and when what is encoded decodes. */
module RoundTrip {
  import opened Wrappers
  import opened Bytes
  import opened KeyedLists
  import opened Cids
  import opened Drisl
  import opened DecodeSpec
  import opened EncodeSpec
  import opened Canonicity

  // ---------- Canonical values are their own normal form ----------

  lemma {:induction false} CanonicalIsNormal(v: Value, depth: nat)
    requires Canonical(v, depth)
    ensures Normal(v) == v && Accepts(true, v)
    decreases v
  {
    match v {
      case Array(items) => CanonicalItemsNormal(items, depth + 1);
      case Map(entries) =>
        CanonicalEntriesNormal(None, entries, depth + 1);
        CanonicalIsSorted(None, entries, depth + 1);
        SortOfSorted(LengthFirst, entries);
      case _ =>
    }
  }

  lemma {:induction false} CanonicalItemsNormal(items: seq<Value>, depth: nat)
    requires CanonicalItems(items, depth)
    ensures NormalItems(items) == items && AcceptsItems(true, items)
    decreases items
  {
    if items != [] {
      CanonicalIsNormal(items[0], depth);
      CanonicalItemsNormal(items[1..], depth);
    }
  }

  lemma {:induction false} CanonicalEntriesNormal(prev: Option<seq<byte>>, entries: seq<Keyed<Value>>, depth: nat)
    requires CanonicalEntries(prev, entries, depth)
    ensures NormalEntries(entries) == entries && AcceptsEntries(true, prev, entries)
    decreases entries
  {
    hide Normal, Canonical, Accepts;
    if entries != [] {
      CanonicalIsNormal(entries[0].value, depth);
      CanonicalEntriesNormal(Some(entries[0].key), entries[1..], depth);
    }
  }

  /** Canonicity: what decodes encodes again to exactly the bytes it came from. */
  lemma DecodeThenEncode(data: seq<byte>)
    requires |data| < U64_LIMIT && Decode(data).Ok?
    ensures Encoding(Decode(data).value) == Ok(data)
  {
    var v := Decode(data).value;
    DecodeIffCanonical(data, v);
    CanonicalIsNormal(v, 0);
  }

  // ---------- What can be decoded after encoding ----------

  /** The conditions under which a value, as given to the encoder, can be decoded again. */
  predicate Fits(v: Value, depth: nat)
    decreases v
  {
    && depth < MAX_DEPTH
    && match v
       case Unsigned(n) => n <= I64_MAX
       case Float(bits) => Finite(bits)
       case Text(s) => TextOk(s)
       case Bytes(b) => |b| < U64_LIMIT
       case Array(items) =>
         && |items| <= MAX_COLLECTION_LEN
         && forall i :: 0 <= i < |items| ==> Fits(items[i], depth + 1)
       case Map(entries) =>
         && |entries| <= MAX_COLLECTION_LEN
         && (forall i, j :: 0 <= i < j < |entries| ==> entries[i].key != entries[j].key)
         && forall i :: 0 <= i < |entries| ==> TextOk(entries[i].key) && Fits(entries[i].value, depth + 1)
       case _ => true
  }

  lemma {:induction false} CanonicalItemsAll(items: seq<Value>, depth: nat)
    ensures CanonicalItems(items, depth) <==> forall i :: 0 <= i < |items| ==> Canonical(items[i], depth)
  {
    hide Canonical;
    if items != [] {
      CanonicalItemsAll(items[1..], depth);
      assert items == [items[0]] + items[1..];
    }
  }

  /** Canonical entries: strictly sorted, each canonical. */
  lemma {:induction false} CanonicalEntriesAll(prev: Option<seq<byte>>, entries: seq<Keyed<Value>>, depth: nat)
    requires entries != [] ==> Follows(prev, entries[0].key)
    ensures CanonicalEntries(prev, entries, depth) <==>
            && Ascending(LengthFirst, entries)
            && forall i :: 0 <= i < |entries| ==> TextOk(entries[i].key) && Canonical(entries[i].value, depth)
    decreases |entries|
  {
    hide Canonical, TextOk, KeyCmp;
    if entries != [] {
      var e, rest := entries[0], entries[1..];
      assert entries == [e] + rest;
      assert forall i :: 0 <= i < |rest| ==> entries[i + 1] == rest[i];
      if rest == [] || Follows(Some(e.key), rest[0].key) {
        CanonicalEntriesAll(Some(e.key), rest, depth);
        AscendingCons(e, rest);
      } else {
        assert !Ascending(LengthFirst, entries) by {
          assert KeyCmp(LengthFirst, entries[0].key, entries[0 + 1].key) != Less;
        }
      }
    }
  }

  lemma AscendingCons(e: Keyed<Value>, rest: seq<Keyed<Value>>)
    requires rest != [] ==> Follows(Some(e.key), rest[0].key)
    ensures Ascending(LengthFirst, [e] + rest) <==> Ascending(LengthFirst, rest)
  {
    hide KeyCmp;
    var s := [e] + rest;
    if Ascending(LengthFirst, s) {
      forall i | 0 <= i < |rest| - 1 ensures KeyCmp(LengthFirst, rest[i].key, rest[i + 1].key) == Less {
        assert KeyCmp(LengthFirst, s[i + 1].key, s[(i + 1) + 1].key) == Less;
      }
    }
    if Ascending(LengthFirst, rest) {
      forall i | 0 <= i < |s| - 1 ensures KeyCmp(LengthFirst, s[i].key, s[i + 1].key) == Less {
        if i > 0 {
          assert KeyCmp(LengthFirst, rest[i - 1].key, rest[(i - 1) + 1].key) == Less;
        }
      }
    }
  }

  /** The sort is strict exactly when no key occurs twice. */
  lemma SortStrictIffDistinct(s: seq<Keyed<Value>>)
    ensures StrictlySorted(LengthFirst, Sort(LengthFirst, s)) <==> Distinct(s)
  {
    hide KeyCmp;
    var r := Sort(LengthFirst, s);
    if Distinct(s) {
      DistinctSort(LengthFirst, s);
    }
    if StrictlySorted(LengthFirst, r) {
      StrictIsDistinct(LengthFirst, r);
      DistinctBack(s);
    }
  }

  lemma {:induction false} DistinctBack(s: seq<Keyed<Value>>)
    requires Distinct(Sort(LengthFirst, s))
    ensures Distinct(s)
  {
    if s != [] {
      var t := Sort(LengthFirst, s[1..]);
      InsertDistinctBack(s[0], t);
      DistinctBack(s[1..]);
      forall j | 0 < j < |s| ensures s[0].key != s[j].key {
        var p := SortPlace(s[1..], j - 1);
      }
    }
  }

  lemma {:induction false} InsertDistinctBack(x: Keyed<Value>, s: seq<Keyed<Value>>)
    requires Distinct(Insert(LengthFirst, x, s))
    ensures Distinct(s) && forall i :: 0 <= i < |s| ==> s[i].key != x.key
  {
    hide KeyCmp;
    var r := Insert(LengthFirst, x, s);
    if s == [] || KeyCmp(LengthFirst, x.key, s[0].key) != Greater {
      ConsDistinct(x, s);
    } else {
      var t := Insert(LengthFirst, x, s[1..]);
      ConsDistinct(s[0], t);
      InsertDistinctBack(x, s[1..]);
      forall j | 0 < j < |s| ensures s[0].key != s[j].key {
        var p := InsertPlace(x, s[1..], j - 1);
        assert t[p] == s[j];
      }
      KeysDiffer(x, s);
      forall i | 0 <= i < |s| ensures s[i].key != x.key {
        assert i > 0 ==> s[1..][i - 1] == s[i];
      }
    }
  }

  lemma ConsDistinct(x: Keyed<Value>, s: seq<Keyed<Value>>)
    requires Distinct([x] + s)
    ensures Distinct(s) && forall i :: 0 <= i < |s| ==> s[i].key != x.key
  {
    var r := [x] + s;
    forall i | 0 <= i < |s| ensures s[i].key != x.key {
      assert r[0].key != r[i + 1].key;
    }
    forall i, j | 0 <= i < j < |s| ensures s[i].key != s[j].key {
      assert r[i + 1].key != r[j + 1].key;
    }
  }

  lemma KeysDiffer(x: Keyed<Value>, s: seq<Keyed<Value>>)
    requires s != [] && KeyCmp(LengthFirst, x.key, s[0].key) == Greater
    ensures x.key != s[0].key
  {
    KeyCmpEqual(LengthFirst, x.key, s[0].key);
  }

  /** Where an element of the list goes. */
  lemma {:induction false} InsertPlace(x: Keyed<Value>, s: seq<Keyed<Value>>, i: nat) returns (p: nat)
    requires i < |s|
    ensures p <= |s| && Insert(LengthFirst, x, s)[p] == s[i]
  {
    if KeyCmp(LengthFirst, x.key, s[0].key) != Greater {
      p := i + 1;
    } else if i == 0 {
      p := 0;
    } else {
      p := InsertPlace(x, s[1..], i - 1);
      p := p + 1;
    }
  }

  lemma {:induction false} SortPlace(s: seq<Keyed<Value>>, i: nat) returns (p: nat)
    requires i < |s|
    ensures p < |s| && Sort(LengthFirst, s)[p] == s[i]
  {
    if i == 0 {
      p := InsertedPlace(s[0], Sort(LengthFirst, s[1..]));
    } else {
      p := SortPlace(s[1..], i - 1);
      p := InsertPlace(s[0], Sort(LengthFirst, s[1..]), p);
    }
  }

  lemma {:induction false} InsertedPlace(x: Keyed<Value>, s: seq<Keyed<Value>>) returns (p: nat)
    ensures p <= |s| && Insert(LengthFirst, x, s)[p] == x
  {
    if s == [] || KeyCmp(LengthFirst, x.key, s[0].key) != Greater {
      p := 0;
    } else {
      p := InsertedPlace(x, s[1..]);
      p := p + 1;
    }
  }

  /** The normal form is canonical exactly when the value fits. */
  lemma {:induction false} FitsIffCanonical(v: Value, depth: nat)
    ensures Canonical(Normal(v), depth) <==> Fits(v, depth)
    decreases v
  {
    match v {
      case Array(items) =>
        var n := NormalItems(items);
        CanonicalItemsAll(n, depth + 1);
        forall i | 0 <= i < |items| ensures Canonical(n[i], depth + 1) <==> Fits(items[i], depth + 1) {
          NormalItemAt(items, i);
          FitsIffCanonical(items[i], depth + 1);
        }
      case Map(entries) =>
        forall i | 0 <= i < |entries| ensures Canonical(Normal(entries[i].value), depth + 1) <==> Fits(entries[i].value, depth + 1) {
          FitsIffCanonical(entries[i].value, depth + 1);
        }
        FitsMap(entries, depth);
      case _ =>
    }
  }

  lemma {:induction false} NormalItemAt(items: seq<Value>, i: nat)
    requires i < |items|
    ensures NormalItems(items)[i] == Normal(items[i])
  {
    hide Normal;
    if i > 0 {
      NormalItemAt(items[1..], i - 1);
    }
  }

  lemma FitsMap(entries: seq<Keyed<Value>>, depth: nat)
    requires forall i :: 0 <= i < |entries| ==> (Canonical(Normal(entries[i].value), depth + 1) <==> Fits(entries[i].value, depth + 1))
    ensures Canonical(Normal(Map(entries)), depth) <==> Fits(Map(entries), depth)
  {
    hide TextOk, Sort;
    var n := NormalEntries(entries);
    var s := Sort(LengthFirst, n);
    NormalEntriesAligned(entries);
    CanonicalEntriesAll(None, s, depth + 1);
    AscendingIsStrict(LengthFirst, s);
    SortStrictIffDistinct(n);
    SameInSorted(n, depth + 1);
    assert Normal(Map(entries)) == Map(s);
    assert forall i :: 0 <= i < |entries| ==> n[i].key == entries[i].key && n[i].value == Normal(entries[i].value);
  }

  /** Every key is text and every value canonical. */
  ghost predicate AllGood(s: seq<Keyed<Value>>, depth: nat) {
    forall i :: 0 <= i < |s| ==> TextOk(s[i].key) && Canonical(s[i].value, depth)
  }

  lemma GoodAfterSort(n: seq<Keyed<Value>>, depth: nat)
    requires AllGood(n, depth)
    ensures AllGood(Sort(LengthFirst, n), depth)
  {
    hide TextOk, Canonical, Sort;
    var s := Sort(LengthFirst, n);
    forall i | 0 <= i < |s| ensures TextOk(s[i].key) && Canonical(s[i].value, depth) {
      var p := SortOrigin(LengthFirst, n, i);
      assert s[i] == n[p];
    }
  }

  lemma GoodBeforeSort(n: seq<Keyed<Value>>, depth: nat)
    requires AllGood(Sort(LengthFirst, n), depth)
    ensures AllGood(n, depth)
  {
    hide TextOk, Canonical, Sort;
    var s := Sort(LengthFirst, n);
    forall i | 0 <= i < |n| ensures TextOk(n[i].key) && Canonical(n[i].value, depth) {
      var p := SortPlace(n, i);
      assert n[i] == s[p];
    }
  }

  /** A condition on every entry holds before sorting if and only if it holds after. */
  lemma SameInSorted(n: seq<Keyed<Value>>, depth: nat)
    ensures AllGood(Sort(LengthFirst, n), depth) <==> AllGood(n, depth)
  {
    hide AllGood;
    if AllGood(n, depth) {
      GoodAfterSort(n, depth);
    }
    if AllGood(Sort(LengthFirst, n), depth) {
      GoodBeforeSort(n, depth);
    }
  }

  // ---------- Encodings are prefix-free ----------

  lemma HeadUnique(a: nat, m: u64, x: seq<byte>, b: nat, n: u64, y: seq<byte>)
    requires a < 8 && b < 8 && Head(a, m) + x == Head(b, n) + y
    ensures a == b && m == n && x == y
  {
    hide Head, ReadArgument;
    var buf := Head(a, m) + x;
    AtSlice(buf, 0, Head(a, m));
    AtSlice(buf, 0, Head(b, n));
    assert buf[0..|Head(a, m)|] == Head(a, m) && buf[0..|Head(b, n)|] == Head(b, n);
    HeadIsRead(buf, 0, a, m);
    HeadIsRead(buf, 0, b, n);
    assert x == buf[|Head(a, m)|..] && y == buf[|Head(b, n)|..];
  }

  /** Two strings that start alike and have one length start the two wholes alike. */
  lemma SplitEqual(a: seq<byte>, x: seq<byte>, b: seq<byte>, y: seq<byte>)
    requires a + x == b + y && |a| == |b|
    ensures a == b && x == y
  {
    assert a == (a + x)[..|a|] && x == (a + x)[|a|..];
    assert b == (b + y)[..|b|] && y == (b + y)[|b|..];
  }

  /** A head or first byte from which the rest of the encoding can be told: the major type and the argument. */
  function Lead(v: Value): (r: (nat, u64, seq<byte>))
    requires Sized(v)
    ensures r.0 < 8
  {
    match v
    case Unsigned(n) => (0, n, [])
    case Signed(i) => if i >= 0 then (0, i, []) else (1, -1 - i, [])
    case Float(bits) => (7, 27, Be(bits, 8))
    case Bool(b) => (7, if b then 21 else 20, [])
    case Null => (7, 22, [])
    case Text(s) => (3, |s|, s)
    case Bytes(b) => (2, |b|, b)
    case Link(c) => (6, 42, [0x58, 0x25] + ToTag42(c))
    case Array(items) => (4, |items|, EncItems(items))
    case Map(entries) => (5, |entries|, EncEntries(entries))
  }

  /** A float starts with a byte that is not a minimal head; everything else starts with the head `Lead` gives. */
  lemma LeadStarts(v: Value)
    requires Sized(v)
    ensures v.Float? ==> Enc(v) == [0xfb] + Lead(v).2
    ensures !v.Float? ==> Enc(v) == Head(Lead(v).0, Lead(v).1) + Lead(v).2
    ensures !v.Float? ==> Head(Lead(v).0, Lead(v).1)[0] != 0xfb
  {
    hide EncItems, EncEntries, ToTag42, Be, SizedItems, SizedEntries;
    match v {
      case Link(c) =>
        assert Head(6, 42) == [0xd8, 0x2a] by { TagHead(); }
        assert EncLink(c) == [0xd8, 0x2a] + ([0x58, 0x25] + ToTag42(c));
      case _ =>
    }
  }

  lemma TagHead()
    ensures Head(6, 42) == [0xd8, 0x2a]
  {
    assert Be(42, 1) == [42];
  }

  predicate Tidy(v: Value)
    decreases v
  {
    match v
    case Signed(i) => i < 0
    case Array(items) => forall i :: 0 <= i < |items| ==> Tidy(items[i])
    case Map(entries) => forall i :: 0 <= i < |entries| ==> Tidy(entries[i].value)
    case _ => true
  }

  /** Equal starts: same kind of value, same argument. */
  lemma SameLead(v: Value, x: seq<byte>, w: Value, y: seq<byte>)
    requires Sized(v) && Sized(w) && Enc(v) + x == Enc(w) + y
    ensures v.Float? <==> w.Float?
    ensures Lead(v).0 == Lead(w).0 && Lead(v).1 == Lead(w).1 && Lead(v).2 + x == Lead(w).2 + y
  {
    hide Enc, Head, Sized;
    LeadStarts(v);
    LeadStarts(w);
    var whole := Enc(v) + x;
    assert whole[0] == Enc(v)[0] == Enc(w)[0];
    if v.Float? {
      assert whole[1..] == Lead(v).2 + x;
      assert whole[1..] == Lead(w).2 + y;
    } else {
      var h, g := Head(Lead(v).0, Lead(v).1), Head(Lead(w).0, Lead(w).1);
      assert whole == h + (Lead(v).2 + x);
      assert whole == g + (Lead(w).2 + y);
      HeadUnique(Lead(v).0, Lead(v).1, Lead(v).2 + x, Lead(w).0, Lead(w).1, Lead(w).2 + y);
    }
  }

  /** No encoding is the start of another, and no two values share one. */
  lemma {:induction false} EncPrefixFree(v: Value, x: seq<byte>, w: Value, y: seq<byte>)
    requires Sized(v) && Sized(w) && Tidy(v) && Tidy(w) && Enc(v) + x == Enc(w) + y
    ensures v == w && x == y
    decreases v
  {
    hide Enc;
    SameLead(v, x, w, y);
    match v {
      case Array(items) =>
        assert w.Array?;
        ItemsPrefixFree(items, x, w.items, y);
      case Map(entries) =>
        assert w.Map?;
        EntriesPrefixFree(entries, x, w.entries, y);
      case _ =>
        SplitEqual(Lead(v).2, x, Lead(w).2, y);
        SameScalar(v, w);
    }
  }

  lemma SameScalar(v: Value, w: Value)
    requires IsScalar(v) && Sized(v) && Sized(w) && Tidy(v) && Tidy(w) && Lead(v) == Lead(w) && (v.Float? <==> w.Float?)
    ensures v == w
  {
    match v {
      case Float(bits) =>
        Pow256Values();
        FromBeOfBe(bits, 8);
        FromBeOfBe(w.bits, 8);
      case Link(c) =>
        assert ToTag42(c) == Lead(v).2[2..] && ToTag42(w.cid) == Lead(w).2[2..];
        Tag42Bytes(ToTag42(c), c);
        Tag42Bytes(ToTag42(c), w.cid);
      case _ =>
    }
  }

  lemma {:induction false} ItemsPrefixFree(a: seq<Value>, x: seq<byte>, b: seq<Value>, y: seq<byte>)
    requires |a| == |b| && EncItems(a) + x == EncItems(b) + y
    requires SizedItems(a) && SizedItems(b)
    requires forall i :: 0 <= i < |a| ==> Tidy(a[i]) && Tidy(b[i])
    ensures a == b && x == y
    decreases a
  {
    hide Enc;
    if a == [] {
      assert [] + x == x && [] + y == y;
    } else {
      var s, t := EncItems(a[1..]), EncItems(b[1..]);
      assert EncItems(a) + x == Enc(a[0]) + (s + x);
      assert EncItems(b) + y == Enc(b[0]) + (t + y);
      EncPrefixFree(a[0], s + x, b[0], t + y);
      ItemsPrefixFree(a[1..], x, b[1..], y);
      assert a == [a[0]] + a[1..] && b == [b[0]] + b[1..];
    }
  }

  lemma {:induction false} EntriesPrefixFree(a: seq<Keyed<Value>>, x: seq<byte>, b: seq<Keyed<Value>>, y: seq<byte>)
    requires |a| == |b| && EncEntries(a) + x == EncEntries(b) + y
    requires SizedEntries(a) && SizedEntries(b)
    requires forall i :: 0 <= i < |a| ==> Tidy(a[i].value) && Tidy(b[i].value)
    ensures a == b && x == y
    decreases a
  {
    hide Enc, Head;
    if a == [] {
      assert [] + x == x && [] + y == y;
    } else {
      var s, t := EncEntries(a[1..]), EncEntries(b[1..]);
      var u, v := Enc(a[0].value) + (s + x), Enc(b[0].value) + (t + y);
      assert EncEntries(a) + x == Head(3, |a[0].key|) + (a[0].key + u);
      assert EncEntries(b) + y == Head(3, |b[0].key|) + (b[0].key + v);
      HeadUnique(3, |a[0].key|, a[0].key + u, 3, |b[0].key|, b[0].key + v);
      SplitEqual(a[0].key, u, b[0].key, v);
      EncPrefixFree(a[0].value, s + x, b[0].value, t + y);
      EntriesPrefixFree(a[1..], x, b[1..], y);
      assert a == [a[0]] + a[1..] && b == [b[0]] + b[1..];
    }
  }

  // ---------- The round trip ----------

  lemma {:induction false} NormalIsTidy(v: Value)
    requires Sized(v)
    ensures Tidy(Normal(v)) && Sized(Normal(v))
    decreases v
  {
    match v {
      case Array(items) =>
        var n := NormalItems(items);
        forall i | 0 <= i < |n| ensures Tidy(n[i]) && Sized(n[i]) {
          NormalItemAt(items, i);
          NormalIsTidy(items[i]);
        }
      case Map(entries) =>
        var n := NormalEntries(entries);
        var s := Sort(LengthFirst, n);
        NormalEntriesAligned(entries);
        forall j | 0 <= j < |s| ensures Tidy(s[j].value) && Sized(s[j].value) && |s[j].key| < U64_LIMIT {
          var i := SortOrigin(LengthFirst, n, j);
          assert n[i].key == entries[i].key && n[i].value == Normal(entries[i].value);
          NormalIsTidy(entries[i].value);
        }
      case _ =>
    }
  }

  lemma {:induction false} CanonicalIsTidy(v: Value, depth: nat)
    requires Canonical(v, depth)
    ensures Tidy(v) && Sized(v)
    decreases v
  {
    match v {
      case Array(items) =>
        CanonicalItemsAll(items, depth + 1);
        forall i | 0 <= i < |items| ensures Tidy(items[i]) && Sized(items[i]) {
          CanonicalIsTidy(items[i], depth + 1);
        }
      case Map(entries) =>
        CanonicalEntriesAll(None, entries, depth + 1);
        forall i | 0 <= i < |entries| ensures Tidy(entries[i].value) && Sized(entries[i].value) {
          CanonicalIsTidy(entries[i].value, depth + 1);
        }
      case _ =>
    }
  }

  /**
   The round trip, exactly: the encoding of a value decodes if and only if the value fits the decoder's limits (no
   key twice, integers in range, UTF-8 text, not too deep, not too long), and then to the value with its maps sorted.
   */
  lemma EncodeThenDecode(v: Value)
    requires Sized(v) && AllFinite(v) && |Encoding(v).value| < U64_LIMIT
    ensures Decode(Encoding(v).value).Ok? <==> Fits(v, 0)
    ensures Fits(v, 0) ==> Decode(Encoding(v).value) == Ok(Normal(v))
  {
    hide Enc, Fits, Canonical, Normal, Sized, Decode;
    var data := Encoding(v).value;
    FitsIffCanonical(v, 0);
    DecodeIffCanonical(data, Normal(v));
    if Decode(data).Ok? {
      var w := Decode(data).value;
      DecodeIffCanonical(data, w);
      CanonicalIsTidy(w, 0);
      NormalIsTidy(v);
      EncPrefixFree(w, [], Normal(v), []);
    }
  }
}
