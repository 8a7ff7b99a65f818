/** What the encoder computes: the encoding of a value with every map sorted, or an error if a float is not finite. */
module EncodeSpec {
  import opened Wrappers
  import opened Bytes
  import opened KeyedLists
  import opened Drisl

  /** The value an encoding stands for: maps stably sorted by key at every depth, one form for each integer. */
  function Normal(v: Value): Value
    decreases v
  {
    match v
    case Signed(i) => if i >= 0 then Unsigned(i) else v
    case Array(items) => Array(NormalItems(items))
    case Map(entries) => Map(Sort(LengthFirst, NormalEntries(entries)))
    case _ => v
  }

  function NormalItems(items: seq<Value>): (r: seq<Value>)
    ensures |r| == |items|
    decreases items
  {
    if items == [] then [] else [Normal(items[0])] + NormalItems(items[1..])
  }

  function NormalEntries(entries: seq<Keyed<Value>>): (r: seq<Keyed<Value>>)
    ensures |r| == |entries|
    decreases entries
  {
    if entries == [] then []
    else [Keyed(entries[0].key, Normal(entries[0].value))] + NormalEntries(entries[1..])
  }

  /**
   Whether a pass gets through a value: every float is finite and, unless the pass sorts, every map has its keys in
   strictly ascending order.
   */
  predicate Accepts(sort: bool, v: Value)
    decreases v
  {
    match v
    case Float(bits) => Finite(bits)
    case Array(items) => AcceptsItems(sort, items)
    case Map(entries) => AcceptsEntries(sort, None, entries)
    case _ => true
  }

  predicate AcceptsItems(sort: bool, items: seq<Value>)
    decreases items
  {
    items == [] || (Accepts(sort, items[0]) && AcceptsItems(sort, items[1..]))
  }

  predicate AcceptsEntries(sort: bool, prev: Option<seq<byte>>, entries: seq<Keyed<Value>>)
    decreases entries
  {
    entries == [] ||
    (&& (sort || Follows(prev, entries[0].key)) && Accepts(sort, entries[0].value)
     && AcceptsEntries(sort, Some(entries[0].key), entries[1..]))
  }

  predicate AllFinite(v: Value) {
    Accepts(true, v)
  }

  /** Every string and collection has a length a machine word holds, as every value in memory has. */
  predicate Sized(v: Value)
    decreases v
  {
    match v
    case Text(s) => |s| < U64_LIMIT
    case Bytes(b) => |b| < U64_LIMIT
    case Array(items) => |items| < U64_LIMIT && SizedItems(items)
    case Map(entries) => |entries| < U64_LIMIT && SizedEntries(entries)
    case _ => true
  }

  predicate SizedItems(items: seq<Value>)
    decreases items
  {
    forall i :: 0 <= i < |items| ==> Sized(items[i])
  }

  predicate SizedEntries(entries: seq<Keyed<Value>>)
    decreases entries
  {
    forall i :: 0 <= i < |entries| ==> |entries[i].key| < U64_LIMIT && Sized(entries[i].value)
  }

  /** The encoder's result. */
  function Encoding(v: Value): Result<seq<byte>, CborError> {
    if AllFinite(v) then Ok(Enc(Normal(v))) else Err(InvalidCbor(NonFinite))
  }

  // ---------- Sorting and normalizing ----------

  ghost predicate IsNormal(k: seq<byte>, v: Value, w: Value) {
    w == Normal(v)
  }

  lemma {:induction false} NormalEntriesAligned(entries: seq<Keyed<Value>>)
    ensures Aligned(IsNormal, entries, NormalEntries(entries))
  {
    if entries != [] {
      NormalEntriesAligned(entries[1..]);
    }
  }

  lemma {:induction false} AlignedIsNormal(a: seq<Keyed<Value>>, b: seq<Keyed<Value>>)
    requires Aligned(IsNormal, a, b)
    ensures b == NormalEntries(a)
  {
    if a != [] {
      AlignedIsNormal(a[1..], b[1..]);
      assert b == [b[0]] + b[1..];
    }
  }

  /** Sorting first and normalizing the values after is the same. */
  lemma NormalOfSorted(entries: seq<Keyed<Value>>)
    ensures NormalEntries(Sort(LengthFirst, entries)) == Sort(LengthFirst, NormalEntries(entries))
  {
    NormalEntriesAligned(entries);
    SortAligned(IsNormal, LengthFirst, entries, NormalEntries(entries));
    AlignedIsNormal(Sort(LengthFirst, entries), Sort(LengthFirst, NormalEntries(entries)));
  }

  /** Entries in order are left in place. */
  lemma NormalOfOrdered(entries: seq<Keyed<Value>>)
    requires Ascending(LengthFirst, entries)
    ensures Sort(LengthFirst, NormalEntries(entries)) == NormalEntries(entries)
  {
    NormalEntriesAligned(entries);
    AscendingIsStrict(LengthFirst, entries);
    SortOfSorted(LengthFirst, NormalEntries(entries));
  }

  lemma {:induction false} AcceptedIsAscending(prev: Option<seq<byte>>, entries: seq<Keyed<Value>>)
    requires AcceptsEntries(false, prev, entries)
    ensures Ascending(LengthFirst, entries)
    decreases |entries|
  {
    if |entries| > 1 {
      AcceptedIsAscending(Some(entries[0].key), entries[1..]);
    }
  }

  /** The sorting pass does not look at the order, so neither `prev` nor the order matters to it. */
  lemma {:induction false} InsertAccepted(p: Option<seq<byte>>, q: Option<seq<byte>>, x: Keyed<Value>, s: seq<Keyed<Value>>)
    ensures AcceptsEntries(true, p, Insert(LengthFirst, x, s)) <==> Accepts(true, x.value) && AcceptsEntries(true, q, s)
    decreases |s|
  {
    hide Accepts;
    if s == [] || KeyCmp(LengthFirst, x.key, s[0].key) != Greater {
      assert ([x] + s)[1..] == s;
      PrevIrrelevant(Some(x.key), q, s);
    } else {
      InsertAccepted(Some(s[0].key), Some(s[0].key), x, s[1..]);
      var r := Insert(LengthFirst, x, s[1..]);
      assert ([s[0]] + r)[1..] == r;
    }
  }

  lemma PrevIrrelevant(p: Option<seq<byte>>, q: Option<seq<byte>>, s: seq<Keyed<Value>>)
    ensures AcceptsEntries(true, p, s) <==> AcceptsEntries(true, q, s)
  {
    hide Accepts;
  }

  lemma {:induction false} SortAccepted(p: Option<seq<byte>>, s: seq<Keyed<Value>>)
    ensures AcceptsEntries(true, p, Sort(LengthFirst, s)) <==> AcceptsEntries(true, p, s)
    decreases |s|
  {
    hide Accepts;
    if s != [] {
      SortAccepted(Some(s[0].key), s[1..]);
      InsertAccepted(p, Some(s[0].key), s[0], Sort(LengthFirst, s[1..]));
    }
  }

  lemma SortSized(s: seq<Keyed<Value>>)
    requires SizedEntries(s)
    ensures SizedEntries(Sort(LengthFirst, s))
  {
    hide Sized;
    var r := Sort(LengthFirst, s);
    forall j | 0 <= j < |r| ensures |r[j].key| < U64_LIMIT && Sized(r[j].value) {
      var i := SortOrigin(LengthFirst, s, j);
    }
  }
}
