/** The DRISL data model, its one canonical encoding, and the errors of the codec. */
module Drisl {
  import opened Wrappers
  import opened Bytes
  import opened KeyedLists
  import opened Utf8
  import opened Cids

  /** Text and keys are byte strings; `Canonical` says they are UTF-8, which Rust's `&str` guarantees. */
  datatype Value =
    | Unsigned(n: u64)
    | Signed(i: i64)
    | Float(bits: u64)
    | Bool(b: bool)
    | Null
    | Text(text: seq<byte>)
    | Bytes(bytes: seq<byte>)
    | Link(cid: Cid)
    | Array(items: seq<Value>)
    | Map(entries: seq<Keyed<Value>>)

  datatype CborReason =
    | UnexpectedEnd | LengthOverflow | NonMinimal(value: u64, width: nat) | ReservedInfo(info: nat) | IndefiniteLength
    | UnsignedOutOfRange | NegativeOutOfRange | InvalidUtf8 | ArrayTooLong | MapTooLong | TooDeep
    | UnsupportedTag(tag: u64) | TagNotBytes | UnsupportedSimple | UnsupportedSimpleValue(info: nat) | HalfFloat | SingleFloat
    | NotANumber | InfiniteNumber | KeyNotText | KeyOrder | DuplicateKey | TrailingData | NonFinite
    | ExpectedMap | DuplicateOrUnorderedKey | ArrayPastEnd | MapPastEnd

  datatype CborError =
    | InvalidCbor(reason: CborReason)
    | InvalidCid(cid: CidError)
    | FloatOutsideModel(bits: u64)
    | UnsignedOutsideModel(n: u64)
    | UnsafeInteger
    | NotAnInteger

  /** The nesting and collection limits of the decoder. */
  const MAX_DEPTH: nat := 64
  const MAX_COLLECTION_LEN: nat := 500_000

  /** The exponent field of a 64-bit float, all ones for NaN and the infinities. */
  function Exponent(bits: u64): nat {
    bits / 0x10_0000_0000_0000 % 0x800
  }

  predicate Finite(bits: u64) {
    Exponent(bits) != 0x7ff
  }

  predicate NotANumberBits(bits: u64) {
    !Finite(bits) && bits % 0x10_0000_0000_0000 != 0
  }

  // ---------- The encoding ----------

  /** A CBOR head: major type and argument in the fewest bytes (RFC 8949, section 4.2.1). */
  function Head(major: nat, n: nat): (h: seq<byte>)
    requires major < 8
    ensures 1 <= |h| <= 9
  {
    if n < 24 then [32 * major + n]
    else if n < 0x100 then [32 * major + 24] + Be(n, 1)
    else if n < 0x1_0000 then [32 * major + 25] + Be(n, 2)
    else if n < 0x1_0000_0000 then [32 * major + 26] + Be(n, 4)
    else [32 * major + 27] + Be(n, 8)
  }

  function EncText(s: seq<byte>): (r: seq<byte>)
    ensures |r| > |s|
  {
    Head(3, |s|) + s
  }

  function EncBytes(b: seq<byte>): seq<byte> {
    Head(2, |b|) + b
  }

  /** Tag 42 around a 37-byte byte string. */
  function EncLink(c: Cid): seq<byte> {
    [0xd8, 0x2a, 0x58, 0x25] + ToTag42(c)
  }

  /** The encoding of a value, map entries as they stand. */
  function Enc(v: Value): (r: seq<byte>)
    ensures |r| > 0
    decreases v
  {
    match v
    case Unsigned(n) => Head(0, n)
    case Signed(i) => if i >= 0 then Head(0, i) else Head(1, -1 - i)
    case Float(bits) => [0xfb] + Be(bits, 8)
    case Bool(b) => if b then [0xf5] else [0xf4]
    case Null => [0xf6]
    case Text(s) => EncText(s)
    case Bytes(b) => EncBytes(b)
    case Link(c) => EncLink(c)
    case Array(items) => Head(4, |items|) + EncItems(items)
    case Map(entries) => Head(5, |entries|) + EncEntries(entries)
  }

  function EncItems(items: seq<Value>): seq<byte>
    decreases items
  {
    if items == [] then [] else Enc(items[0]) + EncItems(items[1..])
  }

  function EncEntries(entries: seq<Keyed<Value>>): seq<byte>
    decreases entries
  {
    if entries == [] then [] else EncText(entries[0].key) + Enc(entries[0].value) + EncEntries(entries[1..])
  }

  // ---------- Canonical values ----------

  predicate TextOk(s: seq<byte>) {
    |s| < U64_LIMIT && ValidUtf8(s)
  }

  /** The values the decoder can return from nesting level `depth`. */
  predicate Canonical(v: Value, depth: nat)
    decreases v
  {
    && depth < MAX_DEPTH
    && match v
       case Unsigned(n) => n <= I64_MAX
       case Signed(i) => i < 0
       case Float(bits) => Finite(bits)
       case Text(s) => TextOk(s)
       case Bytes(b) => |b| < U64_LIMIT
       case Array(items) => |items| <= MAX_COLLECTION_LEN && CanonicalItems(items, depth + 1)
       case Map(entries) => |entries| <= MAX_COLLECTION_LEN && CanonicalEntries(None, entries, depth + 1)
       case _ => true
  }

  predicate CanonicalItems(items: seq<Value>, depth: nat)
    decreases items
  {
    items == [] || (Canonical(items[0], depth) && CanonicalItems(items[1..], depth))
  }

  /** Canonical entries whose keys ascend from above `prev`, the key before them if there is one. */
  predicate CanonicalEntries(prev: Option<seq<byte>>, entries: seq<Keyed<Value>>, depth: nat)
    decreases entries
  {
    entries == [] ||
    (&& TextOk(entries[0].key) && Follows(prev, entries[0].key)
     && Canonical(entries[0].value, depth)
     && CanonicalEntries(Some(entries[0].key), entries[1..], depth))
  }

  predicate Follows(prev: Option<seq<byte>>, key: seq<byte>) {
    prev.Some? ==> KeyCmp(LengthFirst, prev.value, key) == Less
  }

  /** The keys of canonical entries are strictly sorted. */
  lemma {:induction false} CanonicalIsSorted(prev: Option<seq<byte>>, entries: seq<Keyed<Value>>, depth: nat)
    requires CanonicalEntries(prev, entries, depth)
    ensures StrictlySorted(LengthFirst, entries)
    ensures entries != [] ==> Follows(prev, entries[0].key)
  {
    AscendingEntries(prev, entries, depth);
    AscendingIsStrict(LengthFirst, entries);
  }

  lemma {:induction false} AscendingEntries(prev: Option<seq<byte>>, entries: seq<Keyed<Value>>, depth: nat)
    requires CanonicalEntries(prev, entries, depth)
    ensures Ascending(LengthFirst, entries)
    decreases |entries|
  {
    if |entries| > 1 {
      AscendingEntries(Some(entries[0].key), entries[1..], depth);
      assert Follows(Some(entries[0].key), entries[1..][0].key);
    }
  }

  // ---------- The order of keys ----------

  /** A longer argument never has a smaller head. */
  lemma CompareHeads(major: nat, m: nat, n: nat, x: seq<byte>, y: seq<byte>)
    requires major < 8 && m < n < U64_LIMIT
    ensures Compare(Head(major, m) + x, Head(major, n) + y) == Less
  {
    Pow256Values();
    var a, b := Head(major, m), Head(major, n);
    if a[0] < b[0] {
      assert (a + x)[0] == a[0] && (b + y)[0] == b[0];
    } else {
      var k := |a| - 1;
      CompareBe(m, n, k);
      ComparePrefix([a[0]], Be(m, k), Be(n, k));
      assert a == [a[0]] + Be(m, k) && b == [a[0]] + Be(n, k);
      CompareEqual(a, b);
      CompareDecided(a, b, x, y);
    }
  }

  /** Encoded keys compare bytewise exactly as keys do length first (RFC 8949, section 4.2.3). */
  lemma EncodedKeyOrder(a: seq<byte>, b: seq<byte>)
    requires |a| < U64_LIMIT && |b| < U64_LIMIT
    ensures Compare(EncText(a), EncText(b)) == KeyCmp(LengthFirst, a, b)
  {
    if |a| < |b| {
      CompareHeads(3, |a|, |b|, a, b);
    } else if |a| > |b| {
      CompareHeads(3, |b|, |a|, b, a);
      CompareFlip(EncText(b), EncText(a));
    } else {
      ComparePrefix(Head(3, |a|), a, b);
    }
  }
}
