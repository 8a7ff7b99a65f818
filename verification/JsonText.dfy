/**
 Writing JSON strings and numbers: the scan for bytes that need escapes, eight at a time in a machine word, and the
 text it leads to.
 */
module JsonText {
  import opened Bytes
  import opened Words

  // ---------- The text of strings and numbers ----------

  /** The bytes RFC 8259, section 7, requires to be escaped. */
  predicate NeedsEscape(b: byte) {
    b < 0x20 || b == 0x22 || b == 0x5c
  }

  /** The length of the longest prefix that needs no escapes. */
  function CleanPrefix(s: seq<byte>): (n: nat)
    ensures n <= |s|
    ensures forall i :: 0 <= i < n ==> !NeedsEscape(s[i])
    ensures n < |s| ==> NeedsEscape(s[n])
  {
    if s == [] || NeedsEscape(s[0]) then 0 else 1 + CleanPrefix(s[1..])
  }

  /** The properties of `CleanPrefix` leave no other length. */
  lemma {:induction false} CleanPrefixUnique(s: seq<byte>, n: nat)
    requires n <= |s| && (n < |s| ==> NeedsEscape(s[n])) && forall i :: 0 <= i < n ==> !NeedsEscape(s[i])
    ensures n == CleanPrefix(s)
  {
    if n > 0 {
      CleanPrefixUnique(s[1..], n - 1);
    }
  }

  /** A lowercase hexadecimal digit. */
  function Hex(n: nat): byte
    requires n < 16
  {
    if n < 10 then 0x30 + n else 0x61 + n - 10
  }

  function Escape(b: byte): seq<byte> {
    if b == 0x22 || b == 0x5c then [0x5c, b]
    else if b == 0x08 then [0x5c, 0x62]
    else if b == 0x09 then [0x5c, 0x74]
    else if b == 0x0a then [0x5c, 0x6e]
    else if b == 0x0c then [0x5c, 0x66]
    else if b == 0x0d then [0x5c, 0x72]
    else if b < 0x20 then [0x5c, 0x75, 0x30, 0x30, Hex(b / 16), Hex(b % 16)]
    else [b]
  }

  function Escaped(s: seq<byte>): seq<byte> {
    if s == [] then [] else Escape(s[0]) + Escaped(s[1..])
  }

  /** A JSON string. */
  function Quoted(s: seq<byte>): seq<byte> {
    [0x22] + Escaped(s) + [0x22]
  }

  /** A number in decimal, without leading zeros. */
  function Decimal(n: nat): (r: seq<byte>)
    ensures |r| > 0
  {
    if n < 10 then [0x30 + n] else Decimal(n / 10) + [0x30 + n % 10]
  }

  lemma {:induction false} EscapedConcat(a: seq<byte>, b: seq<byte>)
    ensures Escaped(a + b) == Escaped(a) + Escaped(b)
  {
    if a == [] {
      assert a + b == b;
    } else {
      assert (a + b)[1..] == a[1..] + b;
      EscapedConcat(a[1..], b);
    }
  }

  /** Clean text escapes to itself. */
  lemma {:induction false} EscapedClean(s: seq<byte>)
    requires forall i :: 0 <= i < |s| ==> !NeedsEscape(s[i])
    ensures Escaped(s) == s
  {
    if s != [] {
      EscapedClean(s[1..]);
    }
  }

  /** The clean stretch before the first byte that needs an escape stays as it is. */
  lemma CleanPart(s: seq<byte>, n: nat)
    requires n == CleanPrefix(s)
    ensures n <= |s| && Escaped(s[..n]) == s[..n]
  {
    EscapedClean(s[..n]);
  }

  // ---------- Words of text ----------

  /** What is left of a number below the bit of worth `p`. */
  function Below(n: int, p: int): int {
    if n >= p then n - p else n
  }

  /** A byte as eight bits. */
  function Low8(b: byte): bv8 {
    var c := Below(b, 128);
    var d := Below(c, 64);
    var e := Below(d, 32);
    var f := Below(e, 16);
    var g := Below(f, 8);
    var h := Below(g, 4);
    Bits(b >= 128, c >= 64, d >= 32, e >= 16, f >= 8, g >= 4, h >= 2, Below(h, 2) >= 1)
  }

  lemma BelowIs(n: int, p: nat)
    requires 0 <= n < 2 * p
    ensures n == Worth(n >= p, p) + Below(n, p) && 0 <= Below(n, p) < p
  {
  }

  lemma Spelled(n: int, r0: int, r1: int, r2: int, r3: int, r4: int, r5: int, r6: int)
    requires 0 <= n < 256 && r0 == Below(n, 128) && r1 == Below(r0, 64) && r2 == Below(r1, 32) && r3 == Below(r2, 16)
    requires r4 == Below(r3, 8) && r5 == Below(r4, 4) && r6 == Below(r5, 2)
    ensures Value(n >= 128, r0 >= 64, r1 >= 32, r2 >= 16, r3 >= 8, r4 >= 4, r5 >= 2, r6 >= 1) == n
  {
    hide Below, Worth;
    BelowIs(n, 128);
    BelowIs(r0, 64);
    BelowIs(r1, 32);
    BelowIs(r2, 16);
    BelowIs(r3, 8);
    BelowIs(r4, 4);
    BelowIs(r5, 2);
    BelowIs(r6, 1);
  }

  /** The bits of a byte are those of the number, and they spell it. */
  lemma BitsOf(n: byte) returns (a: bool, b: bool, c: bool, d: bool, e: bool, f: bool, g: bool, h: bool)
    ensures Low8(n) == Bits(a, b, c, d, e, f, g, h) && Value(a, b, c, d, e, f, g, h) == n
  {
    hide Bits, Below, Value;
    var r0 := Below(n, 128);
    var r1 := Below(r0, 64);
    var r2 := Below(r1, 32);
    var r3 := Below(r2, 16);
    var r4 := Below(r3, 8);
    var r5 := Below(r4, 4);
    var r6 := Below(r5, 2);
    a, b, c, d, e, f, g, h := n >= 128, r0 >= 64, r1 >= 32, r2 >= 16, r3 >= 8, r4 >= 4, r5 >= 2, r6 >= 1;
    Spelled(n, r0, r1, r2, r3, r4, r5, r6);
  }

  lemma SameByte(n: byte)
    ensures SpecialBits(Low8(n)) <==> NeedsEscape(n)
  {
    hide Low8, Bits, Value, SpecialBits;
    var a, b, c, d, e, f, g, h := BitsOf(n);
    SpecialBitsAre(a, b, c, d, e, f, g, h);
    SpecialValue(a, b, c, d, e, f, g, h);
  }

  /** `u64::from_le_bytes`. */
  function WordOf(s: seq<byte>): bv64
    requires |s| == 8
  {
    Word(Low8(s[0]), Low8(s[1]), Low8(s[2]), Low8(s[3]), Low8(s[4]), Low8(s[5]), Low8(s[6]), Low8(s[7]))
  }

  /** The word scan finds exactly the first byte that needs an escape. */
  lemma WordScan(s: seq<byte>)
    requires |s| == 8
    ensures First(Escapes(WordOf(s))) == CleanPrefix(s)
    ensures Escapes(WordOf(s)) == 0 <==> CleanPrefix(s) == 8
  {
    hide Low8, NeedsEscape, SpecialBits, Escapes, Word, First, CleanPrefix;
    EscapesFindsFirst(Low8(s[0]), Low8(s[1]), Low8(s[2]), Low8(s[3]), Low8(s[4]), Low8(s[5]), Low8(s[6]), Low8(s[7]));
    SameByte(s[0]);
    SameByte(s[1]);
    SameByte(s[2]);
    SameByte(s[3]);
    SameByte(s[4]);
    SameByte(s[5]);
    SameByte(s[6]);
    SameByte(s[7]);
    CleanPrefixUnique(s, First(Escapes(WordOf(s))));
  }

  function ByteAt(s: seq<byte>, i: int): bv64
    requires |s| < 4
  {
    if 0 <= i < |s| then Place(Low8(s[i]), i) else 0
  }

  function HalfOf(s: seq<byte>): bv64
    requires |s| == 4
  {
    Half(Low8(s[0]), Low8(s[1]), Low8(s[2]), Low8(s[3]))
  }

  /** `short_word`: two overlapping halves, or three bytes that may coincide. */
  function ShortWord(s: seq<byte>): bv64
    requires |s| < 8
  {
    if |s| >= 4 then Or(HalfOf(s[..4]), Up(HalfOf(s[|s| - 4..]), |s| - 4))
    else Or(ByteAt(s, 0), Or(ByteAt(s, |s| / 2), ByteAt(s, |s| - 1)))
  }

  /** The bytes, then zeros. */
  function Padded(s: seq<byte>): (r: seq<byte>)
    requires |s| <= 8
    ensures |r| == 8 && r[..|s|] == s && forall i :: |s| <= i < 8 ==> r[i] == 0
  {
    s + seq(8 - |s|, _ => 0)
  }

  lemma ZeroByte()
    ensures Low8(0) == 0
  {
    hide Bits;
    NoBits();
  }

  /** Byte `i` of a text, and a zero past its end. */
  function LowAt(s: seq<byte>, i: nat): bv8 {
    if i < |s| then Low8(s[i]) else 0
  }

  lemma PaddedWord(s: seq<byte>)
    requires |s| <= 8
    ensures WordOf(Padded(s))
            == Word(LowAt(s, 0), LowAt(s, 1), LowAt(s, 2), LowAt(s, 3), LowAt(s, 4), LowAt(s, 5), LowAt(s, 6), LowAt(s, 7))
  {
    ZeroByte();
    hide Word, Low8;
    var p := Padded(s);
    forall i | 0 <= i < 8 ensures Low8(p[i]) == LowAt(s, i) {
      if i < |s| {
        assert p[i] == p[..|s|][i];
      }
    }
  }

  lemma PastEnd(s: seq<byte>, i: nat)
    requires i >= |s|
    ensures LowAt(s, i) == 0
  {
  }

  lemma Bytes3(s: seq<byte>, i: nat)
    requires i < |s| < 4
    ensures ByteAt(s, i) == Place(LowAt(s, i), i)
  {
    hide Place, Low8;
  }

  lemma ShortWordTiny(s: seq<byte>)
    requires |s| < 4
    ensures ShortWord(s) == WordOf(Padded(s))
  {
    PaddedWord(s);
    hide Word, WordOf, Padded, LowAt, ByteAt, Or, Place;
    Coincide(LowAt(s, 0), LowAt(s, 1), LowAt(s, 2));
    PastEnd(s, 3);
    PastEnd(s, 4);
    PastEnd(s, 5);
    PastEnd(s, 6);
    PastEnd(s, 7);
    if |s| == 0 {
      PastEnd(s, 0);
      PastEnd(s, 1);
      PastEnd(s, 2);
      NoBytes(s);
    } else if |s| == 1 {
      PastEnd(s, 1);
      PastEnd(s, 2);
      Bytes3(s, 0);
    } else if |s| == 2 {
      PastEnd(s, 2);
      Bytes3(s, 0);
      Bytes3(s, 1);
    } else {
      Bytes3(s, 0);
      Bytes3(s, 1);
      Bytes3(s, 2);
    }
  }

  lemma NoBytes(s: seq<byte>)
    requires s == []
    ensures ByteAt(s, 0) == 0 && ByteAt(s, -1) == 0
  {
  }

  lemma Halves(s: seq<byte>)
    requires 4 <= |s| < 8
    ensures HalfOf(s[..4]) == Half(LowAt(s, 0), LowAt(s, 1), LowAt(s, 2), LowAt(s, 3))
    ensures var k := |s| - 4; HalfOf(s[k..]) == Half(LowAt(s, k), LowAt(s, k + 1), LowAt(s, k + 2), LowAt(s, k + 3))
  {
    hide Low8, Half;
  }

  lemma ShortWordLong(s: seq<byte>)
    requires 4 <= |s| < 8
    ensures ShortWord(s) == WordOf(Padded(s))
  {
    PaddedWord(s);
    Halves(s);
    hide Word, WordOf, Padded, Half, HalfOf, LowAt, Or, Up;
    var a, b, c, d := LowAt(s, 0), LowAt(s, 1), LowAt(s, 2), LowAt(s, 3);
    PastEnd(s, 7);
    if |s| == 4 {
      PastEnd(s, 4);
      PastEnd(s, 5);
      PastEnd(s, 6);
      Overlap4(a, b, c, d);
    } else if |s| == 5 {
      PastEnd(s, 5);
      PastEnd(s, 6);
      Overlap5(a, b, c, d, LowAt(s, 4));
    } else if |s| == 6 {
      PastEnd(s, 6);
      Overlap6(a, b, c, d, LowAt(s, 4), LowAt(s, 5));
    } else {
      Overlap7(a, b, c, d, LowAt(s, 4), LowAt(s, 5), LowAt(s, 6));
    }
  }

  /** `short_word` is the text as a word padded with zeros. */
  lemma ShortWordIsPadded(s: seq<byte>)
    requires |s| < 8
    ensures ShortWord(s) == WordOf(Padded(s))
  {
    if |s| < 4 {
      ShortWordTiny(s);
    } else {
      ShortWordLong(s);
    }
  }

  /** The padding needs escapes, so the scan of a short word stops at the text's own first special byte or at its end. */
  lemma ShortScan(s: seq<byte>)
    requires |s| < 8
    ensures First(Escapes(ShortWord(s))) == CleanPrefix(s)
  {
    hide Escapes, WordOf, ShortWord, First, CleanPrefix;
    var p := Padded(s);
    ShortWordIsPadded(s);
    WordScan(p);
    var n := CleanPrefix(p);
    assert forall i :: 0 <= i < |s| ==> s[i] == p[i];
    assert NeedsEscape(p[|s|]);
    assert n <= |s|;
    CleanPrefixUnique(s, n);
  }

  function ByteOf(x: bv8): byte {
    Value(x & 0x80 != 0, x & 0x40 != 0, x & 0x20 != 0, x & 0x10 != 0, x & 8 != 0, x & 4 != 0, x & 2 != 0, x & 1 != 0)
  }

  lemma ByteBack(n: byte)
    ensures ByteOf(Low8(n)) == n
  {
    hide Low8, Bits, Value;
    var a, b, c, d, e, f, g, h := BitsOf(n);
    BitsAre(a, b, c, d, e, f, g, h);
  }

  /** `u64::to_le_bytes`. */
  function BytesOf(w: bv64): (r: seq<byte>)
    ensures |r| == 8
  {
    seq(8, k requires 0 <= k < 8 => ByteOf(Lane(w, k)))
  }

  lemma BytesBack(s: seq<byte>)
    ensures forall i :: 0 <= i < |s| ==> ByteOf(Low8(s[i])) == s[i]
  {
    forall i | 0 <= i < |s| ensures ByteOf(Low8(s[i])) == s[i] {
      ByteBack(s[i]);
    }
  }

  lemma BytesOfWord(s: seq<byte>)
    requires |s| == 8
    ensures BytesOf(WordOf(s)) == s
  {
    hide Word, Low8, ByteOf, Lane;
    BytesBack(s);
    WordLanes(Low8(s[0]), Low8(s[1]), Low8(s[2]), Low8(s[3]), Low8(s[4]), Low8(s[5]), Low8(s[6]), Low8(s[7]));
  }

  /** `clean_len`: whole words, then the last word again from the end, or a padded word if there is none. */
  method CleanLen(s: seq<byte>) returns (n: nat)
    ensures n == CleanPrefix(s)
  {
    hide Escapes, First, WordOf, ShortWord, CleanPrefix, NeedsEscape;
    var i := 0;
    while i < |s| / 8
      invariant 0 <= i <= |s| / 8
      invariant forall j :: 0 <= j < 8 * i ==> !NeedsEscape(s[j])
    {
      var word := s[8 * i..8 * i + 8];
      var found := Escapes(WordOf(word));
      WordScan(word);
      CleanBlock(s, 8 * i, 8);
      if found != 0 {
        return 8 * i + First(found);
      }
      i := i + 1;
    }
    if |s| % 8 == 0 {
      CleanPrefixUnique(s, |s|);
      return |s|;
    }
    if |s| >= 8 {
      var word := s[|s| - 8..];
      WordScan(word);
      CleanBlock(s, |s| - 8, 8);
      return |s| - 8 + First(Escapes(WordOf(word)));
    }
    ShortScan(s);
    var found := First(Escapes(ShortWord(s)));
    return if found < |s| then found else |s|;
  }

  /** After clean text, the scan of the next block decides, unless the block is clean too. */
  lemma CleanBlock(s: seq<byte>, start: nat, len: nat)
    requires start + len <= |s| && forall j :: 0 <= j < start ==> !NeedsEscape(s[j])
    ensures var n := CleanPrefix(s[start..start + len]);
            && (n < len || start + len == |s| ==> CleanPrefix(s) == start + n)
            && (n == len ==> forall j :: 0 <= j < start + len ==> !NeedsEscape(s[j]))
  {
    hide CleanPrefix, NeedsEscape;
    var block := s[start..start + len];
    var n := CleanPrefix(block);
    assert forall j :: start <= j < start + n ==> s[j] == block[j - start];
    if n < len || start + len == |s| {
      assert n < len ==> s[start + n] == block[n];
      CleanPrefixUnique(s, start + n);
    }
  }

  // ---------- Numbers ----------

  function Pow10(k: nat): (p: nat)
    ensures p >= 1
  {
    if k == 0 then 1 else 10 * Pow10(k - 1)
  }

  lemma PowerStep(n: nat, k: nat)
    requires n < Pow10(k + 1)
    ensures n / 10 < Pow10(k) && (k == 0 ==> n / 10 == 0)
  {
  }

  lemma DecimalStep(n: nat)
    ensures n < 10 ==> Decimal(n) == [0x30 + n % 10] && n / 10 == 0
    ensures n >= 10 ==> Decimal(n) == Decimal(n / 10) + [0x30 + n % 10]
  {
  }

  lemma Pow10Twenty()
    ensures U64_LIMIT <= Pow10(20)
  {
    assert Pow10(5) == 100000;
    assert Pow10(10) == 10000000000;
    assert Pow10(15) == 1000000000000000;
  }

  /** `write_u64`: the digits fill a buffer from its end. */
  method Digits(value: u64) returns (text: seq<byte>)
    ensures text == Decimal(value)
  {
    hide Decimal, Pow10;
    var digits := new byte[20](_ => 0);
    var start := 20;
    var n: nat := value;
    Pow10Twenty();
    assert digits[20..] == [] && Decimal(value) + [] == Decimal(value);
    while true
      invariant 1 <= start <= 20 && n < Pow10(start)
      invariant Decimal(value) == Decimal(n) + digits[start..]
      decreases n, start
    {
      ghost var tail := digits[start..];
      start := start - 1;
      digits[start] := 0x30 + n % 10;
      assert digits[start..] == [0x30 + n % 10] + tail;
      DecimalStep(n);
      PowerStep(n, start);
      assert n >= 10 ==> Decimal(n / 10) + [0x30 + n % 10] + tail == Decimal(n / 10) + ([0x30 + n % 10] + tail);
      n := n / 10;
      if n == 0 {
        break;
      }
    }
    return digits[start..];
  }
}
