/** Machine words as eight bytes: the bit arithmetic of the escape scan, one lane at a time. */
module Words {

  /** The bytes that need an escape in a JSON string. */
  predicate SpecialBits(b: bv8) {
    b < 0x20 || b == 0x22 || b == 0x5c
  }

  /** Eight bytes as a word, the first lowest. */
  function Word(a: bv8, b: bv8, c: bv8, d: bv8, e: bv8, f: bv8, g: bv8, h: bv8): bv64 {
    (a as bv64) | ((b as bv64) << 8) | ((c as bv64) << 16) | ((d as bv64) << 24)
    | ((e as bv64) << 32) | ((f as bv64) << 40) | ((g as bv64) << 48) | ((h as bv64) << 56)
  }

  /** `escapes`: three wrapping subtractions and a mask. */
  function Escapes(word: bv64): bv64 {
    var quote := word ^ 0x2222_2222_2222_2222;
    var backslash := word ^ 0x5c5c_5c5c_5c5c_5c5c;
    ((word - 0x2020_2020_2020_2020) | (quote - 0x0101_0101_0101_0101) | (backslash - 0x0101_0101_0101_0101))
    & !word & 0x8080_8080_8080_8080
  }

  /** `u64::trailing_zeros`, by halving: 64 for zero, else the place of the lowest bit set. */
  function TrailingZeros(f: bv64): nat {
    if f == 0 then 64
    else
      var f5: bv64 := if f & 0xffff_ffff == 0 then f >> 32 else f;
      var f4: bv64 := if f5 & 0xffff == 0 then f5 >> 16 else f5;
      var f3: bv64 := if f4 & 0xff == 0 then f4 >> 8 else f4;
      var f2: bv64 := if f3 & 0xf == 0 then f3 >> 4 else f3;
      var f1: bv64 := if f2 & 0x3 == 0 then f2 >> 2 else f2;
      (if f & 0xffff_ffff == 0 then 32 else 0) + (if f5 & 0xffff == 0 then 16 else 0) + (if f4 & 0xff == 0 then 8 else 0)
      + (if f3 & 0xf == 0 then 4 else 0) + (if f2 & 0x3 == 0 then 2 else 0) + (if f1 & 0x1 == 0 then 1 else 0)
  }

  /** `first`: the index of the lowest byte with a bit set, or 8. */
  function First(found: bv64): nat {
    TrailingZeros(found) / 8
  }

  /** The index of the first special byte of eight, or 8. */
  function FirstSpecial(a: bv8, b: bv8, c: bv8, d: bv8, e: bv8, f: bv8, g: bv8, h: bv8): nat {
    if SpecialBits(a) then 0 else if SpecialBits(b) then 1 else if SpecialBits(c) then 2 else if SpecialBits(d) then 3
    else if SpecialBits(e) then 4 else if SpecialBits(f) then 5 else if SpecialBits(g) then 6
    else if SpecialBits(h) then 7 else 8
  }

  lemma FoundAt0(a: bv8, b: bv8, c: bv8, d: bv8, e: bv8, f: bv8, g: bv8, h: bv8)
    requires SpecialBits(a)
    ensures First(Escapes(Word(a, b, c, d, e, f, g, h))) == 0 && Escapes(Word(a, b, c, d, e, f, g, h)) != 0
  {
  }

  lemma FoundAt1(a: bv8, b: bv8, c: bv8, d: bv8, e: bv8, f: bv8, g: bv8, h: bv8)
    requires !SpecialBits(a) && SpecialBits(b)
    ensures First(Escapes(Word(a, b, c, d, e, f, g, h))) == 1 && Escapes(Word(a, b, c, d, e, f, g, h)) != 0
  {
  }

  lemma FoundAt2(a: bv8, b: bv8, c: bv8, d: bv8, e: bv8, f: bv8, g: bv8, h: bv8)
    requires !SpecialBits(a) && !SpecialBits(b) && SpecialBits(c)
    ensures First(Escapes(Word(a, b, c, d, e, f, g, h))) == 2 && Escapes(Word(a, b, c, d, e, f, g, h)) != 0
  {
  }

  lemma FoundAt3(a: bv8, b: bv8, c: bv8, d: bv8, e: bv8, f: bv8, g: bv8, h: bv8)
    requires !SpecialBits(a) && !SpecialBits(b) && !SpecialBits(c) && SpecialBits(d)
    ensures First(Escapes(Word(a, b, c, d, e, f, g, h))) == 3 && Escapes(Word(a, b, c, d, e, f, g, h)) != 0
  {
  }

  lemma FoundAt4(a: bv8, b: bv8, c: bv8, d: bv8, e: bv8, f: bv8, g: bv8, h: bv8)
    requires !SpecialBits(a) && !SpecialBits(b) && !SpecialBits(c) && !SpecialBits(d) && SpecialBits(e)
    ensures First(Escapes(Word(a, b, c, d, e, f, g, h))) == 4 && Escapes(Word(a, b, c, d, e, f, g, h)) != 0
  {
  }

  lemma FoundAt5(a: bv8, b: bv8, c: bv8, d: bv8, e: bv8, f: bv8, g: bv8, h: bv8)
    requires !SpecialBits(a) && !SpecialBits(b) && !SpecialBits(c) && !SpecialBits(d) && !SpecialBits(e) && SpecialBits(f)
    ensures First(Escapes(Word(a, b, c, d, e, f, g, h))) == 5 && Escapes(Word(a, b, c, d, e, f, g, h)) != 0
  {
  }

  lemma FoundAt6(a: bv8, b: bv8, c: bv8, d: bv8, e: bv8, f: bv8, g: bv8, h: bv8)
    requires !SpecialBits(a) && !SpecialBits(b) && !SpecialBits(c) && !SpecialBits(d) && !SpecialBits(e) && !SpecialBits(f) && SpecialBits(g)
    ensures First(Escapes(Word(a, b, c, d, e, f, g, h))) == 6 && Escapes(Word(a, b, c, d, e, f, g, h)) != 0
  {
  }

  lemma FoundAt7(a: bv8, b: bv8, c: bv8, d: bv8, e: bv8, f: bv8, g: bv8, h: bv8)
    requires !SpecialBits(a) && !SpecialBits(b) && !SpecialBits(c) && !SpecialBits(d) && !SpecialBits(e) && !SpecialBits(f) && !SpecialBits(g) && SpecialBits(h)
    ensures First(Escapes(Word(a, b, c, d, e, f, g, h))) == 7 && Escapes(Word(a, b, c, d, e, f, g, h)) != 0
  {
  }

  lemma FoundAt8(a: bv8, b: bv8, c: bv8, d: bv8, e: bv8, f: bv8, g: bv8, h: bv8)
    requires !SpecialBits(a) && !SpecialBits(b) && !SpecialBits(c) && !SpecialBits(d) && !SpecialBits(e) && !SpecialBits(f) && !SpecialBits(g) && !SpecialBits(h)
    ensures First(Escapes(Word(a, b, c, d, e, f, g, h))) == 8 && Escapes(Word(a, b, c, d, e, f, g, h)) == 0
  {
  }

  /**
   Borrows may set bits above the first special byte, but never below it: the first byte that `escapes` finds is the
   first special one.
   */
  lemma EscapesFindsFirst(a: bv8, b: bv8, c: bv8, d: bv8, e: bv8, f: bv8, g: bv8, h: bv8)
    ensures var found := Escapes(Word(a, b, c, d, e, f, g, h));
            First(found) == FirstSpecial(a, b, c, d, e, f, g, h) && (found == 0 <==> First(found) == 8)
  {
    hide Escapes, Word, First, SpecialBits;
    if SpecialBits(a) {
      FoundAt0(a, b, c, d, e, f, g, h);
    } else if SpecialBits(b) {
      FoundAt1(a, b, c, d, e, f, g, h);
    } else if SpecialBits(c) {
      FoundAt2(a, b, c, d, e, f, g, h);
    } else if SpecialBits(d) {
      FoundAt3(a, b, c, d, e, f, g, h);
    } else if SpecialBits(e) {
      FoundAt4(a, b, c, d, e, f, g, h);
    } else if SpecialBits(f) {
      FoundAt5(a, b, c, d, e, f, g, h);
    } else if SpecialBits(g) {
      FoundAt6(a, b, c, d, e, f, g, h);
    } else if SpecialBits(h) {
      FoundAt7(a, b, c, d, e, f, g, h);
    } else {
      FoundAt8(a, b, c, d, e, f, g, h);
    }
  }

  /** Four bytes as half a word. */
  function Half(a: bv8, b: bv8, c: bv8, d: bv8): bv64 {
    (a as bv64) | ((b as bv64) << 8) | ((c as bv64) << 16) | ((d as bv64) << 24)
  }

  /** Shifted up by `k` bytes. */
  function Up(w: bv64, k: nat): bv64
    requires k < 4
  {
    match k
    case 0 => w << 0
    case 1 => w << 8
    case 2 => w << 16
    case _ => w << 24
  }

  /** A byte at place `k`. */
  function Place(b: bv8, k: nat): bv64
    requires k < 4
  {
    Up(b as bv64, k)
  }

  function Or(a: bv64, b: bv64): bv64 {
    a | b
  }

  lemma Overlap4(a: bv8, b: bv8, c: bv8, d: bv8)
    ensures Or(Half(a, b, c, d), Up(Half(a, b, c, d), 0)) == Word(a, b, c, d, 0, 0, 0, 0)
  {
  }

  lemma Overlap5(a: bv8, b: bv8, c: bv8, d: bv8, e: bv8)
    ensures Or(Half(a, b, c, d), Up(Half(b, c, d, e), 1)) == Word(a, b, c, d, e, 0, 0, 0)
  {
  }

  lemma Overlap6(a: bv8, b: bv8, c: bv8, d: bv8, e: bv8, f: bv8)
    ensures Or(Half(a, b, c, d), Up(Half(c, d, e, f), 2)) == Word(a, b, c, d, e, f, 0, 0)
  {
  }

  lemma Overlap7(a: bv8, b: bv8, c: bv8, d: bv8, e: bv8, f: bv8, g: bv8)
    ensures Or(Half(a, b, c, d), Up(Half(d, e, f, g), 3)) == Word(a, b, c, d, e, f, g, 0)
  {
  }

  /** Three bytes, of which some may be one and the same. */
  lemma Coincide(a: bv8, b: bv8, c: bv8)
    ensures Or(0, Or(0, 0)) == Word(0, 0, 0, 0, 0, 0, 0, 0)
    ensures Or(Place(a, 0), Or(Place(a, 0), Place(a, 0))) == Word(a, 0, 0, 0, 0, 0, 0, 0)
    ensures Or(Place(a, 0), Or(Place(b, 1), Place(b, 1))) == Word(a, b, 0, 0, 0, 0, 0, 0)
    ensures Or(Place(a, 0), Or(Place(b, 1), Place(c, 2))) == Word(a, b, c, 0, 0, 0, 0, 0)
  {
    OneByte(a);
    TwoBytes(a, b);
    ThreeBytes(a, b, c);
    hide Place;
  }

  lemma OneByte(a: bv8)
    ensures Or(Place(a, 0), Or(Place(a, 0), Place(a, 0))) == Word(a, 0, 0, 0, 0, 0, 0, 0)
  {
  }

  lemma TwoBytes(a: bv8, b: bv8)
    ensures Or(Place(a, 0), Or(Place(b, 1), Place(b, 1))) == Word(a, b, 0, 0, 0, 0, 0, 0)
  {
  }

  lemma ThreeBytes(a: bv8, b: bv8, c: bv8)
    ensures Or(Place(a, 0), Or(Place(b, 1), Place(c, 2))) == Word(a, b, c, 0, 0, 0, 0, 0)
  {
  }

  /** Byte `k` of a word. */
  function Lane(w: bv64, k: nat): bv8
    requires k < 8
  {
    match k
    case 0 => (w & 0xff) as bv8
    case 1 => ((w >> 8) & 0xff) as bv8
    case 2 => ((w >> 16) & 0xff) as bv8
    case 3 => ((w >> 24) & 0xff) as bv8
    case 4 => ((w >> 32) & 0xff) as bv8
    case 5 => ((w >> 40) & 0xff) as bv8
    case 6 => ((w >> 48) & 0xff) as bv8
    case _ => ((w >> 56) & 0xff) as bv8
  }

  lemma WordLanes(a: bv8, b: bv8, c: bv8, d: bv8, e: bv8, f: bv8, g: bv8, h: bv8)
    ensures var w := Word(a, b, c, d, e, f, g, h);
            && Lane(w, 0) == a && Lane(w, 1) == b && Lane(w, 2) == c && Lane(w, 3) == d
            && Lane(w, 4) == e && Lane(w, 5) == f && Lane(w, 6) == g && Lane(w, 7) == h
  {
  }

  // ---------- The bits of a byte ----------

  /** Eight bits, the highest first. */
  function Bits(a: bool, b: bool, c: bool, d: bool, e: bool, f: bool, g: bool, h: bool): bv8 {
    (if a then 0x80 else 0) | (if b then 0x40 else 0) | (if c then 0x20 else 0) | (if d then 0x10 else 0)
    | (if e then 8 else 0) | (if f then 4 else 0) | (if g then 2 else 0) | (if h then 1 else 0)
  }

  function Worth(bit: bool, p: nat): (n: int)
    ensures 0 <= n <= p
  {
    if bit then p else 0
  }

  /** The number they spell. */
  function Value(a: bool, b: bool, c: bool, d: bool, e: bool, f: bool, g: bool, h: bool): (n: int)
    ensures 0 <= n < 256
  {
    Worth(a, 128) + Worth(b, 64) + Worth(c, 32) + Worth(d, 16) + Worth(e, 8) + Worth(f, 4) + Worth(g, 2) + Worth(h, 1)
  }

  lemma BitsAre(a: bool, b: bool, c: bool, d: bool, e: bool, f: bool, g: bool, h: bool)
    ensures var x := Bits(a, b, c, d, e, f, g, h);
            && (x & 0x80 != 0 <==> a) && (x & 0x40 != 0 <==> b) && (x & 0x20 != 0 <==> c) && (x & 0x10 != 0 <==> d)
            && (x & 8 != 0 <==> e) && (x & 4 != 0 <==> f) && (x & 2 != 0 <==> g) && (x & 1 != 0 <==> h)
  {
  }

  lemma SpecialBitsAre(a: bool, b: bool, c: bool, d: bool, e: bool, f: bool, g: bool, h: bool)
    ensures SpecialBits(Bits(a, b, c, d, e, f, g, h))
            <==> (!a && !b && !c) || (!a && !b && c && !d && !e && !f && g && !h) || (!a && b && !c && d && e && f && !g && !h)
  {
  }

  lemma SpecialValue(a: bool, b: bool, c: bool, d: bool, e: bool, f: bool, g: bool, h: bool)
    ensures var n := Value(a, b, c, d, e, f, g, h);
            n < 0x20 || n == 0x22 || n == 0x5c
            <==> (!a && !b && !c) || (!a && !b && c && !d && !e && !f && g && !h) || (!a && b && !c && d && e && f && !g && !h)
  {
  }

  lemma NoBits()
    ensures Bits(false, false, false, false, false, false, false, false) == 0
  {
  }
}
