/** UTF-8 validity (RFC 3629), as `from_utf8` decides it. */
module Utf8 {
  import opened Bytes

  predicate Continuation(b: byte) {
    0x80 <= b <= 0xbf
  }

  /** The length of the well-formed sequence that starts `s`, or 0. */
  function SequenceLength(s: seq<byte>): (n: nat)
    ensures n <= |s|
  {
    if s == [] then 0
    else if s[0] < 0x80 then 1
    else if |s| >= 2 && 0xc2 <= s[0] <= 0xdf && Continuation(s[1]) then 2
    else if |s| >= 3 && 0xe0 <= s[0] <= 0xef && Continuation(s[1]) && Continuation(s[2])
            && (s[0] == 0xe0 ==> s[1] >= 0xa0) && (s[0] == 0xed ==> s[1] <= 0x9f) then 3
    else if |s| >= 4 && 0xf0 <= s[0] <= 0xf4 && Continuation(s[1]) && Continuation(s[2]) && Continuation(s[3])
            && (s[0] == 0xf0 ==> s[1] >= 0x90) && (s[0] == 0xf4 ==> s[1] <= 0x8f) then 4
    else 0
  }

  predicate ValidUtf8(s: seq<byte>) {
    s == [] || (SequenceLength(s) > 0 && ValidUtf8(s[SequenceLength(s)..]))
  }

  predicate IsAscii(s: seq<byte>) {
    forall i :: 0 <= i < |s| ==> s[i] < 0x80
  }

  /** The quick test in front of the full one never lets anything else through. */
  lemma {:induction false} AsciiIsUtf8(s: seq<byte>)
    requires IsAscii(s)
    ensures ValidUtf8(s)
  {
    if s != [] {
      AsciiIsUtf8(s[1..]);
    }
  }

  // ---------- What it means ----------

  /** A Unicode scalar value: a code point that is no surrogate. */
  predicate ScalarValue(c: nat) {
    c <= 0x10_ffff && !(0xd800 <= c <= 0xdfff)
  }

  /** The encoding of a scalar value (RFC 3629, section 3). */
  function EncodeScalar(c: nat): (r: seq<byte>)
    requires ScalarValue(c)
    ensures 0 < |r| <= 4
  {
    if c < 0x80 then [c]
    else if c < 0x800 then [0xc0 + c / 0x40, 0x80 + c % 0x40]
    else if c < 0x1_0000 then [0xe0 + c / 0x1000, 0x80 + c / 0x40 % 0x40, 0x80 + c % 0x40]
    else [0xf0 + c / 0x4_0000, 0x80 + c / 0x1000 % 0x40, 0x80 + c / 0x40 % 0x40, 0x80 + c % 0x40]
  }

  predicate ScalarValues(cs: seq<nat>) {
    forall i :: 0 <= i < |cs| ==> ScalarValue(cs[i])
  }

  function EncodeScalars(cs: seq<nat>): seq<byte>
    requires ScalarValues(cs)
  {
    if cs == [] then [] else EncodeScalar(cs[0]) + EncodeScalars(cs[1..])
  }

  /** A well-formed sequence is the encoding of a scalar value. */
  lemma SequenceIsScalar(s: seq<byte>) returns (c: nat)
    requires SequenceLength(s) > 0
    ensures ScalarValue(c) && s[..SequenceLength(s)] == EncodeScalar(c)
  {
    var n := SequenceLength(s);
    if n == 1 {
      c := s[0];
    } else if n == 2 {
      c := (s[0] as int - 0xc0) * 0x40 + (s[1] as int - 0x80);
    } else if n == 3 {
      c := ThreeIsScalar(s);
    } else {
      c := FourIsScalar(s);
    }
  }

  lemma ThreeIsScalar(s: seq<byte>) returns (c: nat)
    requires SequenceLength(s) == 3
    ensures ScalarValue(c) && s[..3] == EncodeScalar(c)
  {
    var x: nat, y: nat, z: nat := s[0] as int - 0xe0, s[1] as int - 0x80, s[2] as int - 0x80;
    assert x == 0 ==> y >= 0x20;
    assert x == 0xd ==> y < 0x20;
    hide SequenceLength;
    ThreeBytes(x, y, z);
    c := x * 0x1000 + y * 0x40 + z;
  }

  lemma FourIsScalar(s: seq<byte>) returns (c: nat)
    requires SequenceLength(s) == 4
    ensures ScalarValue(c) && s[..4] == EncodeScalar(c)
  {
    var w: nat, x: nat, y: nat, z: nat := s[0] as int - 0xf0, s[1] as int - 0x80, s[2] as int - 0x80, s[3] as int - 0x80;
    assert w == 0 ==> x >= 0x10;
    assert w == 4 ==> x < 0x10;
    hide SequenceLength;
    FourBytes(w, x, y, z);
    c := w * 0x4_0000 + x * 0x1000 + y * 0x40 + z;
  }

  lemma ThreeBytes(x: nat, y: nat, z: nat)
    requires y < 0x40 && z < 0x40
    ensures var c := x * 0x1000 + y * 0x40 + z; c / 0x1000 == x && c / 0x40 % 0x40 == y && c % 0x40 == z
  {
    var c := x * 0x1000 + y * 0x40 + z;
    assert c / 0x40 == x * 0x40 + y;
    assert c / 0x1000 == x;
  }

  lemma FourBytes(w: nat, x: nat, y: nat, z: nat)
    requires x < 0x40 && y < 0x40 && z < 0x40
    ensures var c := w * 0x4_0000 + x * 0x1000 + y * 0x40 + z;
            c / 0x4_0000 == w && c / 0x1000 % 0x40 == x && c / 0x40 % 0x40 == y && c % 0x40 == z
  {
    var c := w * 0x4_0000 + x * 0x1000 + y * 0x40 + z;
    assert c / 0x40 == w * 0x1000 + x * 0x40 + y;
    ThreeBytes(w, x, y);
    assert c / 0x1000 == w * 0x40 + x;
  }

  /** The encoding of a scalar value is a well-formed sequence, whatever follows. */
  lemma ScalarIsSequence(c: nat, rest: seq<byte>)
    requires ScalarValue(c)
    ensures SequenceLength(EncodeScalar(c) + rest) == |EncodeScalar(c)|
  {
    var e := EncodeScalar(c);
    var s := e + rest;
    assert forall i :: 0 <= i < |e| ==> s[i] == e[i];
  }

  lemma {:induction false} ScalarsAreValid(cs: seq<nat>)
    requires ScalarValues(cs)
    ensures ValidUtf8(EncodeScalars(cs))
  {
    if cs != [] {
      var e, rest := EncodeScalar(cs[0]), EncodeScalars(cs[1..]);
      ScalarIsSequence(cs[0], rest);
      ScalarsAreValid(cs[1..]);
      assert (e + rest)[|e|..] == rest;
    }
  }

  lemma {:induction false} ValidIsScalars(s: seq<byte>) returns (cs: seq<nat>)
    requires ValidUtf8(s)
    ensures ScalarValues(cs) && s == EncodeScalars(cs)
    decreases |s|
  {
    hide *;
    if s == [] {
      cs := [];
      NoScalars();
    } else {
      FirstSequence(s);
      var n := SequenceLength(s);
      var c := SequenceIsScalar(s);
      var more := ValidIsScalars(s[n..]);
      cs := [c] + more;
      FirstScalar(c, more);
      assert s == s[..n] + s[n..];
    }
  }

  lemma NoScalars()
    ensures ScalarValues([]) && EncodeScalars([]) == []
  {
  }

  lemma FirstSequence(s: seq<byte>)
    requires ValidUtf8(s) && s != []
    ensures SequenceLength(s) > 0 && ValidUtf8(s[SequenceLength(s)..])
  {
    hide SequenceLength;
  }

  lemma FirstScalar(c: nat, more: seq<nat>)
    requires ScalarValue(c) && ScalarValues(more)
    ensures ScalarValues([c] + more) && EncodeScalars([c] + more) == EncodeScalar(c) + EncodeScalars(more)
  {
    hide EncodeScalar, ScalarValue;
    assert ([c] + more)[1..] == more;
  }

  /** Valid text is exactly what scalar values encode to. */
  lemma ValidIffScalars(s: seq<byte>)
    ensures ValidUtf8(s) <==> exists cs :: ScalarValues(cs) && s == EncodeScalars(cs)
  {
    if ValidUtf8(s) {
      var cs := ValidIsScalars(s);
    }
    if cs :| ScalarValues(cs) && s == EncodeScalars(cs) {
      ScalarsAreValid(cs);
    }
  }
}
