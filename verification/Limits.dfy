/** The limits of the codec in numbers: which floats and integers it takes, how deep and how long collections may be. */
module Limits {
  import opened Wrappers
  import opened Bytes
  import opened Drisl
  import opened DecodeSpec
  import opened Canonicity
  import opened EncodeSpec
  import opened RoundTrip

  // ---------- Floats ----------

  /**
   The encoder takes a float exactly if, without its sign, its bits are below those of infinity (IEEE 754: from there on
   the exponent is all ones).
   */
  lemma FloatEncodes(bits: u64)
    ensures Encoding(Float(bits)).Ok? <==> bits % 0x8000_0000_0000_0000 < 0x7ff0_0000_0000_0000
  {
    SignlessExponent(bits);
  }

  /** And so does the decoder, which tells infinity from what is above it, the NaNs. */
  lemma FloatDecodes(bits: u64)
    ensures var m := bits % 0x8000_0000_0000_0000;
            var data := [0xfb] + Be(bits, 8);
            && (m < 0x7ff0_0000_0000_0000 ==> Decode(data) == Ok(Float(bits)))
            && (m == 0x7ff0_0000_0000_0000 ==> Decode(data) == Err(InvalidCbor(InfiniteNumber)))
            && (m > 0x7ff0_0000_0000_0000 ==> Decode(data) == Err(InvalidCbor(NotANumber)))
  {
    SignlessExponent(bits);
    var data := [0xfb] + Be(bits, 8);
    assert data[1..1 + 8] == Be(bits, 8);
    Pow256Values();
    FromBeOfBe(bits, 8);
    hide Be, FromBe, Pow256, Finite, NotANumberBits;
    assert data[0] / 32 == 7 && data[0] % 32 == 27;
    assert ReadFixed(data, 1, 8) == Ok((Be(bits, 8), 9));
  }

  lemma SignlessExponent(bits: u64)
    ensures var m := bits % 0x8000_0000_0000_0000;
            && (Finite(bits) <==> m < 0x7ff0_0000_0000_0000)
            && (NotANumberBits(bits) <==> m > 0x7ff0_0000_0000_0000)
  {
    var f := bits % 0x10_0000_0000_0000;
    var q := bits / 0x10_0000_0000_0000;
    assert bits == 0x10_0000_0000_0000 * q + f;
    assert bits % 0x8000_0000_0000_0000 == 0x10_0000_0000_0000 * (q % 0x800) + f;
  }

  // ---------- Integers ----------

  /** A non-negative integer decodes exactly if it is below 2^63. */
  lemma UnsignedDecodes(n: u64)
    ensures Decode(Head(0, n)) == if n < 0x8000_0000_0000_0000 then Ok(Unsigned(n)) else Err(InvalidCbor(UnsignedOutOfRange))
  {
    Alone(0, n);
  }

  /** A negative one decodes exactly if it is at least -2^63. */
  lemma NegativeDecodes(n: u64)
    ensures Decode(Head(1, n)) == if n < 0x8000_0000_0000_0000 then Ok(Signed(-1 - n)) else Err(InvalidCbor(NegativeOutOfRange))
  {
    Alone(1, n);
  }

  lemma Alone(major: nat, n: u64)
    requires major < 8
    ensures var data := Head(major, n);
            && data[0] / 32 == major
            && ReadArgument(data, 1, data[0] % 32) == Ok((n, |data|))
  {
    var data := Head(major, n);
    assert data[0..|data|] == data;
    HeadIsRead(data, 0, major, n);
  }

  // ---------- Collections ----------

  /** `n` arrays inside an array. */
  function Nested(n: nat): Value {
    Array(if n == 0 then [] else [Nested(n - 1)])
  }

  /** Sixty-four levels decode, sixty-five do not. */
  lemma NestingLimit(n: nat)
    requires n + 1 < U64_LIMIT
    ensures Decode(Enc(Nested(n))).Ok? <==> n + 1 <= 64
  {
    NestedIs(n);
    NestedFits(n, 0);
    EncodeThenDecode(Nested(n));
  }

  lemma {:induction false} NestedIs(n: nat)
    requires n + 1 < U64_LIMIT
    ensures var v := Nested(n); Normal(v) == v && AllFinite(v) && Sized(v) && |Enc(v)| == n + 1
  {
    if n > 0 {
      var v := Nested(n - 1);
      NestedIs(n - 1);
      assert [v][1..] == [];
      assert EncItems([v]) == Enc(v) + EncItems([v][1..]);
      assert NormalItems([v]) == [Normal(v)] + NormalItems([v][1..]);
    }
  }

  lemma {:induction false} NestedFits(n: nat, depth: nat)
    ensures Fits(Nested(n), depth) <==> depth + n < 64
  {
    if n > 0 {
      NestedFits(n - 1, depth + 1);
      var items := Nested(n).items;
      assert items[0] == Nested(n - 1);
    }
  }

  function Nulls(n: nat): (r: seq<Value>)
    ensures |r| == n && forall i :: 0 <= i < n ==> r[i] == Null
  {
    seq(n, _ => Null)
  }

  /** Half a million items decode, one more does not. */
  lemma LengthLimit(n: nat)
    requires n < 0x1_0000_0000
    ensures Decode(Enc(Array(Nulls(n)))).Ok? <==> n <= 500_000
  {
    var v := Array(Nulls(n));
    NullsAre(v.items);
    assert Normal(v) == v && Accepts(true, v);
    assert |Enc(v)| <= 9 + n;
    assert Sized(Null) && Fits(Null, 1);
    EncodeThenDecode(v);
  }

  lemma {:induction false} NullsAre(items: seq<Value>)
    requires forall i :: 0 <= i < |items| ==> items[i] == Null
    ensures NormalItems(items) == items && AcceptsItems(true, items) && |EncItems(items)| == |items|
  {
    if items != [] {
      NullsAre(items[1..]);
      assert items == [Null] + items[1..];
    }
  }
}
