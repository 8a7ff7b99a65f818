/** Base-x decoding of CID strings. */
module BaseX {
  import opened Wrappers
  import opened Bytes

  type u32 = n: int | 0 <= n < 0x1_0000_0000 witness 0

  // ---------- What a string stands for ----------

  /** The first place of `c` in the alphabet. */
  function Digit(alphabet: seq<byte>, c: byte): (d: Option<nat>)
    ensures d.Some? ==> d.value < |alphabet| && alphabet[d.value] == c && c !in alphabet[..d.value]
    ensures d.None? ==> c !in alphabet
  {
    if alphabet == [] then None
    else if alphabet[0] == c then Some(0)
    else match Digit(alphabet[1..], c)
      case Some(d) => Some(d + 1)
      case None => None
  }

  /** The positional value of a string of digits. */
  function Numeral(s: seq<byte>, alphabet: seq<byte>): Option<nat> {
    if s == [] then Some(0)
    else match (Numeral(s[..|s| - 1], alphabet), Digit(alphabet, s[|s| - 1]))
      case (Some(n), Some(d)) => Some(n * |alphabet| + d)
      case _ => None
  }

  function LeadingZeros(s: seq<byte>, zero: byte): (z: nat)
    ensures z <= |s|
    ensures forall i :: 0 <= i < z ==> s[i] == zero
    ensures z < |s| ==> s[z] != zero
  {
    if s == [] || s[0] != zero then 0 else 1 + LeadingZeros(s[1..], zero)
  }

  /** The shortest big-endian form. */
  function Minimal(n: nat): (r: seq<byte>)
    ensures r != [] ==> r[0] != 0
    ensures n > 0 ==> r != []
  {
    if n == 0 then [] else Minimal(n / 256) + [n % 256]
  }

  function ZeroBytes(k: nat): (r: seq<byte>)
    ensures |r| == k && forall i :: 0 <= i < k ==> r[i] == 0
  {
    seq(k, _ => 0)
  }

  function BytesOf(s: seq<byte>, alphabet: seq<byte>): Option<seq<byte>> {
    if alphabet == [] then None
    else match Numeral(s, alphabet)
      case None => None
      case Some(n) => Some(ZeroBytes(LeadingZeros(s, alphabet[0])) + Minimal(n))
  }

  // ---------- Injectivity ----------

  lemma {:induction false} MinimalInjective(m: nat, n: nat)
    requires Minimal(m) == Minimal(n)
    ensures m == n
  {
    if m > 0 && n > 0 {
      var a, b := Minimal(m), Minimal(n);
      assert a[..|a| - 1] == Minimal(m / 256) && b[..|b| - 1] == Minimal(n / 256);
      MinimalInjective(m / 256, n / 256);
      assert a[|a| - 1] == m % 256 && b[|b| - 1] == n % 256;
    }
  }

  lemma {:induction false} AllZeros(s: seq<byte>, alphabet: seq<byte>)
    requires alphabet != [] && Numeral(s, alphabet).Some?
    ensures Numeral(s, alphabet) == Some(0) <==> LeadingZeros(s, alphabet[0]) == |s|
  {
    if s != [] {
      var front, last := s[..|s| - 1], s[|s| - 1];
      AllZeros(front, alphabet);
      var n, d := Numeral(front, alphabet).value, Digit(alphabet, last).value;
      ProductZero(n, |alphabet|);
      assert d == 0 <==> last == alphabet[0];
      ZerosOfFront(s, alphabet[0]);
    }
  }

  lemma ProductZero(n: nat, base: nat)
    requires base > 0
    ensures n * base == 0 <==> n == 0
    ensures n > 0 ==> n * base >= base
  {
    if n > 0 {
      assert n * base == base + (n - 1) * base;
    }
  }

  lemma {:induction false} ZerosOfFront(s: seq<byte>, zero: byte)
    requires s != []
    ensures var z := LeadingZeros(s, zero);
            if z == |s| then LeadingZeros(s[..|s| - 1], zero) == |s| - 1 && s[|s| - 1] == zero
            else LeadingZeros(s[..|s| - 1], zero) == z
  {
    if s[0] == zero && |s| > 1 {
      ZerosOfFront(s[1..], zero);
      assert s[1..][..|s| - 2] == s[..|s| - 1][1..];
    }
  }

  /** No two strings over an alphabet stand for the same number with the same leading zeros. */
  lemma {:induction false} NumeralInjective(s: seq<byte>, t: seq<byte>, alphabet: seq<byte>)
    requires alphabet != [] && Numeral(s, alphabet).Some? && Numeral(s, alphabet) == Numeral(t, alphabet)
    requires LeadingZeros(s, alphabet[0]) == LeadingZeros(t, alphabet[0])
    ensures s == t
  {
    AllZeros(s, alphabet);
    AllZeros(t, alphabet);
    var z := LeadingZeros(s, alphabet[0]);
    if z < |s| {
      var base := |alphabet|;
      var m, c := Numeral(s[..|s| - 1], alphabet).value, Digit(alphabet, s[|s| - 1]).value;
      var n, d := Numeral(t[..|t| - 1], alphabet).value, Digit(alphabet, t[|t| - 1]).value;
      LastDigit(m, c, n, d, base);
      ZerosOfFront(s, alphabet[0]);
      ZerosOfFront(t, alphabet[0]);
      NumeralInjective(s[..|s| - 1], t[..|t| - 1], alphabet);
      assert s == s[..|s| - 1] + [s[|s| - 1]] && t == t[..|t| - 1] + [t[|t| - 1]];
    }
  }

  lemma LastDigit(m: nat, c: nat, n: nat, d: nat, base: nat)
    requires c < base && d < base && m * base + c == n * base + d
    ensures m == n && c == d
  {
    if m < n {
      SplitProduct(m, n - m, base);
      ProductZero(n - m, base);
    } else if n < m {
      SplitProduct(n, m - n, base);
      ProductZero(m - n, base);
    }
  }

  lemma SplitProduct(m: nat, k: nat, base: nat)
    ensures (m + k) * base == m * base + k * base
  {
  }

  /** Two accepted strings that decode to the same bytes are the same string, even if the alphabet repeats a letter. */
  lemma Injective(s: seq<byte>, t: seq<byte>, alphabet: seq<byte>)
    requires BytesOf(s, alphabet).Some? && BytesOf(s, alphabet) == BytesOf(t, alphabet)
    ensures s == t
  {
    var y, z := LeadingZeros(s, alphabet[0]), LeadingZeros(t, alphabet[0]);
    var m, n := Numeral(s, alphabet).value, Numeral(t, alphabet).value;
    SamePadding(y, Minimal(m), z, Minimal(n));
    MinimalInjective(m, n);
    NumeralInjective(s, t, alphabet);
  }

  lemma SamePadding(y: nat, a: seq<byte>, z: nat, b: seq<byte>)
    requires (a != [] ==> a[0] != 0) && (b != [] ==> b[0] != 0)
    requires ZeroBytes(y) + a == ZeroBytes(z) + b
    ensures y == z && a == b
  {
    PaddingCounted(y, a);
    PaddingCounted(z, b);
    assert (ZeroBytes(y) + a)[y..] == a && (ZeroBytes(z) + b)[z..] == b;
  }

  lemma {:induction false} PaddingCounted(y: nat, a: seq<byte>)
    requires a != [] ==> a[0] != 0
    ensures LeadingZeros(ZeroBytes(y) + a, 0) == y
  {
    if y > 0 {
      PaddingCounted(y - 1, a);
      assert (ZeroBytes(y) + a)[1..] == ZeroBytes(y - 1) + a;
    }
  }

  // ---------- The multiply-and-carry loop ----------

  function Carried(carry: nat): seq<byte> {
    if carry == 0 then [] else [carry % 256] + Carried(carry / 256)
  }

  /** `num`, least significant byte first, times `base` plus `carry`. */
  function MulAdd(num: seq<byte>, base: nat, carry: nat): seq<byte> {
    if num == [] then Carried(carry)
    else
      var t := carry + num[0] * base;
      [t % 256] + MulAdd(num[1..], base, t / 256)
  }

  predicate NoTopZero(num: seq<byte>) {
    num != [] ==> num[|num| - 1] != 0
  }

  lemma {:induction false} CarriedIs(carry: nat)
    ensures FromLe(Carried(carry)) == carry && NoTopZero(Carried(carry))
  {
    if carry > 0 {
      CarriedIs(carry / 256);
      assert Carried(carry)[1..] == Carried(carry / 256);
    }
  }

  lemma {:induction false} MulAddIs(num: seq<byte>, base: nat, carry: nat)
    ensures FromLe(MulAdd(num, base, carry)) == FromLe(num) * base + carry
  {
    if num == [] {
      CarriedIs(carry);
    } else {
      var t := carry + num[0] * base;
      MulAddIs(num[1..], base, t / 256);
      assert MulAdd(num, base, carry)[1..] == MulAdd(num[1..], base, t / 256);
      Shifted(num[0], FromLe(num[1..]), base, carry);
    }
  }

  lemma Shifted(b: nat, n: nat, base: nat, carry: nat)
    ensures var t := carry + b * base; t % 256 + 256 * (n * base + t / 256) == (b + 256 * n) * base + carry
  {
    assert (256 * n) * base == 256 * (n * base);
    SplitProduct(b, 256 * n, base);
  }

  lemma {:induction false} MulAddTop(num: seq<byte>, base: nat, carry: nat)
    requires base > 0 && NoTopZero(num)
    ensures NoTopZero(MulAdd(num, base, carry))
  {
    if num == [] {
      CarriedIs(carry);
    } else {
      var t := carry + num[0] * base;
      MulAddTop(num[1..], base, t / 256);
      var r := MulAdd(num, base, carry);
      assert r == [t % 256] + MulAdd(num[1..], base, t / 256);
      if |num| == 1 {
        ProductZero(num[0], base);
      }
    }
  }

  lemma {:induction false} TopNonzero(num: seq<byte>)
    requires num != [] && NoTopZero(num)
    ensures FromLe(num) > 0
  {
    if |num| > 1 {
      TopNonzero(num[1..]);
    }
  }

  function Reversed(num: seq<byte>): (r: seq<byte>)
    ensures |r| == |num|
  {
    if num == [] then [] else Reversed(num[1..]) + [num[0]]
  }

  lemma {:induction false} ReversedIsMinimal(num: seq<byte>)
    requires NoTopZero(num)
    ensures Reversed(num) == Minimal(FromLe(num))
  {
    if num != [] {
      TopNonzero(num);
      ReversedIsMinimal(num[1..]);
      LowByteOf(num);
      MinimalStep(FromLe(num));
    }
  }

  lemma LowByteOf(num: seq<byte>)
    requires num != []
    ensures FromLe(num) % 256 == num[0] && FromLe(num) / 256 == FromLe(num[1..])
  {
    hide *;
    FromLeStep(num);
    LowByte(num[0], FromLe(num[1..]));
  }

  lemma FromLeStep(num: seq<byte>)
    requires num != []
    ensures FromLe(num) == num[0] + 256 * FromLe(num[1..])
  {
    hide Pow256;
  }

  lemma MinimalStep(n: nat)
    requires n > 0
    ensures Minimal(n) == Minimal(n / 256) + [n % 256]
  {
  }

  /**
   One digit: `carry` starts below the base and stays below it, so the sums stay within 32 bits for every base up to
   2^24.
   */
  method Multiply(num: seq<byte>, base: u32, digit: u32) returns (r: seq<byte>)
    requires digit < base <= 0x100_0000
    ensures r == MulAdd(num, base, digit)
  {
    hide MulAdd, Carried;
    var carry: u32 := digit;
    r := num;
    var j := 0;
    assert num[0..] == num;
    while j < |r|
      invariant j <= |r| == |num| && carry < base
      invariant r[j..] == num[j..]
      invariant MulAdd(num, base, digit) == r[..j] + MulAdd(num[j..], base, carry)
    {
      ByteProduct(r[j], base, carry);
      var product: u32 := r[j] * base;
      var sum: u32 := carry + product;
      assert r[j] == r[j..][0] == num[j];
      MulAddStep(num, j, base, carry);
      Overwrite(r, j, sum % 256, num, MulAdd(num[j + 1..], base, sum / 256));
      r := r[j := sum % 256];
      carry := sum / 256;
      j := j + 1;
    }
    MulAddEnd(num[j..], base, carry);
    assert r[..j] == r;
    while carry > 0
      invariant MulAdd(num, base, digit) == r + Carried(carry)
      decreases carry
    {
      CarriedStep(carry);
      assert r + ([carry % 256] + Carried(carry / 256)) == r + [carry % 256] + Carried(carry / 256);
      r := r + [carry % 256];
      carry := carry / 256;
    }
    CarriedStep(0);
    assert r + [] == r;
  }

  /** One byte written in place, before what is still to come. */
  lemma Overwrite(r: seq<byte>, j: nat, b: byte, num: seq<byte>, more: seq<byte>)
    requires j < |r| == |num| && r[j..] == num[j..]
    ensures var after := r[j := b]; after[j + 1..] == num[j + 1..] && r[..j] + ([b] + more) == after[..j + 1] + more
  {
    assert r[j..][1..] == num[j..][1..];
    assert r[j := b][..j + 1] == r[..j] + [b];
  }

  lemma ByteProduct(b: byte, base: nat, carry: nat)
    requires carry < base
    ensures 0 <= b * base <= 255 * base && (carry + b * base) / 256 < base
  {
    SplitProduct(b, 255 - b, base);
  }

  lemma MulAddStep(num: seq<byte>, j: nat, base: nat, carry: nat)
    requires j < |num|
    ensures var t := carry + num[j] * base;
            MulAdd(num[j..], base, carry) == [t % 256] + MulAdd(num[j + 1..], base, t / 256)
  {
    assert num[j..][1..] == num[j + 1..];
  }

  lemma MulAddEnd(num: seq<byte>, base: nat, carry: nat)
    requires num == []
    ensures MulAdd(num, base, carry) == Carried(carry)
  {
  }

  lemma CarriedStep(carry: nat)
    ensures carry == 0 ==> Carried(carry) == []
    ensures carry > 0 ==> Carried(carry) == [carry % 256] + Carried(carry / 256)
  {
  }

  /** `base_x`: one zero byte for each leading zero digit, then the shortest big-endian form of the value. */
  method Decode(s: seq<byte>, alphabet: seq<byte>) returns (r: Option<seq<byte>>)
    requires |alphabet| <= 0x100_0000
    ensures r == BytesOf(s, alphabet)
  {
    hide Digit, MulAdd, Minimal;
    if alphabet == [] {
      return None;
    }
    var zeros := LeadingZeros(s, alphabet[0]);
    var num: seq<byte> := [];
    var i := 0;
    while i < |s|
      invariant i <= |s|
      invariant Numeral(s[..i], alphabet) == Some(FromLe(num))
      invariant NoTopZero(num)
    {
      assert s[..i + 1][..i] == s[..i];
      var digit := Digit(alphabet, s[i]);
      if digit.None? {
        NumeralOfPrefix(s, i + 1, alphabet);
        return None;
      }
      MulAddIs(num, |alphabet|, digit.value);
      MulAddTop(num, |alphabet|, digit.value);
      num := Multiply(num, |alphabet|, digit.value);
      i := i + 1;
    }
    assert s[..i] == s;
    ReversedIsMinimal(num);
    return Some(ZeroBytes(zeros) + Reversed(num));
  }

  lemma {:induction false} NumeralOfPrefix(s: seq<byte>, i: nat, alphabet: seq<byte>)
    requires i <= |s| && Numeral(s[..i], alphabet) == None
    ensures Numeral(s, alphabet) == None
    decreases |s|
  {
    if i == |s| {
      assert s[..i] == s;
    } else {
      assert s[..|s| - 1][..i] == s[..i];
      NumeralOfPrefix(s[..|s| - 1], i, alphabet);
    }
  }
}
