/** Bytes, machine integers, big- and little-endian numbers, and bytewise comparison. */
module Bytes {
  import opened Wrappers

  type byte = x: int | 0 <= x < 256
  type u64 = x: int | 0 <= x < U64_LIMIT
  type i64 = x: int | -I64_MAX - 1 <= x <= I64_MAX

  const U64_LIMIT: int := 0x1_0000_0000_0000_0000
  const I64_MAX: int := 0x7fff_ffff_ffff_ffff

  /** 256 to the power `k`. */
  function Pow256(k: nat): (p: nat)
    ensures p >= 1
  {
    if k == 0 then 1 else 256 * Pow256(k - 1)
  }

  lemma Pow256Values()
    ensures Pow256(1) == 0x100 && Pow256(2) == 0x1_0000
    ensures Pow256(4) == 0x1_0000_0000 && Pow256(8) == U64_LIMIT
  {
    assert Pow256(3) == 0x100_0000;
    assert Pow256(5) == 0x100_0000_0000;
    assert Pow256(6) == 0x1_0000_0000_0000;
  }

  /** The low `k` bytes of `n`, most significant first: `to_be_bytes`. */
  function Be(n: nat, k: nat): (s: seq<byte>)
    ensures |s| == k
  {
    if k == 0 then [] else Be(n / 256, k - 1) + [n % 256]
  }

  /** The number whose big-endian bytes are `s`: `from_be_bytes`. */
  function FromBe(s: seq<byte>): (n: nat)
    ensures n < Pow256(|s|)
  {
    if s == [] then 0 else 256 * FromBe(s[..|s| - 1]) + s[|s| - 1]
  }

  lemma {:induction false} FromBeOfBe(n: nat, k: nat)
    requires n < Pow256(k)
    ensures FromBe(Be(n, k)) == n
  {
    if k > 0 {
      FromBeOfBe(n / 256, k - 1);
      assert Be(n, k)[..k - 1] == Be(n / 256, k - 1);
    }
  }

  lemma {:induction false} BeOfFromBe(s: seq<byte>)
    ensures Be(FromBe(s), |s|) == s
  {
    if s != [] {
      BeOfFromBe(s[..|s| - 1]);
      assert s == s[..|s| - 1] + [s[|s| - 1]];
      LowByte(s[|s| - 1], FromBe(s[..|s| - 1]));
    }
  }

  /** The low `k` bytes of `n`, least significant first: `to_le_bytes`. */
  function Le(n: nat, k: nat): (s: seq<byte>)
    ensures |s| == k
  {
    if k == 0 then [] else [n % 256] + Le(n / 256, k - 1)
  }

  /** The number whose little-endian bytes are `s`: `from_le_bytes`. */
  function FromLe(s: seq<byte>): (n: nat)
    ensures n < Pow256(|s|)
  {
    if s == [] then 0 else s[0] + 256 * FromLe(s[1..])
  }

  lemma {:induction false} FromLeOfLe(n: nat, k: nat)
    requires n < Pow256(k)
    ensures FromLe(Le(n, k)) == n
  {
    if k > 0 {
      FromLeOfLe(n / 256, k - 1);
      assert Le(n, k)[1..] == Le(n / 256, k - 1);
    }
  }

  lemma LowByte(b: byte, n: nat)
    ensures (b + 256 * n) % 256 == b && (b + 256 * n) / 256 == n
  {
  }

  lemma {:induction false} LeOfFromLe(s: seq<byte>)
    ensures Le(FromLe(s), |s|) == s
  {
    if s != [] {
      LeOfFromLe(s[1..]);
      assert s == [s[0]] + s[1..];
      LowByte(s[0], FromLe(s[1..]));
    }
  }

  lemma Regroup(a: seq<byte>, b: seq<byte>, c: seq<byte>)
    ensures a + (b + c) == a + b + c
  {
  }

  /** `s` stands in `buf` at `pos`. */
  predicate At(buf: seq<byte>, pos: nat, s: seq<byte>) {
    pos + |s| <= |buf| && buf[pos..pos + |s|] == s
  }

  lemma AtSlice(buf: seq<byte>, pos: nat, s: seq<byte>)
    ensures At(buf, pos, s) <==> pos + |s| <= |buf| && buf[pos..pos + |s|] == s
    ensures pos <= |buf| ==> At(buf, pos, [])
  {
  }

  /** Two strings stand one after the other exactly when their concatenation stands. */
  lemma AtAppend(buf: seq<byte>, pos: nat, s: seq<byte>, t: seq<byte>)
    ensures At(buf, pos, s + t) <==> At(buf, pos, s) && At(buf, pos + |s|, t)
  {
    if pos + |s| + |t| <= |buf| {
      var whole := buf[pos..pos + |s| + |t|];
      assert whole[..|s|] == buf[pos..pos + |s|];
      assert whole[|s|..] == buf[pos + |s|..pos + |s| + |t|];
      assert (s + t)[..|s|] == s && (s + t)[|s|..] == t;
      assert whole == whole[..|s|] + whole[|s|..];
    }
  }

  // ---------- Bytewise comparison ----------

  /** The order of byte slices: Rust's `Ord` for `[u8]`. */
  function Compare(a: seq<byte>, b: seq<byte>): Ordering {
    if a == [] then (if b == [] then Equal else Less)
    else if b == [] then Greater
    else if a[0] < b[0] then Less
    else if a[0] > b[0] then Greater
    else Compare(a[1..], b[1..])
  }

  lemma {:induction false} CompareEqual(a: seq<byte>, b: seq<byte>)
    ensures Compare(a, b) == Equal <==> a == b
  {
    if a != [] && b != [] && a[0] == b[0] {
      CompareEqual(a[1..], b[1..]);
      assert a == [a[0]] + a[1..] && b == [b[0]] + b[1..];
    }
  }

  lemma {:induction false} CompareFlip(a: seq<byte>, b: seq<byte>)
    ensures Compare(b, a) == Compare(a, b).Flip()
  {
    if a != [] && b != [] && a[0] == b[0] {
      CompareFlip(a[1..], b[1..]);
    }
  }

  lemma {:induction false} CompareTransitive(a: seq<byte>, b: seq<byte>, c: seq<byte>)
    requires Compare(a, b) == Less && Compare(b, c) == Less
    ensures Compare(a, c) == Less
  {
    if a != [] && b != [] && c != [] && a[0] == b[0] == c[0] {
      CompareTransitive(a[1..], b[1..], c[1..]);
    }
  }

  lemma {:induction false} ComparePrefix(p: seq<byte>, a: seq<byte>, b: seq<byte>)
    ensures Compare(p + a, p + b) == Compare(a, b)
  {
    if p == [] {
      assert p + a == a && p + b == b;
    } else {
      assert (p + a)[1..] == p[1..] + a && (p + b)[1..] == p[1..] + b;
      ComparePrefix(p[1..], a, b);
    }
  }

  /** Strings of one length that differ decide the comparison whatever follows them. */
  lemma {:induction false} CompareDecided(a: seq<byte>, b: seq<byte>, x: seq<byte>, y: seq<byte>)
    requires |a| == |b| && a != b
    ensures Compare(a + x, b + y) == Compare(a, b)
  {
    assert a == [a[0]] + a[1..] && b == [b[0]] + b[1..];
    assert (a + x)[1..] == a[1..] + x && (b + y)[1..] == b[1..] + y;
    if a[0] == b[0] {
      CompareDecided(a[1..], b[1..], x, y);
    }
  }

  /** Big-endian numbers of one width compare as their bytes do. */
  lemma {:induction false} CompareBe(m: nat, n: nat, k: nat)
    requires m < n < Pow256(k)
    ensures Compare(Be(m, k), Be(n, k)) == Less
  {
    if k > 0 {
      var a, b := Be(m / 256, k - 1), Be(n / 256, k - 1);
      if m / 256 < n / 256 {
        CompareBe(m / 256, n / 256, k - 1);
        CompareEqual(a, b);
        CompareDecided(a, b, [m % 256], [n % 256]);
      } else {
        ComparePrefix(a, [m % 256], [n % 256]);
      }
    }
  }

  /** `from_be_bytes` keeps the bytewise order. */
  lemma CompareFromBe(a: seq<byte>, b: seq<byte>)
    requires |a| == |b|
    ensures FromBe(a) < FromBe(b) <==> Compare(a, b) == Less
    ensures FromBe(a) == FromBe(b) <==> a == b
  {
    BeOfFromBe(a);
    BeOfFromBe(b);
    if FromBe(a) < FromBe(b) {
      CompareBe(FromBe(a), FromBe(b), |a|);
    } else if FromBe(b) < FromBe(a) {
      CompareBe(FromBe(b), FromBe(a), |a|);
      CompareFlip(a, b);
    } else {
      CompareEqual(a, b);
    }
  }
}
