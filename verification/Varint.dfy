/** Unsigned LEB128 varints as CAR frames use them: minimal, at most nine bytes. */
module Varint {
  import opened Wrappers
  import opened Bytes

  datatype VarintError = NonMinimalVarint | VarintTooLong

  /** A varint and the number of bytes it takes, or nothing if the input ends before it does. */
  type Parsed = Result<Option<(nat, nat)>, VarintError>

  const VARINT_LIMIT: nat := 0x8000_0000_0000_0000

  /** The encoding: seven bits a byte, lowest first, the high bit set on all but the last. */
  function Encoded(n: nat): (r: seq<byte>)
    ensures |r| > 0
  {
    if n < 128 then [n] else [128 + n % 128] + Encoded(n / 128)
  }

  function Pow128(k: nat): (p: nat)
    ensures p >= 1
  {
    if k == 0 then 1 else 128 * Pow128(k - 1)
  }

  lemma Pow128Nine()
    ensures Pow128(9) == VARINT_LIMIT
  {
    assert Pow128(3) == 0x20_0000;
    assert Pow128(6) == 0x400_0000_0000;
  }

  /** The varint that starts `s`, whose first byte is byte `i` of the whole. */
  function Parse(s: seq<byte>, i: nat): (r: Parsed)
    requires i <= 8
    ensures r.Ok? && r.value.Some? ==> 0 < r.value.value.1 <= |s| && r.value.value.1 <= 9 - i
    decreases |s|
  {
    if s == [] then Ok(None)
    else if s[0] < 128 then
      if i > 0 && s[0] == 0 then Err(NonMinimalVarint) else Ok(Some((s[0], 1)))
    else if i == 8 then Err(VarintTooLong)
    else
      match Parse(s[1..], i + 1)
      case Err(e) => Err(e)
      case Ok(None) => Ok(None)
      case Ok(Some((m, k))) => Ok(Some((s[0] % 128 + 128 * m, k + 1)))
  }

  lemma {:induction false} ParseBound(s: seq<byte>, i: nat)
    requires i <= 8 && Parse(s, i).Ok? && Parse(s, i).value.Some?
    ensures Parse(s, i).value.value.0 < Pow128(9 - i)
    decreases |s|
  {
    assert Pow128(9 - i) == 128 * Pow128(8 - i);
    if s[0] >= 128 {
      ParseBound(s[1..], i + 1);
    }
  }

  /** No byte before byte `k` ends a varint. */
  predicate Continues(s: seq<byte>, k: nat) {
    k <= |s| && forall j :: 0 <= j < k ==> s[j] >= 128
  }

  /**
   When a varint is not complete, not minimal and too long: all its bytes continue; its last byte, not the first one, is
   zero; its ninth byte continues.
   */
  lemma {:induction false} ParseFails(s: seq<byte>, i: nat)
    requires i <= 8
    ensures Parse(s, i) == Ok(None) <==> |s| < 9 - i && Continues(s, |s|)
    ensures Parse(s, i) == Err(VarintTooLong) <==> Continues(s, 9 - i)
    ensures Parse(s, i) == Err(NonMinimalVarint)
            <==> exists k :: 0 <= k < 9 - i && i + k > 0 && Continues(s, k) && k < |s| && s[k] == 0
    decreases |s|
  {
    if s != [] && s[0] >= 128 && i < 8 {
      var t := s[1..];
      ParseFails(t, i + 1);
      forall k | 0 <= k <= |t| ensures Continues(s, k + 1) <==> Continues(t, k) {
        forall j | 0 <= j < k && Continues(s, k + 1) ensures t[j] >= 128 {
          assert t[j] == s[j + 1];
        }
        forall j | 1 <= j < k + 1 && Continues(t, k) ensures s[j] >= 128 {
          assert s[j] == t[j - 1];
        }
      }
      if k :| 0 <= k < 8 - i && Continues(t, k) && k < |t| && t[k] == 0 {
        assert Continues(s, k + 1) && s[k + 1] == 0;
      }
      if k :| 0 <= k < 9 - i && i + k > 0 && Continues(s, k) && k < |s| && s[k] == 0 {
        assert Continues(t, k - 1) && t[k - 1] == 0;
      }
    } else if s != [] && s[0] < 128 {
      assert Continues(s, 0);
    }
  }

  /** What is parsed is the encoding of the number parsed, and nothing else encodes it. */
  lemma {:induction false} ParsedIsEncoded(s: seq<byte>, i: nat)
    requires i <= 8 && Parse(s, i).Ok? && Parse(s, i).value.Some?
    ensures var (n, k) := Parse(s, i).value.value; s[..k] == Encoded(n) && (i > 0 ==> n > 0)
    decreases |s|
  {
    var (n, k) := Parse(s, i).value.value;
    if s[0] >= 128 {
      ParsedIsEncoded(s[1..], i + 1);
      assert s[..k] == [s[0]] + s[1..][..k - 1];
      assert n / 128 == Parse(s[1..], i + 1).value.value.0 && n % 128 == s[0] % 128;
    }
  }

  lemma {:induction false} EncodedIsParsed(n: nat, i: nat, more: seq<byte>)
    requires i <= 8 && n < Pow128(9 - i) && (i > 0 ==> n > 0)
    ensures Parse(Encoded(n) + more, i) == Ok(Some((n, |Encoded(n)|)))
    decreases n
  {
    assert Pow128(9 - i) == 128 * Pow128(8 - i);
    hide Pow128, Parse, Encoded;
    var s := Encoded(n) + more;
    EncodedSplit(n);
    if n < 128 {
      ParseFirst(s, i);
    } else {
      Septet(n, Pow128(8 - i));
      assert i < 8 by {
        OneLeft();
      }
      EncodedIsParsed(n / 128, i + 1, more);
      assert s[1..] == Encoded(n / 128) + more;
      OneMore(s, i, n, |Encoded(n / 128)|);
    }
  }

  lemma OneMore(s: seq<byte>, i: nat, n: nat, k: nat)
    requires i < 8 && s != [] && s[0] == 128 + n % 128 && Parse(s[1..], i + 1) == Ok(Some((n / 128, k)))
    ensures Parse(s, i) == Ok(Some((n, k + 1)))
  {
    hide Parse;
    ParseFirst(s, i);
    assert s[0] % 128 + 128 * (n / 128) == n;
  }

  lemma Septet(n: nat, p: nat)
    requires n < 128 * p
    ensures n / 128 < p
  {
  }

  lemma OneLeft()
    ensures Pow128(1) == 128
  {
  }

  lemma ParseFirst(s: seq<byte>, i: nat)
    requires i <= 8 && s != []
    ensures s[0] < 128 && !(i > 0 && s[0] == 0) ==> Parse(s, i) == Ok(Some((s[0], 1)))
    ensures s[0] >= 128 && i < 8 && Parse(s[1..], i + 1).Ok? && Parse(s[1..], i + 1).value.Some? ==>
              var (m, k) := Parse(s[1..], i + 1).value.value;
              Parse(s, i) == Ok(Some((s[0] % 128 + 128 * m, k + 1)))
  {
  }

  /** Every number below 2^63 has exactly one accepted encoding, the one the writer emits; no other number has any. */
  lemma UniqueEncoding(s: seq<byte>, n: nat, k: nat)
    ensures Parse(s, 0) == Ok(Some((n, k))) <==> n < VARINT_LIMIT && k == |Encoded(n)| && Encoded(n) <= s
  {
    Pow128Nine();
    if Parse(s, 0) == Ok(Some((n, k))) {
      ParseBound(s, 0);
      ParsedIsEncoded(s, 0);
    }
    if n < VARINT_LIMIT && Encoded(n) <= s {
      EncodedIsParsed(n, 0, s[|Encoded(n)|..]);
      assert s == Encoded(n) + s[|Encoded(n)|..];
    }
  }

  /** Once a varint, or an error, has been found, more input changes nothing. */
  lemma {:induction false} ParseStable(s: seq<byte>, i: nat, more: seq<byte>)
    requires i <= 8 && Parse(s, i) != Ok(None)
    ensures Parse(s + more, i) == Parse(s, i)
    decreases |s|
  {
    assert (s + more)[1..] == s[1..] + more;
    if s[0] >= 128 && i < 8 {
      ParseStable(s[1..], i + 1, more);
    }
  }

  /** An unfinished varint is short. */
  lemma {:induction false} UnfinishedIsShort(s: seq<byte>, i: nat)
    requires i <= 8 && Parse(s, i) == Ok(None)
    ensures |s| <= 8 - i
    decreases |s|
  {
    if s != [] {
      UnfinishedIsShort(s[1..], i + 1);
    }
  }

  // ---------- The loops ----------

  /** `rest`, parsed from byte `i` on, after bytes that made up `value`. */
  function Scaled(value: nat, i: nat, rest: Parsed, start: nat): Parsed {
    match rest
    case Err(e) => Err(e)
    case Ok(None) => Ok(None)
    case Ok(Some((m, k))) => Ok(Some((value + Pow128(i) * m, start + k)))
  }

  lemma ScaledStep(value: nat, i: nat, s: seq<byte>, start: nat)
    requires i <= 8 && s != []
    ensures s[0] < 128 && !(i > 0 && s[0] == 0) ==>
              Scaled(value, i, Parse(s, i), start) == Ok(Some((value + s[0] * Pow128(i), start + 1)))
    ensures s[0] < 128 && i > 0 && s[0] == 0 ==> Scaled(value, i, Parse(s, i), start) == Err(NonMinimalVarint)
    ensures s[0] >= 128 && i == 8 ==> Scaled(value, i, Parse(s, i), start) == Err(VarintTooLong)
    ensures s[0] >= 128 && i < 8 ==>
              Scaled(value, i, Parse(s, i), start)
              == Scaled(value + (s[0] % 128) * Pow128(i), i + 1, Parse(s[1..], i + 1), start + 1)
  {
    hide Scaled, Pow128;
    if s[0] < 128 {
      LastByte(value, i, s[0], start);
    } else if i < 8 {
      MoreBytes(value, i, s, start);
    } else {
      NoSuccess(value, i, start);
    }
  }

  lemma LastByte(value: nat, i: nat, b: nat, start: nat)
    ensures Scaled(value, i, Ok(Some((b, 1))), start) == Ok(Some((value + b * Pow128(i), start + 1)))
    ensures Scaled(value, i, Err(NonMinimalVarint), start) == Err(NonMinimalVarint)
  {
    hide Pow128;
  }

  lemma NoSuccess(value: nat, i: nat, start: nat)
    ensures Scaled(value, i, Err(VarintTooLong), start) == Err(VarintTooLong)
  {
  }

  lemma MoreBytes(value: nat, i: nat, s: seq<byte>, start: nat)
    requires i < 8 && s != [] && s[0] >= 128
    ensures Scaled(value, i, Parse(s, i), start)
            == Scaled(value + (s[0] % 128) * Pow128(i), i + 1, Parse(s[1..], i + 1), start + 1)
  {
    assert Pow128(i + 1) == 128 * Pow128(i);
    hide Pow128;
    match Parse(s[1..], i + 1) {
      case Ok(Some((m, k))) =>
        Distribute(Pow128(i), s[0] % 128, m);
      case _ =>
    }
  }

  lemma Distribute(p: nat, low: nat, m: nat)
    ensures p * (low + 128 * m) == low * p + (128 * p) * m
  {
    assert p * (low + 128 * m) == p * low + p * (128 * m);
    assert p * (128 * m) == (128 * p) * m;
  }

  /** `varint_step`: byte `i` folded into the value; true once the varint is complete. */
  function Step(value: nat, i: nat, b: byte): Result<(nat, bool), VarintError>
    requires i <= 8
  {
    var next := value + (b % 128) * Pow128(i);
    if b < 128 then if i > 0 && b == 0 then Err(NonMinimalVarint) else Ok((next, true))
    else if i == 8 then Err(VarintTooLong)
    else Ok((next, false))
  }

  /** `varint_from_slice`. */
  method FromSlice(s: seq<byte>) returns (r: Parsed)
    ensures r == Parse(s, 0)
  {
    hide Parse, Scaled, Pow128;
    var value, i := 0, 0;
    StartScaled(s);
    while i < |s|
      invariant i <= |s|
      invariant i <= 8
      invariant Parse(s, 0) == Scaled(value, i, Parse(s[i..], i), i)
    {
      ScaledStep(value, i, s[i..], i);
      assert s[i..][1..] == s[i + 1..];
      match Step(value, i, s[i]) {
        case Err(e) => return Err(e);
        case Ok((next, done)) =>
          if done {
            return Ok(Some((next, i + 1)));
          }
          value := next;
      }
      i := i + 1;
    }
    NothingParsed(value, i, s[i..], i);
    return Ok(None);
  }

  lemma StartScaled(s: seq<byte>)
    ensures Parse(s, 0) == Scaled(0, 0, Parse(s[0..], 0), 0)
  {
    assert s[0..] == s;
  }

  lemma NothingParsed(value: nat, i: nat, s: seq<byte>, start: nat)
    requires i <= 8 && s == []
    ensures Scaled(value, i, Parse(s, i), start) == Ok(None)
  {
  }

  lemma {:induction false} EncodedLength(n: nat, k: nat)
    requires n < Pow128(k) && k > 0
    ensures |Encoded(n)| <= k
  {
    if n >= 128 {
      EncodedLength(n / 128, k - 1);
    }
  }

  /** `encode_varint_buf`: the bytes of a varint go into a ten-byte buffer. */
  method EncodeVarint(value: u64) returns (r: seq<byte>)
    ensures r == Encoded(value)
  {
    hide Encoded, Pow128;
    var buf := new byte[10](_ => 0);
    var i := 0;
    var n: nat := value;
    Pow128Ten();
    EncodedLength(value, 10);
    assert buf[..0] == [];
    while true
      invariant 0 <= i && i + |Encoded(n)| <= 10
      invariant Encoded(value) == buf[..i] + Encoded(n)
      decreases n
    {
      ghost var before := buf[..i];
      EncodedSplit(n);
      var b := n % 128;
      if n / 128 != 0 {
        b := b + 128;
      }
      buf[i] := b;
      assert buf[..i + 1] == before + [b];
      i := i + 1;
      if n / 128 == 0 {
        break;
      }
      assert before + ([b] + Encoded(n / 128)) == buf[..i] + Encoded(n / 128);
      n := n / 128;
    }
    return buf[..i];
  }

  lemma EncodedSplit(n: nat)
    ensures Encoded(n) == if n < 128 then [n] else [128 + n % 128] + Encoded(n / 128)
  {
  }

  lemma Pow128Ten()
    ensures U64_LIMIT <= Pow128(10)
  {
    Pow128Nine();
    assert Pow128(10) == 128 * Pow128(9);
  }
}
