/** The ranges in which a segment is downloaded. */
module Stripes {
  import opened Bytes

  const U64_MAX: u64 := 0xffff_ffff_ffff_ffff

  function SaturatingAdd(a: u64, b: u64): u64 {
    if a + b > U64_MAX then U64_MAX else a + b
  }

  /** No range is empty. */
  predicate Ordered(ranges: seq<(u64, u64)>) {
    forall i :: 0 <= i < |ranges| ==> ranges[i].0 <= ranges[i].1
  }

  function RangesFrom(start: nat, total: u64, stripe: u64): (r: seq<(u64, u64)>)
    requires stripe > 0
    ensures Ordered(r)
    decreases if start < total then total - start else 0
  {
    if start >= total then []
    else
      var end := if start + stripe < total then start + stripe - 1 else total - 1;
      [(start, end)] + RangesFrom(end + 1, total, stripe)
  }

  /** The ranges follow one another from `start` to the end, all but the last of the full length. */
  predicate Tile(ranges: seq<(u64, u64)>, start: nat, total: u64, stripe: u64)
    requires start <= total
  {
    if ranges == [] then start == total
    else
      && ranges[0].0 == start <= ranges[0].1 < total
      && ranges[0].1 - start < stripe
      && (ranges[0].1 + 1 < total ==> ranges[0].1 - start + 1 == stripe)
      && Tile(ranges[1..], ranges[0].1 + 1, total, stripe)
  }

  lemma {:induction false} StripesTile(ranges: seq<(u64, u64)>, start: nat, total: u64, stripe: u64)
    requires start <= total && stripe > 0
    ensures Tile(ranges, start, total, stripe) <==> ranges == RangesFrom(start, total, stripe)
    decreases total - start
  {
    if start < total {
      var end := if start + stripe < total then start + stripe - 1 else total - 1;
      if ranges != [] {
        StripesTile(ranges[1..], end + 1, total, stripe);
        assert ranges == [ranges[0]] + ranges[1..];
      }
    }
  }

  /** `compute_stripes`: the one tiling, computed without overflow however large the stripe. */
  method ComputeStripes(total: u64, stripe: u64) returns (ranges: seq<(u64, u64)>)
    requires stripe > 0
    ensures ranges == RangesFrom(0, total, stripe)
    ensures Tile(ranges, 0, total, stripe)
  {
    hide RangesFrom, Tile, Ordered;
    ranges := [];
    var start: u64 := 0;
    assert [] + RangesFrom(0, total, stripe) == RangesFrom(0, total, stripe);
    while start < total
      invariant start <= total
      invariant RangesFrom(0, total, stripe) == ranges + RangesFrom(start, total, stripe)
      decreases total - start
    {
      var last := SaturatingAdd(start, stripe - 1);
      var end := if last < total - 1 then last else total - 1;
      FirstRange(start, total, stripe);
      Regroup(ranges, (start, end), RangesFrom(end + 1, total, stripe));
      ranges := ranges + [(start, end)];
      start := end + 1;
    }
    NoRange(start, total, stripe);
    assert ranges + [] == ranges;
    StripesTile(ranges, 0, total, stripe);
  }

  lemma Regroup(a: seq<(u64, u64)>, x: (u64, u64), b: seq<(u64, u64)>)
    ensures a + ([x] + b) == a + [x] + b
  {
  }

  lemma FirstRange(start: nat, total: u64, stripe: u64)
    requires start < total && stripe > 0
    ensures var end := if start + stripe < total then start + stripe - 1 else total - 1;
            RangesFrom(start, total, stripe) == [(start, end)] + RangesFrom(end + 1, total, stripe)
  {
    hide Ordered;
  }

  lemma NoRange(start: nat, total: u64, stripe: u64)
    requires start >= total && stripe > 0
    ensures RangesFrom(start, total, stripe) == []
  {
  }

  lemma NotEmpty(total: u64, stripe: u64)
    requires total > 0 && stripe > 0
    ensures RangesFrom(0, total, stripe) != []
  {
  }
}
