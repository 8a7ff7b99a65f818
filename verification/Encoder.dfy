/**
 The encoder: values are appended to one buffer, first assuming that every map is in key order, and then, if that
 fails, again from the start with a pass that sorts.
 */
module Encoder {
  import opened Wrappers
  import opened Bytes
  import opened KeyedLists
  import opened Drisl
  import opened EncodeSpec

  /** Writing the first item leaves the rest to write. */
  lemma ItemsStep(before: seq<byte>, items: seq<Value>)
    requires items != []
    ensures before + EncItems(NormalItems(items))
            == before + Enc(Normal(items[0])) + EncItems(NormalItems(items[1..]))
  {
    hide Enc, Normal;
    assert NormalItems(items)[1..] == NormalItems(items[1..]);
  }

  lemma EntriesStep(before: seq<byte>, entries: seq<Keyed<Value>>)
    requires entries != []
    ensures before + EncEntries(NormalEntries(entries))
            == before + EncText(entries[0].key) + Enc(Normal(entries[0].value)) + EncEntries(NormalEntries(entries[1..]))
  {
    hide Enc, EncText, Normal;
    assert NormalEntries(entries)[0] == Keyed(entries[0].key, Normal(entries[0].value));
    assert NormalEntries(entries)[1..] == NormalEntries(entries[1..]);
    var key, value, rest := EncText(entries[0].key), Enc(Normal(entries[0].value)), EncEntries(NormalEntries(entries[1..]));
    assert EncEntries(NormalEntries(entries)) == key + value + rest;
    hide EncEntries, NormalEntries;
    Regroup(before, key + value, rest);
    Regroup(before, key, value);
  }

  lemma NothingToWrite(before: seq<byte>, entries: seq<Keyed<Value>>)
    requires entries == []
    ensures before + EncEntries(NormalEntries(entries)) == before
  {
  }

  /** Sorted entries hold the values of the map, so they are smaller than it. */
  lemma EntryOrigin(entries: seq<Keyed<Value>>, list: seq<Keyed<Value>>, i: nat) returns (j: nat)
    requires list == entries || list == Sort(LengthFirst, entries)
    requires i < |list|
    ensures j < |entries| && entries[j] == list[i]
  {
    if list == entries {
      j := i;
    } else {
      j := SortOrigin(LengthFirst, entries, i);
    }
  }

  /** A pass that does not sort gets through only values the sorting pass gets through. */
  lemma {:induction false} OptimistIsRight(v: Value)
    requires Accepts(false, v)
    ensures Accepts(true, v)
    decreases v
  {
    match v {
      case Array(items) => OptimistItems(items);
      case Map(entries) => OptimistEntries(None, entries);
      case _ =>
    }
  }

  lemma {:induction false} OptimistItems(items: seq<Value>)
    requires AcceptsItems(false, items)
    ensures AcceptsItems(true, items)
    decreases items
  {
    if items != [] {
      OptimistIsRight(items[0]);
      OptimistItems(items[1..]);
    }
  }

  lemma {:induction false} OptimistEntries(prev: Option<seq<byte>>, entries: seq<Keyed<Value>>)
    requires AcceptsEntries(false, prev, entries)
    ensures AcceptsEntries(true, prev, entries)
    decreases entries
  {
    if entries != [] {
      OptimistIsRight(entries[0].value);
      OptimistEntries(Some(entries[0].key), entries[1..]);
    }
  }

  // ---------- Comparing keys ----------

  /** Equal words so far, so the comparison is that of the rest. */
  lemma SkipEqual(a: seq<byte>, b: seq<byte>, i: nat)
    requires |a| == |b| && i <= |a| && a[..i] == b[..i]
    ensures Compare(a, b) == Compare(a[i..], b[i..])
  {
    assert a == a[..i] + a[i..] && b == b[..i] + b[i..];
    ComparePrefix(a[..i], a[i..], b[i..]);
  }

  lemma SplitAt(s: seq<byte>, i: nat, n: nat)
    requires i + n <= |s|
    ensures s[i..] == s[i..i + n] + s[i + n..]
  {
  }

  /** The next `n` bytes differ, so they decide. */
  lemma DecidedHere(a: seq<byte>, b: seq<byte>, i: nat, n: nat)
    requires |a| == |b| && i + n <= |a| && a[..i] == b[..i] && a[i..i + n] != b[i..i + n]
    ensures Compare(a, b) == Compare(a[i..i + n], b[i..i + n])
  {
    hide Compare;
    SkipEqual(a, b, i);
    SplitAt(a, i, n);
    SplitAt(b, i, n);
    CompareEqual(a[i..i + n], b[i..i + n]);
    CompareDecided(a[i..i + n], b[i..i + n], a[i + n..], b[i + n..]);
  }

  /**
   `cbor_key_cmp`: shorter keys first, then eight bytes at a time as big-endian words, then byte by byte. It is the
   bytewise order of the encoded keys.
   */
  method CborKeyCmp(a: seq<byte>, b: seq<byte>) returns (c: Ordering)
    ensures c == KeyCmp(LengthFirst, a, b)
    ensures |a| < U64_LIMIT && |b| < U64_LIMIT ==> c == Compare(EncText(a), EncText(b))
  {
    hide Compare, EncText;
    if |a| < U64_LIMIT && |b| < U64_LIMIT {
      EncodedKeyOrder(a, b);
    }
    if |a| != |b| {
      return if |a| < |b| then Less else Greater;
    }
    var i := 0;
    while i + 8 <= |a|
      invariant i <= |a| && a[..i] == b[..i]
    {
      var x, y := a[i..i + 8], b[i..i + 8];
      if x != y {
        DecidedHere(a, b, i, 8);
        CompareFromBe(x, y);
        CompareFromBe(y, x);
        CompareFlip(x, y);
        return if FromBe(x) < FromBe(y) then Less else Greater;
      }
      assert a[..i + 8] == a[..i] + x && b[..i + 8] == b[..i] + y;
      i := i + 8;
    }
    while i < |a|
      invariant i <= |a| && a[..i] == b[..i]
    {
      if a[i] != b[i] {
        assert a[i..i + 1] == [a[i]] && b[i..i + 1] == [b[i]];
        DecidedHere(a, b, i, 1);
        CompareSingle(a[i], b[i]);
        return if a[i] < b[i] then Less else Greater;
      }
      assert a[..i + 1] == a[..i] + [a[i]] && b[..i + 1] == b[..i] + [b[i]];
      i := i + 1;
    }
    assert a[..i] == a && b[..i] == b;
    CompareEqual(a, b);
    return Equal;
  }

  lemma CompareSingle(x: byte, y: byte)
    ensures Compare([x], [y]) == if x < y then Less else if x > y then Greater else Equal
  {
  }

  method KeyFollows(prev: Option<seq<byte>>, key: seq<byte>) returns (r: bool)
    ensures r <==> Follows(prev, key)
  {
    if prev.None? {
      return true;
    }
    var c := CborKeyCmp(prev.value, key);
    return c.Less?;
  }

  class Writer {
    var buf: seq<byte>

    constructor ()
      ensures buf == []
    {
      buf := [];
    }

    /** `put_head`. */
    method PutHead(major: nat, value: u64)
      requires major < 8
      modifies this
      ensures buf == old(buf) + Head(major, value)
    {
      if value < 24 {
        buf := buf + [32 * major + value];
      } else if value <= 0xff {
        buf := buf + ([32 * major + 24] + Be(value, 1));
      } else if value <= 0xffff {
        buf := buf + ([32 * major + 25] + Be(value, 2));
      } else if value <= 0xffff_ffff {
        buf := buf + ([32 * major + 26] + Be(value, 4));
      } else {
        buf := buf + ([32 * major + 27] + Be(value, 8));
      }
    }

    /** `put_text`. */
    method PutText(s: seq<byte>)
      requires |s| < U64_LIMIT
      modifies this
      ensures buf == old(buf) + EncText(s)
    {
      PutHead(3, |s|);
      buf := buf + s;
    }

    /**
     One pass: with `sort` it sorts the maps that need it, without it gives up at a key out of order. Either gives up
     at a float that is not finite, leaving what it wrote.
     */
    method WriteItem(sort: bool, v: Value) returns (ok: bool)
      requires Sized(v)
      modifies this
      ensures ok <==> Accepts(sort, v)
      ensures ok ==> buf == old(buf) + Enc(Normal(v))
      ensures old(buf) <= buf
      decreases v, 0
    {
      hide Head, Be, AcceptsItems, AcceptsEntries, NormalItems, NormalEntries, SizedItems, SizedEntries, EncItems, EncEntries, Sort;
      ok := true;
      match v {
        case Unsigned(n) =>
          PutHead(0, n);
        case Signed(i) =>
          if i >= 0 {
            PutHead(0, i);
          } else {
            PutHead(1, -1 - i);
          }
        case Float(bits) =>
          if !Finite(bits) {
            return false;
          }
          buf := buf + ([0xfb] + Be(bits, 8));
        case Bool(b) =>
          buf := buf + [if b then 0xf5 else 0xf4];
        case Null =>
          buf := buf + [0xf6];
        case Text(s) =>
          PutText(s);
        case Bytes(b) =>
          PutHead(2, |b|);
          buf := buf + b;
        case Link(c) =>
          buf := buf + EncLink(c);
        case Array(items) =>
          ok := WriteArray(sort, items);
        case Map(entries) =>
          ok := WriteMap(sort, entries);
      }
    }

    method WriteArray(sort: bool, items: seq<Value>) returns (ok: bool)
      requires |items| < U64_LIMIT && SizedItems(items)
      modifies this
      ensures ok <==> AcceptsItems(sort, items)
      ensures ok ==> buf == old(buf) + (Head(4, |items|) + EncItems(NormalItems(items)))
      ensures old(buf) <= buf
      decreases items, 1
    {
      hide Head, Enc, Normal, Accepts, Sized;
      PutHead(4, |items|);
      ghost var start := buf;
      var i := 0;
      while i < |items|
        invariant i <= |items|
        invariant buf + EncItems(NormalItems(items[i..])) == start + EncItems(NormalItems(items))
        invariant start <= buf
        invariant AcceptsItems(sort, items) <==> AcceptsItems(sort, items[i..])
      {
        assert items[i..][1..] == items[i + 1..];
        ghost var before := buf;
        ok := WriteItem(sort, items[i]);
        if !ok {
          return;
        }
        ItemsStep(before, items[i..]);
        i := i + 1;
      }
      assert buf + [] == buf;
      ok := true;
    }

    method WriteMap(sort: bool, entries: seq<Keyed<Value>>) returns (ok: bool)
      requires |entries| < U64_LIMIT && SizedEntries(entries)
      modifies this
      ensures ok <==> AcceptsEntries(sort, None, entries)
      ensures ok ==> buf == old(buf) + (Head(5, |entries|) + EncEntries(Sort(LengthFirst, NormalEntries(entries))))
      ensures old(buf) <= buf
      decreases entries, 2
    {
      hide Head, Enc, Normal, Accepts, Sized;
      PutHead(5, |entries|);
      ghost var start := buf;
      var inOrder := InOrder(entries);
      if sort && !inOrder {
        var sorted := Sort(LengthFirst, entries);
        SortSized(entries);
        SortAccepted(None, entries);
        NormalOfSorted(entries);
        ok := WriteEntries(sort, entries, sorted);
      } else {
        ok := WriteEntries(sort, entries, entries);
        if ok {
          if !sort {
            AcceptedIsAscending(None, entries);
          }
          NormalOfOrdered(entries);
        }
      }
    }

    /** Whether neighbouring keys ascend. */
    method InOrder(entries: seq<Keyed<Value>>) returns (r: bool)
      ensures r <==> Ascending(LengthFirst, entries)
    {
      var i := 1;
      while i < |entries|
        invariant 1 <= i
        invariant i <= |entries| || |entries| == 0
        invariant forall j :: 0 <= j < i - 1 && j < |entries| - 1 ==>
                    KeyCmp(LengthFirst, entries[j].key, entries[j + 1].key) == Less
      {
        var c := CborKeyCmp(entries[i - 1].key, entries[i].key);
        if !c.Less? {
          assert KeyCmp(LengthFirst, entries[i - 1].key, entries[(i - 1) + 1].key) != Less;
          return false;
        }
        i := i + 1;
      }
      return true;
    }

    /** The loop over a map's entries; `list` is the map's entries, in the order they are written. */
    method WriteEntries(sort: bool, ghost entries: seq<Keyed<Value>>, list: seq<Keyed<Value>>) returns (ok: bool)
      requires SizedEntries(list)
      requires list == entries || list == Sort(LengthFirst, entries)
      modifies this
      ensures ok <==> AcceptsEntries(sort, None, list)
      ensures ok ==> buf == old(buf) + EncEntries(NormalEntries(list))
      ensures old(buf) <= buf
      decreases entries, 1
    {
      hide Enc, EncText, EncEntries, Normal, NormalEntries, Accepts, Sized, Sort, Follows;
      var prev: Option<seq<byte>> := None;
      var i := 0;
      while i < |list|
        invariant i <= |list|
        invariant buf + EncEntries(NormalEntries(list[i..])) == old(buf) + EncEntries(NormalEntries(list))
        invariant old(buf) <= buf
        invariant AcceptsEntries(sort, None, list) <==> AcceptsEntries(sort, prev, list[i..])
      {
        assert list[i..][1..] == list[i + 1..];
        ghost var before := buf;
        if !sort {
          var follows := KeyFollows(prev, list[i].key);
          if !follows {
            return false;
          }
        }
        PutText(list[i].key);
        ghost var j := EntryOrigin(entries, list, i);
        ok := WriteItem(sort, list[i].value);
        if !ok {
          return;
        }
        EntriesStep(before, list[i..]);
        prev := Some(list[i].key);
        i := i + 1;
      }
      NothingToWrite(buf, list[i..]);
      ok := true;
    }

    /** `write_value`: the result, error included, is what the sorting pass alone would give. */
    method WriteValue(v: Value) returns (r: Result<(), CborError>)
      requires Sized(v)
      modifies this
      ensures r == match Encoding(v) case Ok(_) => Ok(()) case Err(e) => Err(e)
      ensures r.Ok? ==> buf == old(buf) + Encoding(v).value
      ensures old(buf) <= buf
    {
      hide Accepts, Enc, Normal;
      var start := |buf|;
      var ok := WriteItem(false, v);
      if ok {
        OptimistIsRight(v);
        return Ok(());
      }
      buf := buf[..start];
      ok := WriteItem(true, v);
      r := if ok then Ok(()) else Err(InvalidCbor(NonFinite));
    }
  }

  /** `encode_value`. */
  method EncodeValue(v: Value) returns (r: Result<seq<byte>, CborError>)
    requires Sized(v)
    ensures r == Encoding(v)
  {
    hide Accepts, Enc, Normal;
    var w := new Writer();
    var written := w.WriteValue(v);
    match written {
      case Ok(_) =>
        assert w.buf == Encoding(v).value;
        r := Ok(w.buf);
      case Err(e) => r := Err(e);
    }
  }
}
