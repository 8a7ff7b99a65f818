/** Lists of key-value pairs: the stable sort, the last-wins map, and when two of them agree. */
module KeyedLists {
  import opened Wrappers
  import opened Bytes

  datatype Keyed<+T> = Keyed(key: seq<byte>, value: T)

  /** The two key orders in use: DRISL's (shorter first) and JSON's. */
  datatype Order = LengthFirst | Bytewise

  function KeyCmp(o: Order, a: seq<byte>, b: seq<byte>): Ordering {
    if o == LengthFirst && |a| < |b| then Less
    else if o == LengthFirst && |a| > |b| then Greater
    else Compare(a, b)
  }

  lemma KeyCmpEqual(o: Order, a: seq<byte>, b: seq<byte>)
    ensures KeyCmp(o, a, b) == Equal <==> a == b
  {
    CompareEqual(a, b);
  }

  lemma KeyCmpFlip(o: Order, a: seq<byte>, b: seq<byte>)
    ensures KeyCmp(o, b, a) == KeyCmp(o, a, b).Flip()
  {
    CompareFlip(a, b);
  }

  lemma KeyCmpTransitive(o: Order, a: seq<byte>, b: seq<byte>, c: seq<byte>)
    requires KeyCmp(o, a, b) != Greater && KeyCmp(o, b, c) != Greater
    ensures KeyCmp(o, a, c) != Greater
    ensures KeyCmp(o, a, b) == Less || KeyCmp(o, b, c) == Less ==> KeyCmp(o, a, c) == Less
  {
    KeyCmpEqual(o, a, b);
    KeyCmpEqual(o, b, c);
    if Compare(a, b) == Less && Compare(b, c) == Less {
      CompareTransitive(a, b, c);
    }
  }

  // ---------- Sortedness ----------

  ghost predicate Sorted<T>(o: Order, s: seq<Keyed<T>>) {
    forall i, j :: 0 <= i < j < |s| ==> KeyCmp(o, s[i].key, s[j].key) != Greater
  }

  /** Sorted without duplicate keys. */
  ghost predicate StrictlySorted<T>(o: Order, s: seq<Keyed<T>>) {
    forall i, j :: 0 <= i < j < |s| ==> KeyCmp(o, s[i].key, s[j].key) == Less
  }

  /** What `windows(2).all(..is_lt())` tests. */
  predicate Ascending<T>(o: Order, s: seq<Keyed<T>>) {
    forall i :: 0 <= i < |s| - 1 ==> KeyCmp(o, s[i].key, s[i + 1].key) == Less
  }

  lemma {:induction false} AscendingPair<T>(o: Order, s: seq<Keyed<T>>, i: nat, j: nat)
    requires Ascending(o, s) && i < j < |s|
    ensures KeyCmp(o, s[i].key, s[j].key) == Less
  {
    if i + 1 < j {
      AscendingPair(o, s, i, j - 1);
      KeyCmpTransitive(o, s[i].key, s[j - 1].key, s[j].key);
    }
  }

  /** Comparing neighbours is enough. */
  lemma AscendingIsStrict<T>(o: Order, s: seq<Keyed<T>>)
    ensures Ascending(o, s) <==> StrictlySorted(o, s)
  {
    if Ascending(o, s) {
      forall i, j | 0 <= i < j < |s| ensures KeyCmp(o, s[i].key, s[j].key) == Less {
        AscendingPair(o, s, i, j);
      }
    }
  }

  // ---------- The last value of a key ----------

  function Last<T>(s: seq<Keyed<T>>, k: seq<byte>): Option<T> {
    if s == [] then None
    else if s[|s| - 1].key == k then Some(s[|s| - 1].value)
    else Last(s[..|s| - 1], k)
  }

  lemma {:induction false} LastConcat<T>(a: seq<Keyed<T>>, b: seq<Keyed<T>>, k: seq<byte>)
    ensures Last(a + b, k) == if Last(b, k).Some? then Last(b, k) else Last(a, k)
  {
    if b == [] {
      assert a + b == a;
    } else {
      assert (a + b)[..|a + b| - 1] == a + b[..|b| - 1];
      LastConcat(a, b[..|b| - 1], k);
    }
  }

  lemma LastCons<T>(x: Keyed<T>, s: seq<Keyed<T>>, k: seq<byte>)
    ensures Last([x] + s, k) == if Last(s, k).Some? then Last(s, k) else if x.key == k then Some(x.value) else None
  {
    LastConcat([x], s, k);
    assert [x][..0] == [];
  }

  lemma {:induction false} LastFound<T>(s: seq<Keyed<T>>, k: seq<byte>)
    ensures Last(s, k).Some? <==> exists i :: 0 <= i < |s| && s[i].key == k
  {
    if s != [] {
      var n := |s| - 1;
      LastFound(s[..n], k);
      if i :| 0 <= i < |s| && s[i].key == k {
        assert i == n || s[..n][i].key == k;
      }
    }
  }

  /** A strictly sorted list is determined by the value it gives each key. */
  lemma {:induction false} StrictUnique<T>(o: Order, a: seq<Keyed<T>>, b: seq<Keyed<T>>)
    requires StrictlySorted(o, a) && StrictlySorted(o, b)
    requires forall k :: Last(a, k) == Last(b, k)
    ensures a == b
  {
    SameEmptiness(a, b);
    SameEmptiness(b, a);
    if a != [] {
      HeadNotAbove(o, a, b);
      HeadNotAbove(o, b, a);
      KeyCmpFlip(o, a[0].key, b[0].key);
      KeyCmpEqual(o, a[0].key, b[0].key);
      forall k ensures Last(a[1..], k) == Last(b[1..], k) {
        assert Last(a, k) == Last(b, k);
        LastTail(o, a, k);
        LastTail(o, b, k);
      }
      StrictUnique(o, a[1..], b[1..]);
      assert Last(a, a[0].key) == Last(b, a[0].key);
      LastTail(o, a, a[0].key);
      LastTail(o, b, a[0].key);
      assert a == [a[0]] + a[1..] && b == [b[0]] + b[1..];
    }
  }

  lemma SameEmptiness<T>(a: seq<Keyed<T>>, b: seq<Keyed<T>>)
    requires forall k :: Last(a, k) == Last(b, k)
    ensures a != [] ==> b != []
  {
    if a != [] {
      LastFound(a, a[0].key);
      assert Last(b, a[0].key) == Last(a, a[0].key);
    }
  }

  /** The first key of one list cannot stand below every key of the other. */
  lemma HeadNotAbove<T>(o: Order, a: seq<Keyed<T>>, b: seq<Keyed<T>>)
    requires StrictlySorted(o, b) && a != [] && b != []
    requires forall k :: Last(a, k) == Last(b, k)
    ensures KeyCmp(o, a[0].key, b[0].key) != Less
  {
    var k := a[0].key;
    LastFound(a, k);
    assert Last(a, k) == Last(b, k);
    LastFound(b, k);
    var i :| 0 <= i < |b| && b[i].key == k;
    KeyCmpEqual(o, k, k);
    KeyCmpFlip(o, k, b[0].key);
  }

  lemma LastTail<T>(o: Order, s: seq<Keyed<T>>, k: seq<byte>)
    requires StrictlySorted(o, s) && s != []
    ensures Last(s, k) == if k == s[0].key then Some(s[0].value) else Last(s[1..], k)
    ensures Last(s[1..], s[0].key) == None
  {
    assert s == [s[0]] + s[1..];
    LastCons(s[0], s[1..], k);
    LastFound(s[1..], s[0].key);
    if i :| 0 <= i < |s[1..]| && s[1..][i].key == s[0].key {
      assert KeyCmp(o, s[0].key, s[i + 1].key) == Less;
      KeyCmpEqual(o, s[0].key, s[0].key);
    }
  }

  // ---------- The stable sort ----------

  /** Insertion of `x` before the first element whose key is not below its own. */
  function Insert<T>(o: Order, x: Keyed<T>, s: seq<Keyed<T>>): (r: seq<Keyed<T>>)
    ensures |r| == |s| + 1
  {
    if s == [] || KeyCmp(o, x.key, s[0].key) != Greater then [x] + s
    else [s[0]] + Insert(o, x, s[1..])
  }

  /** A stable sort by key: what `sort_by` computes. */
  function Sort<T>(o: Order, s: seq<Keyed<T>>): (r: seq<Keyed<T>>)
    ensures |r| == |s|
  {
    if s == [] then [] else Insert(o, s[0], Sort(o, s[1..]))
  }

  lemma {:induction false} InsertSorted<T>(o: Order, x: Keyed<T>, s: seq<Keyed<T>>)
    requires Sorted(o, s)
    ensures Sorted(o, Insert(o, x, s))
  {
    if s == [] {
    } else if KeyCmp(o, x.key, s[0].key) != Greater {
      forall j | 0 < j < |s| ensures KeyCmp(o, x.key, s[j].key) != Greater {
        KeyCmpTransitive(o, x.key, s[0].key, s[j].key);
      }
    } else {
      InsertSorted(o, x, s[1..]);
      var r := Insert(o, x, s[1..]);
      KeyCmpFlip(o, x.key, s[0].key);
      forall j | 0 <= j < |r| ensures KeyCmp(o, s[0].key, r[j].key) != Greater {
        var i := InsertOrigin(o, x, s[1..], j);
        assert i >= 0 ==> s[i + 1] == r[j];
      }
    }
  }

  lemma {:induction false} InsertMultiset<T>(o: Order, x: Keyed<T>, s: seq<Keyed<T>>)
    ensures multiset(Insert(o, x, s)) == multiset(s) + multiset{x}
  {
    if s != [] && KeyCmp(o, x.key, s[0].key) == Greater {
      InsertMultiset(o, x, s[1..]);
      assert s == [s[0]] + s[1..];
    }
  }

  /** Where element `j` of an insertion comes from: -1 for the inserted one. */
  lemma {:induction false} InsertOrigin<T>(o: Order, x: Keyed<T>, s: seq<Keyed<T>>, j: nat) returns (i: int)
    requires j <= |s|
    ensures -1 <= i < |s| && Insert(o, x, s)[j] == if i == -1 then x else s[i]
  {
    if s == [] || KeyCmp(o, x.key, s[0].key) != Greater {
      i := j - 1;
    } else if j == 0 {
      i := 0;
    } else {
      i := InsertOrigin(o, x, s[1..], j - 1);
      i := if i == -1 then -1 else i + 1;
    }
  }

  /** The sort orders the list and only permutes it. */
  lemma {:induction false} SortSorts<T>(o: Order, s: seq<Keyed<T>>)
    ensures Sorted(o, Sort(o, s))
    ensures multiset(Sort(o, s)) == multiset(s)
  {
    if s != [] {
      SortSorts(o, s[1..]);
      InsertSorted(o, s[0], Sort(o, s[1..]));
      InsertMultiset(o, s[0], Sort(o, s[1..]));
      assert s == [s[0]] + s[1..];
    }
  }

  lemma {:induction false} SortOrigin<T>(o: Order, s: seq<Keyed<T>>, j: nat) returns (i: nat)
    requires j < |s|
    ensures i < |s| && Sort(o, s)[j] == s[i]
  {
    var p := InsertOrigin(o, s[0], Sort(o, s[1..]), j);
    if p == -1 {
      i := 0;
    } else {
      i := SortOrigin(o, s[1..], p);
      i := i + 1;
    }
  }

  lemma {:induction false} InsertLast<T>(o: Order, x: Keyed<T>, s: seq<Keyed<T>>, k: seq<byte>)
    ensures Last(Insert(o, x, s), k) == Last([x] + s, k)
  {
    if s == [] || KeyCmp(o, x.key, s[0].key) != Greater {
    } else {
      InsertLast(o, x, s[1..], k);
      KeyCmpEqual(o, x.key, s[0].key);
      LastCons(s[0], Insert(o, x, s[1..]), k);
      LastCons(x, s[1..], k);
      LastCons(x, s, k);
      LastCons(s[0], s[1..], k);
      assert s == [s[0]] + s[1..];
    }
  }

  /** The sort is stable: the last value of a key stays the last. */
  lemma {:induction false} SortLast<T>(o: Order, s: seq<Keyed<T>>, k: seq<byte>)
    ensures Last(Sort(o, s), k) == Last(s, k)
  {
    if s != [] {
      SortLast(o, s[1..], k);
      InsertLast(o, s[0], Sort(o, s[1..]), k);
      LastCons(s[0], Sort(o, s[1..]), k);
      LastCons(s[0], s[1..], k);
      assert s == [s[0]] + s[1..];
    }
  }

  /** A sorted list is left alone. */
  lemma {:induction false} SortOfSorted<T>(o: Order, s: seq<Keyed<T>>)
    requires Sorted(o, s)
    ensures Sort(o, s) == s
  {
    if s != [] {
      SortOfSorted(o, s[1..]);
      assert s == [s[0]] + s[1..];
    }
  }

  // ---------- Last wins ----------

  /** Of neighbours with equal keys, only the last. */
  function DedupLast<T>(s: seq<Keyed<T>>): seq<Keyed<T>> {
    if |s| <= 1 then s
    else if s[0].key == s[1].key then DedupLast(s[1..])
    else [s[0]] + DedupLast(s[1..])
  }

  lemma {:induction false} DedupKeepsLast<T>(s: seq<Keyed<T>>, k: seq<byte>)
    ensures Last(DedupLast(s), k) == Last(s, k)
  {
    if |s| > 1 {
      DedupKeepsLast(s[1..], k);
      assert s == [s[0]] + s[1..] && s[1..] == [s[1]] + s[2..];
      LastCons(s[0], s[1..], k);
      LastCons(s[1], s[2..], k);
      LastCons(s[0], DedupLast(s[1..]), k);
    }
  }

  lemma {:induction false} DedupStrict<T>(o: Order, s: seq<Keyed<T>>)
    requires Sorted(o, s)
    ensures StrictlySorted(o, DedupLast(s))
    ensures s != [] ==> DedupLast(s) != [] && DedupLast(s)[0].key == s[0].key
  {
    if |s| > 1 {
      DedupStrict(o, s[1..]);
      if s[0].key != s[1].key {
        var r := DedupLast(s[1..]);
        KeyCmpEqual(o, s[0].key, s[1].key);
        assert KeyCmp(o, s[0].key, s[1].key) == Less;
        forall j | 0 <= j < |r| ensures KeyCmp(o, s[0].key, r[j].key) == Less {
          if j > 0 {
            KeyCmpTransitive(o, s[0].key, r[0].key, r[j].key);
          }
        }
      }
    }
  }

  lemma {:induction false} DedupOfStrict<T>(o: Order, s: seq<Keyed<T>>)
    requires StrictlySorted(o, s)
    ensures DedupLast(s) == s
  {
    if |s| > 1 {
      DedupOfStrict(o, s[1..]);
      KeyCmpEqual(o, s[0].key, s[1].key);
      assert s == [s[0]] + s[1..];
    }
  }

  /** One more element at the end takes the place of the last one kept if their keys are equal. */
  lemma {:induction false} DedupSnoc<T>(s: seq<Keyed<T>>, x: Keyed<T>)
    ensures s != [] ==> DedupLast(s) != [] && DedupLast(s)[|DedupLast(s)| - 1] == s[|s| - 1]
    ensures var d := DedupLast(s);
            DedupLast(s + [x]) == if s != [] && s[|s| - 1].key == x.key then d[..|d| - 1] + [x] else d + [x]
  {
    if s == [] {
      assert s + [x] == [x];
    } else if |s| == 1 {
      assert (s + [x])[1..] == [x];
    } else {
      DedupSnoc(s[1..], x);
      assert (s + [x])[1..] == s[1..] + [x];
      DedupStep(s);
      DedupStep(s + [x]);
      hide DedupLast;
    }
  }

  lemma DedupStep<T>(s: seq<Keyed<T>>)
    requires |s| > 1
    ensures DedupLast(s) == if s[0].key == s[1].key then DedupLast(s[1..]) else [s[0]] + DedupLast(s[1..])
  {
  }

  predicate NoRepeat<T>(s: seq<Keyed<T>>) {
    forall i :: 0 <= i < |s| - 1 ==> s[i].key != s[i + 1].key
  }

  /** Without equal neighbours nothing is dropped. */
  lemma {:induction false} DedupNothing<T>(s: seq<Keyed<T>>)
    requires NoRepeat(s)
    ensures DedupLast(s) == s
  {
    if |s| > 1 {
      var t := s[1..];
      forall i | 0 <= i < |t| - 1 ensures t[i].key != t[i + 1].key {
        assert s[i + 1].key != s[(i + 1) + 1].key;
      }
      DedupNothing(t);
      assert s[0].key != s[0 + 1].key;
      assert s == [s[0]] + t;
    }
  }

  /** `BTreeMap::insert` on the map's entries in order: a new key goes in place, an old one gets the new value. */
  function Put<T>(m: seq<Keyed<T>>, x: Keyed<T>): seq<Keyed<T>> {
    if m == [] then [x]
    else match Compare(x.key, m[0].key)
      case Less => [x] + m
      case Equal => [x] + m[1..]
      case Greater => [m[0]] + Put(m[1..], x)
  }

  /** A map filled by inserting the pairs of `s` in turn. */
  function PutAll<T>(s: seq<Keyed<T>>): seq<Keyed<T>> {
    if s == [] then [] else Put(PutAll(s[..|s| - 1]), s[|s| - 1])
  }

  lemma {:induction false} PutCorrect<T>(m: seq<Keyed<T>>, x: Keyed<T>, k: seq<byte>)
    requires StrictlySorted(Bytewise, m)
    ensures StrictlySorted(Bytewise, Put(m, x))
    ensures Last(Put(m, x), k) == if k == x.key then Some(x.value) else Last(m, k)
    ensures m != [] && Compare(x.key, m[0].key) == Greater ==> Put(m, x)[0] == m[0]
    ensures Put(m, x) != [] && Put(m, x)[0].key == if m == [] || Compare(x.key, m[0].key) != Greater then x.key else m[0].key
  {
    if m == [] {
      LastCons(x, [], k);
      assert [x] + m == [x];
    } else {
      hide Last, StrictlySorted, Compare;
      TailSorted(m);
      CompareEqual(x.key, m[0].key);
      match Compare(x.key, m[0].key) {
        case Less =>
          PutFront(x, m, k);
        case Equal =>
          PutOver(x, m, k);
        case Greater =>
          PutCorrect(m[1..], x, k);
          PutLater(x, m, Put(m[1..], x), k);
      }
    }
  }

  lemma TailSorted<T>(m: seq<Keyed<T>>)
    requires StrictlySorted(Bytewise, m) && m != []
    ensures StrictlySorted(Bytewise, m[1..])
  {
  }

  lemma PutOver<T>(x: Keyed<T>, m: seq<Keyed<T>>, k: seq<byte>)
    requires StrictlySorted(Bytewise, m) && m != [] && x.key == m[0].key
    ensures StrictlySorted(Bytewise, [x] + m[1..])
    ensures Last([x] + m[1..], k) == if k == x.key then Some(x.value) else Last(m, k)
  {
    hide KeyCmp, Last;
    assert m == [m[0]] + m[1..];
    LastCons(m[0], m[1..], k);
    LastCons(x, m[1..], k);
    LastTail(Bytewise, m, k);
    assert forall j :: 0 < j < |m| ==> ([x] + m[1..])[j] == m[j];
  }

  lemma PutLater<T>(x: Keyed<T>, m: seq<Keyed<T>>, r: seq<Keyed<T>>, k: seq<byte>)
    requires StrictlySorted(Bytewise, m) && m != [] && Compare(x.key, m[0].key) == Greater
    requires StrictlySorted(Bytewise, r) && r != []
    requires r[0].key == if |m| == 1 || Compare(x.key, m[1].key) != Greater then x.key else m[1].key
    requires Last(r, k) == if k == x.key then Some(x.value) else Last(m[1..], k)
    ensures StrictlySorted(Bytewise, [m[0]] + r)
    ensures Last([m[0]] + r, k) == if k == x.key then Some(x.value) else Last(m, k)
  {
    hide Compare, Last;
    assert m == [m[0]] + m[1..];
    CompareEqual(x.key, m[0].key);
    CompareFlip(x.key, m[0].key);
    LastCons(m[0], m[1..], k);
    LastCons(m[0], r, k);
    LastTail(Bytewise, m, k);
    assert |m| > 1 ==> KeyCmp(Bytewise, m[0].key, m[1].key) == Less;
    PutBack(m[0], r);
  }

  lemma PutFront<T>(x: Keyed<T>, m: seq<Keyed<T>>, k: seq<byte>)
    requires StrictlySorted(Bytewise, m) && m != [] && Compare(x.key, m[0].key) == Less
    ensures StrictlySorted(Bytewise, [x] + m)
    ensures Last([x] + m, k) == if k == x.key then Some(x.value) else Last(m, k)
  {
    forall j | 0 <= j < |m| ensures KeyCmp(Bytewise, x.key, m[j].key) == Less {
      if j > 0 {
        KeyCmpTransitive(Bytewise, x.key, m[0].key, m[j].key);
      }
    }
    LastTail(Bytewise, [x] + m, k);
    assert ([x] + m)[1..] == m;
  }

  lemma PutBack<T>(x: Keyed<T>, r: seq<Keyed<T>>)
    requires StrictlySorted(Bytewise, r) && r != [] && Compare(x.key, r[0].key) == Less
    ensures StrictlySorted(Bytewise, [x] + r)
  {
    forall j | 0 <= j < |r| ensures KeyCmp(Bytewise, x.key, r[j].key) == Less {
      if j > 0 {
        KeyCmpTransitive(Bytewise, x.key, r[0].key, r[j].key);
      }
    }
  }

  lemma {:induction false} PutAllCorrect<T>(s: seq<Keyed<T>>, k: seq<byte>)
    ensures StrictlySorted(Bytewise, PutAll(s))
    ensures Last(PutAll(s), k) == Last(s, k)
  {
    if s != [] {
      PutAllCorrect(s[..|s| - 1], k);
      PutCorrect(PutAll(s[..|s| - 1]), s[|s| - 1], k);
    }
  }

  /** Sorting and keeping the last of each key gives the map's entries in that order. */
  lemma SortedMap<T>(o: Order, s: seq<Keyed<T>>)
    ensures Sort(o, PutAll(s)) == DedupLast(Sort(o, s))
    ensures StrictlySorted(o, DedupLast(Sort(o, s)))
  {
    SortSorts(o, s);
    DedupStrict(o, Sort(o, s));
    PutAllCorrect(s, []);
    SortSorts(o, PutAll(s));
    StrictIsDistinct(Bytewise, PutAll(s));
    DistinctSort(o, PutAll(s));
    forall k ensures Last(Sort(o, PutAll(s)), k) == Last(DedupLast(Sort(o, s)), k) {
      SortLast(o, PutAll(s), k);
      PutAllCorrect(s, k);
      DedupKeepsLast(Sort(o, s), k);
      SortLast(o, s, k);
    }
    StrictUnique(o, Sort(o, PutAll(s)), DedupLast(Sort(o, s)));
  }

  ghost predicate Distinct<T>(s: seq<Keyed<T>>) {
    forall i, j :: 0 <= i < j < |s| ==> s[i].key != s[j].key
  }

  lemma StrictIsDistinct<T>(o: Order, s: seq<Keyed<T>>)
    requires StrictlySorted(o, s)
    ensures Distinct(s)
  {
    forall i, j | 0 <= i < j < |s| ensures s[i].key != s[j].key {
      KeyCmpEqual(o, s[i].key, s[j].key);
    }
  }

  lemma {:induction false} InsertDistinct<T>(o: Order, x: Keyed<T>, s: seq<Keyed<T>>)
    requires Distinct(s) && forall i :: 0 <= i < |s| ==> s[i].key != x.key
    ensures Distinct(Insert(o, x, s))
  {
    if s != [] && KeyCmp(o, x.key, s[0].key) == Greater {
      InsertDistinct(o, x, s[1..]);
      var r := Insert(o, x, s[1..]);
      forall j | 0 <= j < |r| ensures s[0].key != r[j].key {
        var i := InsertOrigin(o, x, s[1..], j);
      }
    }
  }

  lemma {:induction false} SortDistinct<T>(o: Order, s: seq<Keyed<T>>)
    requires Distinct(s)
    ensures Distinct(Sort(o, s))
  {
    if s != [] {
      var t := Sort(o, s[1..]);
      SortDistinct(o, s[1..]);
      forall j | 0 <= j < |t| ensures s[0].key != t[j].key {
        var i := SortOrigin(o, s[1..], j);
        assert s[i + 1] == t[j];
      }
      InsertDistinct(o, s[0], t);
    }
  }

  /** Distinct keys sort strictly. */
  lemma DistinctSort<T>(o: Order, s: seq<Keyed<T>>)
    requires Distinct(s)
    ensures StrictlySorted(o, Sort(o, s))
  {
    SortSorts(o, s);
    SortDistinct(o, s);
    var r := Sort(o, s);
    forall i, j | 0 <= i < j < |r| ensures KeyCmp(o, r[i].key, r[j].key) == Less {
      KeyCmpEqual(o, r[i].key, r[j].key);
    }
  }

  /** Without duplicates, filling a map is sorting. */
  lemma DistinctMap<T>(s: seq<Keyed<T>>)
    requires Distinct(s)
    ensures PutAll(s) == Sort(Bytewise, s)
  {
    hide KeyCmp, PutAll, Sort;
    DistinctSort(Bytewise, s);
    PutAllCorrect(s, []);
    forall k ensures Last(PutAll(s), k) == Last(Sort(Bytewise, s), k) {
      PutAllCorrect(s, k);
      SortLast(Bytewise, s, k);
    }
    StrictUnique(Bytewise, PutAll(s), Sort(Bytewise, s));
  }

  // ---------- Lists with the same keys ----------

  /** Same keys, and values related by `r`, place by place. */
  ghost predicate Aligned<A, B>(r: (seq<byte>, A, B) -> bool, a: seq<Keyed<A>>, b: seq<Keyed<B>>) {
    && |a| == |b|
    && forall i :: 0 <= i < |a| ==> a[i].key == b[i].key && r(a[i].key, a[i].value, b[i].value)
  }

  lemma {:induction false} InsertAligned<A, B>(r: (seq<byte>, A, B) -> bool, o: Order, x: Keyed<A>, y: Keyed<B>,
      a: seq<Keyed<A>>, b: seq<Keyed<B>>)
    requires Aligned(r, a, b) && x.key == y.key && r(x.key, x.value, y.value)
    ensures Aligned(r, Insert(o, x, a), Insert(o, y, b))
  {
    if a != [] && KeyCmp(o, x.key, a[0].key) == Greater {
      InsertAligned(r, o, x, y, a[1..], b[1..]);
    }
  }

  /** The sort looks only at keys. */
  lemma {:induction false} SortAligned<A, B>(r: (seq<byte>, A, B) -> bool, o: Order, a: seq<Keyed<A>>, b: seq<Keyed<B>>)
    requires Aligned(r, a, b)
    ensures Aligned(r, Sort(o, a), Sort(o, b))
  {
    if a != [] {
      SortAligned(r, o, a[1..], b[1..]);
      InsertAligned(r, o, a[0], b[0], Sort(o, a[1..]), Sort(o, b[1..]));
    }
  }

  lemma {:induction false} DedupAligned<A, B>(r: (seq<byte>, A, B) -> bool, a: seq<Keyed<A>>, b: seq<Keyed<B>>)
    requires Aligned(r, a, b)
    ensures Aligned(r, DedupLast(a), DedupLast(b))
  {
    if |a| > 1 {
      DedupAligned(r, a[1..], b[1..]);
    }
  }
}
