/**
 The one-pass conversion of JSON to DRISL: values are encoded into one buffer as the parser reports them, and each
 object is put right in place once its members are all there. It gives what building the tree first would give.
 */
module JsonToDrisl {
  import opened Wrappers
  import opened Bytes
  import opened KeyedLists
  import opened Drisl
  import opened JsonTree

  /** What a value encoded at the end of the buffer is; `Text` says where its UTF-8 starts. */
  datatype Encoded = TextFrom(at: nat) | Other | Invalid

  /** An object member: the encoded key from `start`, its UTF-8 from `key`, then the value from `value` to `end`. */
  datatype Member = Member(start: nat, key: nat, value: nat, end: nat, kind: Encoded)

  /** Some object's first key starts with the parser's private token, so the document is left to the tree path. */
  predicate HasPrivate(e: Json)
    decreases e
  {
    match e
    case JArray(items) => PrivateItems(items)
    case JObject(members) => (members != [] && PRIVATE_KEY <= members[0].key) || PrivateMembers(members)
    case _ => false
  }

  predicate PrivateItems(items: seq<Json>)
    decreases items
  {
    items != [] && (HasPrivate(items[0]) || PrivateItems(items[1..]))
  }

  predicate PrivateMembers(members: seq<Keyed<Json>>)
    decreases members
  {
    members != [] && (HasPrivate(members[0].value) || PrivateMembers(members[1..]))
  }

  // ---------- Members in the buffer ----------

  /** `out[a..b]`, or nothing if that is not a range of it. */
  function Slice(out: seq<byte>, a: nat, b: nat): seq<byte> {
    if a <= b <= |out| then out[a..b] else []
  }

  /** `m` lies in `out`, as a member with key `key` and value `j`. */
  ghost predicate Stands(codec: LinkCodec, integers: Integers, out: seq<byte>, m: Member, key: seq<byte>, j: Json) {
    && m.start < m.key <= m.value <= m.end <= |out|
    && Slice(out, m.start, m.value) == EncText(key)
    && Slice(out, m.key, m.value) == key
    && (match Encode(codec, integers, j)
        case Ok(bytes) => m.kind != Invalid && Slice(out, m.value, m.end) == bytes
        case Err(_) => m.kind == Invalid)
    && (m.kind.TextFrom? <==> j.JString?)
    && (m.kind.TextFrom? ==> m.value <= m.kind.at <= m.end && Slice(out, m.kind.at, m.end) == j.s)
  }

  /** Appending to the buffer moves nothing. */
  lemma StandsStill(codec: LinkCodec, integers: Integers, out: seq<byte>, more: seq<byte>, m: Member, key: seq<byte>, j: Json)
    requires Stands(codec, integers, out, m, key, j) && out <= more
    ensures Stands(codec, integers, more, m, key, j)
  {
    hide Encode, EncText;
    assert out == more[..|out|];
    forall a: nat, b: nat | a <= b <= |out| ensures Slice(out, a, b) == Slice(more, a, b) {
    }
  }

  /** The members of an object lie one after the other from `start` to the end of the buffer. */
  ghost predicate Contiguous(ms: seq<Member>, start: nat, end: nat)
    decreases |ms|
  {
    if ms == [] then start == end
    else ms[|ms| - 1].end == end && ms[|ms| - 1].start >= start && Contiguous(ms[..|ms| - 1], start, ms[|ms| - 1].start)
  }

  /** The members `ms`, all from `low` on, stand for the pairs `ks`. */
  ghost predicate StandAll(codec: LinkCodec, integers: Integers, out: seq<byte>, low: nat, ms: seq<Member>, ks: seq<Keyed<Json>>) {
    && |ms| == |ks|
    && forall i :: 0 <= i < |ms| ==>
         low <= ms[i].start && Stands(codec, integers, out, ms[i], ks[i].key, ks[i].value)
  }

  /** The members with their keys, read from the buffer. */
  function WithKeys(out: seq<byte>, ms: seq<Member>): (r: seq<Keyed<Member>>)
    ensures |r| == |ms|
    ensures forall i :: 0 <= i < |r| ==> r[i] == Keyed(Slice(out, ms[i].key, ms[i].value), ms[i])
  {
    seq(|ms|, i requires 0 <= i < |ms| => Keyed(Slice(out, ms[i].key, ms[i].value), ms[i]))
  }

  /** `w` holds members that stand for the pairs `ks`, with their keys. */
  ghost predicate StandKeyed(codec: LinkCodec, integers: Integers, out: seq<byte>, low: nat, w: seq<Keyed<Member>>,
      ks: seq<Keyed<Json>>) {
    && |w| == |ks|
    && forall i :: 0 <= i < |w| ==>
         w[i].key == ks[i].key && low <= w[i].value.start && Stands(codec, integers, out, w[i].value, ks[i].key, ks[i].value)
  }

  /** Sorting members and keeping the last of each key sorts what they stand for and keeps the last of each key. */
  lemma SortMembers(codec: LinkCodec, integers: Integers, out: seq<byte>, low: nat, w: seq<Keyed<Member>>, ks: seq<Keyed<Json>>)
    requires StandKeyed(codec, integers, out, low, w, ks)
    ensures StandKeyed(codec, integers, out, low, DedupLast(Sort(LengthFirst, w)), DedupLast(Sort(LengthFirst, ks)))
  {
    hide Stands, Sort;
    var r := (k: seq<byte>, m: Member, j: Json) => low <= m.start && Stands(codec, integers, out, m, k, j);
    SortAligned(r, LengthFirst, w, ks);
    DedupAligned(r, Sort(LengthFirst, w), Sort(LengthFirst, ks));
  }

  // ---------- The object put back together ----------

  /** The bytes of members one after the other. */
  function Texts(out: seq<byte>, w: seq<Keyed<Member>>): seq<byte> {
    if w == [] then [] else Slice(out, w[0].value.start, w[0].value.end) + Texts(out, w[1..])
  }

  lemma MemberBytes(codec: LinkCodec, integers: Integers, out: seq<byte>, m: Member, key: seq<byte>, j: Json)
    requires Stands(codec, integers, out, m, key, j)
    ensures Encode(codec, integers, j).Ok? ==>
              Slice(out, m.start, m.end) == EncText(key) + Encode(codec, integers, j).value
  {
    hide Encode, EncText;
    assert out[m.start..m.end] == out[m.start..m.value] + out[m.value..m.end];
  }

  /** Members that stand for pairs hold the encodings the reference joins, or one of them is invalid. */
  lemma {:induction false} JoinedTexts(codec: LinkCodec, integers: Integers, out: seq<byte>, low: nat, w: seq<Keyed<Member>>, ks: seq<Keyed<Json>>)
    requires StandKeyed(codec, integers, out, low, w, ks)
    ensures var joined := Join(EncodeMembers(codec, integers, ks));
            && (joined.Err? <==> exists i :: 0 <= i < |w| && w[i].value.kind == Invalid)
            && (joined.Ok? ==> joined.value == Texts(out, w))
    decreases |w|
  {
    hide Encode, EncText, Slice;
    if w != [] {
      var v, rest := w[1..], ks[1..];
      assert forall i :: 0 <= i < |v| ==> v[i] == w[i + 1] && rest[i] == ks[i + 1];
      JoinedTexts(codec, integers, out, low, v, rest);
      MemberBytes(codec, integers, out, w[0].value, ks[0].key, ks[0].value);
      var e := EncodeMembers(codec, integers, ks);
      assert e[0] == Keyed(ks[0].key, Encode(codec, integers, ks[0].value)) && e[1..] == EncodeMembers(codec, integers, rest);
      if i :| 0 <= i < |w| && w[i].value.kind == Invalid {
        assert i == 0 || v[i - 1].value.kind == Invalid;
      }
    }
  }

  /** Members that lie one after the other are a stretch of the buffer. */
  lemma {:induction false} ContiguousTexts(out: seq<byte>, w: seq<Keyed<Member>>, ms: seq<Member>, start: nat, end: nat)
    requires |w| == |ms| && forall i :: 0 <= i < |w| ==> w[i].value == ms[i]
    requires Contiguous(ms, start, end) && start <= end <= |out|
    requires forall i :: 0 <= i < |ms| ==> ms[i].start <= ms[i].end
    ensures Texts(out, w) == out[start..end]
    decreases |w|
  {
    if w != [] {
      hide Texts, Contiguous, Slice;
      var n := |w| - 1;
      var m := ms[n];
      LastMember(ms, start, end);
      ContiguousTexts(out, w[..n], ms[..n], start, m.start);
      TextsSnoc(out, w[..n], w[n]);
      assert w == w[..n] + [w[n]];
      JoinSlices(out, start, m.start, end);
    }
  }

  lemma LastMember(ms: seq<Member>, start: nat, end: nat)
    requires ms != [] && Contiguous(ms, start, end)
    ensures var m := ms[|ms| - 1]; m.end == end && start <= m.start && Contiguous(ms[..|ms| - 1], start, m.start)
  {
  }

  lemma JoinSlices(s: seq<byte>, start: nat, mid: nat, end: nat)
    requires start <= mid <= end <= |s|
    ensures s[start..end] == s[start..mid] + Slice(s, mid, end)
  {
  }

  lemma {:induction false} TextsSnoc(out: seq<byte>, w: seq<Keyed<Member>>, x: Keyed<Member>)
    ensures Texts(out, w + [x]) == Texts(out, w) + Slice(out, x.value.start, x.value.end)
  {
    hide Slice;
    if w == [] {
      assert w + [x] == [x];
      assert Texts(out, [x][1..]) == [];
    } else {
      assert (w + [x])[1..] == w[1..] + [x];
      TextsSnoc(out, w[1..], x);
    }
  }

  // ---------- The writer ----------

  /** What a finished value leaves behind: its encoding at the end of the buffer, or the mark that it is invalid. */
  ghost predicate Written(codec: LinkCodec, integers: Integers, before: seq<byte>, out: seq<byte>, kind: Encoded, j: Json) {
    && before <= out
    && (match Encode(codec, integers, j)
        case Ok(bytes) => kind != Invalid && out == before + bytes
        case Err(_) => kind == Invalid)
    && (kind.TextFrom? <==> j.JString?)
    && (kind.TextFrom? ==> |before| <= kind.at <= |out| && Slice(out, kind.at, |out|) == j.s)
  }

  /** An encoding with bytes already written in front. */
  function After(done: seq<byte>, rest: JsonTree.Encoding): JsonTree.Encoding {
    match rest
    case Ok(bytes) => Ok(done + bytes)
    case Err(e) => Err(e)
  }

  lemma AfterNothing(rest: JsonTree.Encoding)
    ensures After([], rest) == rest
  {
    if rest.Ok? {
      assert [] + rest.value == rest.value;
    }
  }

  lemma ItemVisited(codec: LinkCodec, integers: Integers, done: seq<byte>, items: seq<Json>)
    requires items != []
    ensures var all := After(done, EncodeItems(codec, integers, TreeItems(items)));
            match Encode(codec, integers, Tree(items[0]))
            case Ok(bytes) => all == After(done + bytes, EncodeItems(codec, integers, TreeItems(items[1..])))
            case Err(e) => all.Err?
  {
    hide Encode, Tree;
    var t := TreeItems(items);
    assert t[0] == Tree(items[0]) && t[1..] == TreeItems(items[1..]);
    if Encode(codec, integers, t[0]).Ok? && EncodeItems(codec, integers, t[1..]).Ok? {
      var a, b := Encode(codec, integers, t[0]).value, EncodeItems(codec, integers, t[1..]).value;
      assert done + (a + b) == done + a + b;
    }
  }

  lemma NoItemsLeft(codec: LinkCodec, integers: Integers, items: seq<Json>)
    requires items == []
    ensures EncodeItems(codec, integers, TreeItems(items)) == Ok([])
  {
  }

  lemma ArrayEncoding(codec: LinkCodec, integers: Integers, items: seq<Json>)
    ensures Encode(codec, integers, JArray(items)) == After(Head(4, |items|), EncodeItems(codec, integers, items))
  {
    hide EncodeItems;
  }

  /** A key written, then its value: a member that stands. */
  lemma MemberVisited(codec: LinkCodec, integers: Integers, before: seq<byte>, out: seq<byte>, m: Member, key: seq<byte>, j: Json)
    requires Written(codec, integers, before + EncText(key), out, m.kind, j)
    requires m.start == |before| && m.value == |before + EncText(key)| && m.key == m.value - |key| && m.end == |out|
    ensures Stands(codec, integers, out, m, key, j)
    ensures before <= out
  {
    hide Encode;
    var mid := before + EncText(key);
    assert mid == out[..|mid|];
    assert out[m.start..m.value] == mid[m.start..] == EncText(key);
    assert out[m.key..m.value] == EncText(key)[|Head(3, |key|)|..] == key;
    assert before == mid[..|before|];
  }

  lemma RowExtended(codec: LinkCodec, integers: Integers, before: seq<byte>, out: seq<byte>, row: seq<Member>,
      pairs: seq<Keyed<Json>>, m: Member, pair: Keyed<Json>, start: nat)
    requires StandAll(codec, integers, before, start, row, pairs) && Contiguous(row, start, |before|)
    requires before <= out && Stands(codec, integers, out, m, pair.key, pair.value)
    requires start <= |before| == m.start && m.end == |out|
    ensures StandAll(codec, integers, out, start, row + [m], pairs + [pair])
    ensures Contiguous(row + [m], start, |out|)
  {
    hide Stands;
    forall i | 0 <= i < |row| ensures Stands(codec, integers, out, row[i], pairs[i].key, pairs[i].value) {
      StandsStill(codec, integers, before, out, row[i], pairs[i].key, pairs[i].value);
    }
    assert (row + [m])[..|row|] == row;
  }

  lemma NoMembersYet(codec: LinkCodec, integers: Integers, out: seq<byte>, low: nat)
    ensures StandAll(codec, integers, out, low, [], []) && Contiguous([], low, low)
  {
  }

  lemma PairVisited(pairs: seq<Keyed<Json>>, ms: seq<Keyed<Json>>)
    requires ms != []
    ensures pairs + TreeMembers(ms) == pairs + [Keyed(ms[0].key, Tree(ms[0].value))] + TreeMembers(ms[1..])
  {
    hide Tree;
  }

  lemma PairsVisited(pairs: seq<Keyed<Json>>, ms: seq<Keyed<Json>>)
    requires ms == []
    ensures pairs + TreeMembers(ms) == pairs
  {
  }

  /** What the object encodes to, in terms of its members in order with the last of each key kept. */
  lemma ObjectEncoding(codec: LinkCodec, integers: Integers, out: seq<byte>, low: nat, w: seq<Keyed<Member>>, pairs: seq<Keyed<Json>>)
    requires StandKeyed(codec, integers, out, low, w, DedupLast(Sort(LengthFirst, pairs)))
    ensures var special := if |w| == 1 && w[0].value.kind.TextFrom?
                           then SpecialMember(codec, w[0].key, Slice(out, w[0].value.kind.at, w[0].value.end))
                           else Ok(None);
            match special
            case Err(e) => Encode(codec, integers, JObject(PutAll(pairs))) == Err(e)
            case Ok(Some(s)) => Encode(codec, integers, JObject(PutAll(pairs))) == Ok(EncSpecial(s))
            case Ok(None) =>
              if exists i :: 0 <= i < |w| && w[i].value.kind == Invalid
              then Encode(codec, integers, JObject(PutAll(pairs))).Err?
              else Encode(codec, integers, JObject(PutAll(pairs))) == Ok(Head(5, |w|) + Texts(out, w))
  {
    hide EncodeMembers, Join, Sort, DedupLast, PutAll, SpecialMember, EncSpecial, Slice, Texts;
    var entries, last := PutAll(pairs), DedupLast(Sort(LengthFirst, pairs));
    ObjectBody(codec, integers, pairs);
    JoinedTexts(codec, integers, out, low, w, last);
    ObjectUnfolded(codec, integers, entries);
    if |w| == 1 {
      assert Stands(codec, integers, out, w[0].value, last[0].key, last[0].value);
    }
  }

  lemma ObjectUnfolded(codec: LinkCodec, integers: Integers, entries: seq<Keyed<Json>>)
    ensures Encode(codec, integers, JObject(entries)) ==
            match SpecialOf(codec, entries)
            case Err(e) => Err(e)
            case Ok(Some(s)) => Ok(EncSpecial(s))
            case Ok(None) => After(Head(5, |entries|), Join(Sort(LengthFirst, EncodeMembers(codec, integers, entries))))
  {
    hide EncodeMembers, Join, Sort, SpecialOf, EncSpecial;
  }

  /**
   Keeps the last of equal neighbours, in place: each element goes over the last one kept if their keys are equal.
   */
  method KeepLast(list: seq<Keyed<Member>>) returns (r: seq<Keyed<Member>>)
    ensures r == DedupLast(list)
  {
    hide DedupLast;
    NothingToDedup(list);
    var ms := list;
    var kept, i := 0, 0;
    while i < |ms|
      invariant 0 <= kept <= i <= |ms| == |list|
      invariant ms[i..] == list[i..]
      invariant ms[..kept] == DedupLast(list[..i])
    {
      DedupSnoc(list[..i], list[i]);
      assert list[..i + 1] == list[..i] + [list[i]];
      assert ms[i] == ms[i..][0] == list[i];
      ghost var d := ms[..kept];
      if kept > 0 && ms[kept - 1].key == ms[i].key {
        kept := kept - 1;
        assert ms[..kept] == d[..|d| - 1];
      }
      Overwritten(ms, kept, i);
      assert list[i..][1..] == list[i + 1..];
      ms := ms[kept := ms[i]];
      kept := kept + 1;
      i := i + 1;
    }
    assert list[..i] == list;
    return ms[..kept];
  }

  lemma Overwritten(ms: seq<Keyed<Member>>, at: nat, i: nat)
    requires at <= i < |ms|
    ensures var after := ms[at := ms[i]]; after[..at + 1] == ms[..at] + [ms[i]] && after[i + 1..] == ms[i..][1..]
  {
  }

  lemma NothingToDedup(list: seq<Keyed<Member>>)
    ensures DedupLast(list[..0]) == []
  {
  }

  /** The members in key order, the last of each key; told apart whether they were in order to begin with. */
  method OrderMembers(all: seq<Keyed<Member>>) returns (w: seq<Keyed<Member>>, inOrder: bool)
    ensures w == DedupLast(Sort(LengthFirst, all))
    ensures inOrder ==> w == all
  {
    hide Sort, DedupLast;
    w := all;
    inOrder := Ascending(LengthFirst, w);
    if inOrder {
      AscendingIsStrict(LengthFirst, w);
      SortOfSorted(LengthFirst, w);
      DedupOfStrict(LengthFirst, w);
    } else {
      w := Sort(LengthFirst, w);
      if NoRepeat(w) {
        DedupNothing(w);
      } else {
        w := KeepLast(w);
      }
    }
  }

  lemma MemberBounds(codec: LinkCodec, integers: Integers, out: seq<byte>, low: nat, w: seq<Keyed<Member>>, ks: seq<Keyed<Json>>)
    requires StandKeyed(codec, integers, out, low, w, ks)
    ensures forall i :: 0 <= i < |w| ==> low <= w[i].value.start <= w[i].value.end <= |out|
  {
    hide Encode;
  }

  class DrislWriter {
    const codec: LinkCodec
    const integers: Integers
    var out: seq<byte>
    /** The members of every unfinished object, innermost last. */
    var members: seq<Member>
    /** An object's bytes while its members are written back in order. */
    var scratch: seq<byte>

    constructor (codec: LinkCodec, integers: Integers)
      ensures this.codec == codec && this.integers == integers && out == [] && members == []
    {
      this.codec := codec;
      this.integers := integers;
      out, members, scratch := [], [], [];
    }

    /** A value other than a string, an array or an object. */
    method WriteSimple(j: Json) returns (kind: Encoded)
      requires j.JNull? || j.JBool? || j.JNumber?
      modifies this`out
      ensures Written(codec, integers, old(out), out, kind, j)
    {
      match j {
        case JNull =>
          out := out + Enc(Null);
        case JBool(b) =>
          out := out + Enc(Bool(b));
        case JNumber(n) =>
          match Integer(n, integers) {
            case Ok(i) => out := out + Enc(Signed(i));
            case Err(_) => return Invalid;
          }
      }
      return Other;
    }

    method WriteText(s: seq<byte>) returns (kind: Encoded)
      modifies this`out
      ensures Written(codec, integers, old(out), out, kind, JString(s))
    {
      out := out + EncText(s);
      assert out[|out| - |s|..] == s;
      return TextFrom(|out| - |s|);
    }

    /**
     Visits a parsed value. `None` is the parser's private token; otherwise the value's encoding is appended, or the
     value is marked invalid and whatever was written of it left to be dropped.
     */
    method Visit(e: Json) returns (r: Option<Encoded>)
      modifies this
      ensures r.None? <==> HasPrivate(e)
      ensures r.Some? ==> members == old(members) && Written(codec, integers, old(out), out, r.value, Tree(e))
      decreases e, 0
    {
      hide Encode, Enc, EncText;
      match e {
        case JString(s) =>
          var kind := WriteText(s);
          return Some(kind);
        case JArray(items) =>
          r := VisitSeq(items);
        case JObject(ms) =>
          r := VisitMap(ms);
        case _ =>
          var kind := WriteSimple(e);
          return Some(kind);
      }
    }

    /** `visit_seq`. */
    method VisitSeq(items: seq<Json>) returns (r: Option<Encoded>)
      modifies this
      ensures r.None? <==> PrivateItems(items)
      ensures r.Some? ==>
                members == old(members) && Written(codec, integers, old(out), out, r.value, JArray(TreeItems(items)))
      decreases items, 1
    {
      hide Encode, HasPrivate, Tree, TreeItems, EncodeItems, Written, Head, PrivateItems, SoFar;
      var start := |out|;
      out := out + [0x80];
      var valid := true;
      ghost var first, body: seq<byte> := out, [];
      AfterNothing(EncodeItems(codec, integers, TreeItems(items)));
      assert items[0..] == items && SoFar(first, out, valid, body) by {
        SoFarNothing(first, valid);
      }
      var i := 0;
      while i < |items|
        invariant i <= |items| && members == old(members)
        invariant PrivateItems(items) <==> PrivateItems(items[i..])
        invariant SoFar(first, out, valid, body)
        invariant if valid then
                    EncodeItems(codec, integers, TreeItems(items))
                    == After(body, EncodeItems(codec, integers, TreeItems(items[i..])))
                  else EncodeItems(codec, integers, TreeItems(items)).Err?
      {
        assert items[i..][1..] == items[i + 1..];
        PrivateStep(items[i..]);
        ghost var before := out;
        var kind := Visit(items[i]);
        if kind.None? {
          return None;
        }
        OneMore(codec, integers, first, before, out, valid, body, kind.value, Tree(items[i]));
        ItemVisited(codec, integers, body, items[i..]);
        valid := valid && kind.value != Invalid;
        if valid {
          body := body + Encode(codec, integers, Tree(items[i])).value;
        }
        i := i + 1;
      }
      ArrayEncoding(codec, integers, TreeItems(items));
      NoItemsLeft(codec, integers, items[i..]);
      PrivateEnd(items[i..]);
      SoFarMeans(old(out), 0x80, out, valid, body);
      if !valid {
        NotWritten(codec, integers, old(out), out, JArray(TreeItems(items)));
        return Some(Invalid);
      }
      assert body + [] == body;
      FinishArray(start, |items|);
      assert out == old(out) + (Head(4, |items|) + body);
      BytesWritten(codec, integers, old(out), out, JArray(TreeItems(items)));
      return Some(Other);
    }

    /** `finish_array`: the head of an array whose items are all written after a one-byte placeholder. */
    method FinishArray(start: nat, len: nat)
      requires start < |out| && out[start] == 0x80
      modifies this`out, this`scratch
      ensures out == old(out)[..start] + Head(4, len) + old(out)[start + 1..]
    {
      if len < 24 {
        out := out[start := out[start] + len];
      } else {
        scratch := Head(4, len);
        out := out[..start] + scratch + out[start + 1..];
      }
    }

    /** `visit_map`. */
    method VisitMap(ms: seq<Keyed<Json>>) returns (r: Option<Encoded>)
      modifies this
      ensures r.None? <==> (ms != [] && PRIVATE_KEY <= ms[0].key) || PrivateMembers(ms)
      ensures r.Some? ==>
                && members == old(members)
                && Written(codec, integers, old(out), out, r.value, JObject(PutAll(TreeMembers(ms))))
      decreases ms, 1
    {
      hide Encode, HasPrivate, Tree, Stands, PutAll, EncText, StandAll, Contiguous, Written, TreeMembers;
      NoMembersYet(codec, integers, out + [0xa0], |out| + 1);
      var start := |out|;
      var base := |members|;
      out := out + [0xa0];
      ghost var pairs: seq<Keyed<Json>> := [];
      assert members[base..] == [];
      assert ms[0..] == ms;
      var i := 0;
      while i < |ms|
        invariant i <= |ms| && |pairs| == i && old(out) + [0xa0] <= out
        invariant base <= |members| && members[..base] == old(members)
        invariant i > 0 ==> !(PRIVATE_KEY <= ms[0].key)
        invariant PrivateMembers(ms) <==> PrivateMembers(ms[i..])
        invariant TreeMembers(ms) == pairs + TreeMembers(ms[i..])
        invariant StandAll(codec, integers, out, start + 1, members[base..], pairs)
        invariant Contiguous(members[base..], start + 1, |out|)
      {
        assert ms[i..][1..] == ms[i + 1..];
        ghost var before, row := out, members[base..];
        if i == 0 && PRIVATE_KEY <= ms[0].key {
          return None;
        }
        var key := ms[i].key;
        var memberStart := |out|;
        out := out + EncText(key);
        var keyStart := |out| - |key|;
        var value := |out|;
        var kind := Visit(ms[i].value);
        if kind.None? {
          return None;
        }
        var m := Member(memberStart, keyStart, value, |out|, kind.value);
        members := members + [m];
        MemberVisited(codec, integers, before, out, m, key, Tree(ms[i].value));
        RowExtended(codec, integers, before, out, row, pairs, m, Keyed(key, Tree(ms[i].value)), start + 1);
        assert members[base..] == row + [m];
        PairVisited(pairs, ms[i..]);
        pairs := pairs + [Keyed(key, Tree(ms[i].value))];
        i := i + 1;
      }
      PairsVisited(pairs, ms[i..]);
      assert out[..start] == old(out);
      var kind := FinishMap(start, base, pairs);
      return Some(kind);
    }

    /** `finish_map`. */
    method FinishMap(start: nat, base: nat, ghost pairs: seq<Keyed<Json>>) returns (kind: Encoded)
      requires start < |out| && out[start] == 0xa0 && base <= |members|
      requires StandAll(codec, integers, out, start + 1, members[base..], pairs)
      requires Contiguous(members[base..], start + 1, |out|)
      modifies this
      ensures members == old(members)[..base]
      ensures Written(codec, integers, old(out)[..start], out, kind, JObject(PutAll(pairs)))
    {
      kind := SortMap(start, base, pairs);
      members := members[..base];
    }

    /**
     `sort_map`: the members sorted by key, the last of each key kept; then a `$link` or `$bytes` object takes the place
     of everything written, or the members are written back in order. (The sorted members are a local list here: the
     caller drops them in any case.)
     */
    method SortMap(start: nat, base: nat, ghost pairs: seq<Keyed<Json>>) returns (kind: Encoded)
      requires start < |out| && out[start] == 0xa0 && base <= |members|
      requires StandAll(codec, integers, out, start + 1, members[base..], pairs)
      requires Contiguous(members[base..], start + 1, |out|)
      modifies this`out, this`scratch
      ensures Written(codec, integers, old(out)[..start], out, kind, JObject(PutAll(pairs)))
    {
      hide Encode, Sort, DedupLast, PutAll, SpecialMember, EncSpecial, Texts, Head, Stands, Contiguous;
      ghost var low, ms := start + 1, members[base..];
      var all := WithKeys(out, members[base..]);
      AllKeyed(codec, integers, out, low, ms, pairs);
      SortMembers(codec, integers, out, low, all, pairs);
      var w, inOrder := OrderMembers(all);
      MemberBounds(codec, integers, out, low, w, DedupLast(Sort(LengthFirst, pairs)));
      ObjectEncoding(codec, integers, out, low, w, pairs);
      if |w| == 1 && w[0].value.kind.TextFrom? {
        var m := w[0].value;
        match SpecialMember(codec, w[0].key, Slice(out, m.kind.at, m.end)) {
          case Ok(None) =>
          case Ok(Some(special)) =>
            out := out[..start] + EncSpecial(special);
            return Other;
          case Err(_) =>
            return Invalid;
        }
      }
      if exists i :: 0 <= i < |w| && w[i].value.kind == Invalid {
        return Invalid;
      }
      if inOrder && |w| < 24 {
        ContiguousTexts(out, w, ms, low, |out|);
        ShortHead(5, |w|);
        out := out[start := out[start] + |w|];
        assert out == old(out)[..start] + (Head(5, |w|) + old(out)[start + 1..]);
      } else {
        WriteBack(start, w);
      }
      return Other;
    }

    /** The members written back in order, from a copy of what was there. */
    method WriteBack(start: nat, w: seq<Keyed<Member>>)
      requires start < |out|
      requires forall i :: 0 <= i < |w| ==> start <= w[i].value.start <= w[i].value.end <= |out|
      modifies this`out, this`scratch
      ensures out == old(out)[..start] + (Head(5, |w|) + Texts(old(out), w))
    {
      hide Head, Texts;
      scratch := out[start..];
      out := out[..start] + Head(5, |w|);
      var i := 0;
      while i < |w|
        invariant i <= |w| && scratch == old(out)[start..]
        invariant out + Texts(old(out), w[i..]) == old(out)[..start] + (Head(5, |w|) + Texts(old(out), w))
      {
        var m := w[i].value;
        TextsStep(out, old(out), w, i);
        assert scratch[m.start - start..m.end - start] == old(out)[m.start..m.end];
        out := out + scratch[m.start - start..m.end - start];
        i := i + 1;
      }
      TextsEnd(out, old(out), w[i..]);
    }
  }

  lemma TextsStep(before: seq<byte>, out: seq<byte>, w: seq<Keyed<Member>>, i: nat)
    requires i < |w| && forall j :: 0 <= j < |w| ==> w[j].value.start <= w[j].value.end <= |out|
    ensures before + Texts(out, w[i..]) == before + out[w[i].value.start..w[i].value.end] + Texts(out, w[i + 1..])
  {
    assert w[i..][1..] == w[i + 1..];
    var text := Slice(out, w[i].value.start, w[i].value.end);
    FirstText(out, w[i..]);
    hide Texts, Slice;
    Regroup(before, text, Texts(out, w[i + 1..]));
  }

  lemma FirstText(out: seq<byte>, w: seq<Keyed<Member>>)
    requires w != []
    ensures Texts(out, w) == Slice(out, w[0].value.start, w[0].value.end) + Texts(out, w[1..])
  {
    hide Slice;
  }

  lemma TextsEnd(before: seq<byte>, out: seq<byte>, w: seq<Keyed<Member>>)
    requires w == []
    ensures before + Texts(out, w) == before
  {
  }

  lemma PrivateStep(items: seq<Json>)
    requires items != []
    ensures PrivateItems(items) <==> HasPrivate(items[0]) || PrivateItems(items[1..])
  {
    hide HasPrivate;
  }

  lemma PrivateEnd(items: seq<Json>)
    requires items == []
    ensures !PrivateItems(items)
  {
  }

  /** The items written after `first`, if all of them were valid. */
  ghost predicate SoFar(first: seq<byte>, out: seq<byte>, valid: bool, body: seq<byte>) {
    first <= out && (valid ==> out == first + body)
  }

  lemma SoFarNothing(first: seq<byte>, valid: bool)
    ensures SoFar(first, first, valid, [])
  {
  }

  lemma OneMore(codec: LinkCodec, integers: Integers, first: seq<byte>, before: seq<byte>, out: seq<byte>,
                valid: bool, body: seq<byte>, kind: Encoded, j: Json)
    requires SoFar(first, before, valid, body) && Written(codec, integers, before, out, kind, j)
    ensures kind == Invalid <==> Encode(codec, integers, j).Err?
    ensures if valid && kind != Invalid then SoFar(first, out, true, body + Encode(codec, integers, j).value)
            else SoFar(first, out, false, body)
  {
    hide Encode;
    if valid && kind != Invalid {
      var bytes := Encode(codec, integers, j).value;
      assert first + body + bytes == first + (body + bytes);
    }
  }

  lemma SoFarMeans(before: seq<byte>, head: byte, out: seq<byte>, valid: bool, body: seq<byte>)
    requires SoFar(before + [head], out, valid, body)
    ensures before <= out
    ensures valid ==> |out| > |before| && out[|before|] == head && out[..|before|] == before && out[|before| + 1..] == body
  {
    assert before <= before + [head] <= out;
    AroundHead(before, head, body);
  }

  lemma NotWritten(codec: LinkCodec, integers: Integers, before: seq<byte>, out: seq<byte>, j: Json)
    requires Encode(codec, integers, j).Err? && before <= out && !j.JString?
    ensures Written(codec, integers, before, out, Invalid, j)
  {
    hide Encode;
  }

  lemma BytesWritten(codec: LinkCodec, integers: Integers, before: seq<byte>, out: seq<byte>, j: Json)
    requires Encode(codec, integers, j).Ok? && out == before + Encode(codec, integers, j).value && !j.JString?
    ensures Written(codec, integers, before, out, Other, j)
  {
    hide Encode;
  }

  lemma AroundHead(before: seq<byte>, head: byte, body: seq<byte>)
    ensures var all := before + [head] + body;
            |all| > |before| && all[|before|] == head && all[..|before|] == before && all[|before| + 1..] == body
  {
  }

  lemma ShortHead(major: nat, n: nat)
    requires major < 8 && n < 24
    ensures Head(major, n) == [32 * major + n]
  {
  }

  lemma AllKeyed(codec: LinkCodec, integers: Integers, out: seq<byte>, low: nat, ms: seq<Member>, pairs: seq<Keyed<Json>>)
    requires StandAll(codec, integers, out, low, ms, pairs)
    ensures StandKeyed(codec, integers, out, low, WithKeys(out, ms), pairs)
  {
    hide Encode, EncText;
  }

  /** `encode_json`: the document's DRISL, or nothing if it is invalid or has to be left to the tree path. */
  method EncodeJson(codec: LinkCodec, integers: Integers, e: Json) returns (r: Option<seq<byte>>)
    ensures r == if HasPrivate(e) || Reference(codec, integers, e).Err? then None else Some(Reference(codec, integers, e).value)
  {
    hide Encode, Tree, HasPrivate;
    var w := new DrislWriter(codec, integers);
    var kind := w.Visit(e);
    if kind.None? || kind.value == Invalid {
      return None;
    }
    assert w.out == Reference(codec, integers, e).value;
    return Some(w.out);
  }

  /** `json_slice_to_drisl` on a parsed document: one pass, or if that gives nothing, the tree path for its error. */
  method JsonToDrislBytes(codec: LinkCodec, integers: Integers, e: Json) returns (r: JsonTree.Encoding)
    ensures r == Reference(codec, integers, e)
  {
    var fast := EncodeJson(codec, integers, e);
    r := match fast case Some(bytes) => Ok(bytes) case None => Reference(codec, integers, e);
  }
}
