/**
 * The columnar blocks of a Jetstream archive. `EncodeBlock` lays rows out column by column; `DecodesExactly` says that
 * the decoder accepts exactly what it produces.
 */
module JetstreamBlock {
  import opened Wrappers
  import opened Bytes

  type u32 = n: int | 0 <= n < 0x1_0000_0000 witness 0

  datatype Kind = Create | Update | Delete | Identity | Account | Sync | CreateResync {
    /** `as_u8`. */
    function Code(): byte {
      match this
      case Create => 1
      case Update => 2
      case Delete => 3
      case Identity => 4
      case Account => 5
      case Sync => 6
      case CreateResync => 7
    }
  }

  /** `from_u8`. */
  function KindOf(code: byte): Option<Kind> {
    match code
    case 1 => Some(Create)
    case 2 => Some(Update)
    case 3 => Some(Delete)
    case 4 => Some(Identity)
    case 5 => Some(Account)
    case 6 => Some(Sync)
    case 7 => Some(CreateResync)
    case _ => None
  }

  lemma KindCodes(code: byte, kind: Kind)
    ensures KindOf(code) == Some(kind) <==> code == kind.Code()
  {
  }

  datatype Row = Row(
    cursor: u64, witnessed: i64, indexed: i64, kind: Kind,
    collection: seq<byte>, did: seq<byte>, rkey: seq<byte>, rev: seq<byte>, payload: seq<byte>)

  datatype BlockError =
    | TruncatedColumn | TruncatedFixed | TruncatedBlobs
    | TrailingBytes | TrailingAfterEmpty | InvalidKind | TooManyEvents(n: nat)

  const MAX_BLOCK_EVENTS: nat := 0x4_0000
  const FIXED_PER_EVENT: nat := 34

  // ---------- The layout ----------

  function Unsigned(i: i64): u64 {
    if i < 0 then i + U64_LIMIT else i
  }

  function Signed(n: u64): i64 {
    if n > I64_MAX then n - U64_LIMIT else n
  }

  /** The columns: nine of fixed width, the last five of them lengths, and then the five they are the lengths of. */
  function Width(k: nat): nat
    requires k < 9
  {
    if k < 3 then 8 else if k == 5 then 2 else if k == 8 then 4 else 1
  }

  /** The variable part of a row in column `9 + j`. */
  function Blob(r: Row, j: nat): seq<byte>
    requires j < 5
  {
    match j
    case 0 => r.collection
    case 1 => r.did
    case 2 => r.rkey
    case 3 => r.rev
    case _ => r.payload
  }

  /** The number in column `k`. */
  function Number(r: Row, k: nat): nat
    requires k < 9 && k != 3
  {
    match k
    case 0 => r.cursor
    case 1 => Unsigned(r.witnessed)
    case 2 => Unsigned(r.indexed)
    case _ => |Blob(r, k - 4)|
  }

  /** What a row puts in column `k`. */
  function Cell(r: Row, k: nat): seq<byte>
    requires k < 14
  {
    if k == 3 then [r.kind.Code()]
    else if k < 9 then Le(Number(r, k), Width(k))
    else Blob(r, k - 9)
  }

  predicate Fits(r: Row) {
    forall k :: 4 <= k < 9 ==> |Blob(r, k - 4)| < Pow256(Width(k))
  }

  function Column(rows: seq<Row>, k: nat): seq<byte>
    requires k < 14
  {
    if rows == [] then [] else Cell(rows[0], k) + Column(rows[1..], k)
  }

  function Columns(rows: seq<Row>, k: nat): seq<byte>
    requires k <= 14
    decreases 14 - k
  {
    if k == 14 then [] else Column(rows, k) + Columns(rows, k + 1)
  }

  function EncodeBlock(rows: seq<Row>): seq<byte> {
    Le(|rows|, 4) + Columns(rows, 0)
  }

  predicate Encodable(rows: seq<Row>) {
    |rows| <= MAX_BLOCK_EVENTS && forall i :: 0 <= i < |rows| ==> Fits(rows[i])
  }

  // ---------- Reading rows ----------

  /** Where each column's next cell starts. */
  type Cursors = p: seq<nat> | |p| == 14 witness seq(14, _ => 0)

  predicate FixedIn(b: seq<byte>, pos: Cursors) {
    forall k :: 0 <= k < 9 ==> pos[k] + Width(k) <= |b|
  }

  function Field(b: seq<byte>, pos: Cursors, k: nat): nat
    requires k < 9 && FixedIn(b, pos)
  {
    FromLe(b[pos[k]..pos[k] + Width(k)])
  }

  function Size(b: seq<byte>, pos: Cursors, k: nat): nat
    requires k < 14 && FixedIn(b, pos)
  {
    if k < 9 then Width(k) else Field(b, pos, k - 5)
  }

  predicate RowIn(b: seq<byte>, pos: Cursors) {
    && FixedIn(b, pos)
    && KindOf(b[pos[3]]).Some?
    && forall k :: 0 <= k < 14 ==> pos[k] + Size(b, pos, k) <= |b|
  }

  function Slice(b: seq<byte>, pos: Cursors, k: nat): seq<byte>
    requires k < 14 && RowIn(b, pos)
  {
    b[pos[k]..pos[k] + Size(b, pos, k)]
  }

  function Word(b: seq<byte>, pos: Cursors, k: nat): (n: u64)
    requires k < 3 && FixedIn(b, pos)
  {
    Pow256Eight();
    Field(b, pos, k)
  }

  lemma Pow256Eight()
    ensures Pow256(8) == U64_LIMIT && Pow256(4) == 0x1_0000_0000 && Pow256(2) == 0x1_0000 && Pow256(1) == 0x100
  {
    assert Pow256(4) == 0x1_0000_0000;
    assert Pow256(8) == 0x100 * (0x100 * (0x100 * (0x100 * Pow256(4))));
  }

  function RowAt(b: seq<byte>, pos: Cursors): Row
    requires RowIn(b, pos)
  {
    Row(Word(b, pos, 0), Signed(Word(b, pos, 1)), Signed(Word(b, pos, 2)), KindOf(b[pos[3]]).value,
        Slice(b, pos, 9), Slice(b, pos, 10), Slice(b, pos, 11), Slice(b, pos, 12), Slice(b, pos, 13))
  }

  function Advance(b: seq<byte>, pos: Cursors): Cursors
    requires FixedIn(b, pos)
  {
    seq(14, k requires 0 <= k < 14 => pos[k] + Size(b, pos, k))
  }

  predicate RowsIn(b: seq<byte>, pos: Cursors, count: nat)
    decreases count
  {
    count > 0 ==> RowIn(b, pos) && RowsIn(b, Advance(b, pos), count - 1)
  }

  function RowsAt(b: seq<byte>, pos: Cursors, count: nat): (rows: seq<Row>)
    requires RowsIn(b, pos, count)
    ensures |rows| == count
    decreases count
  {
    if count == 0 then [] else [RowAt(b, pos)] + RowsAt(b, Advance(b, pos), count - 1)
  }

  ghost predicate RowStands(b: seq<byte>, pos: Cursors, r: Row) {
    forall k :: 0 <= k < 14 ==> At(b, pos[k], Cell(r, k))
  }

  ghost predicate RowsStand(b: seq<byte>, pos: Cursors, rows: seq<Row>) {
    forall k :: 0 <= k < 14 ==> At(b, pos[k], Column(rows, k))
  }

  /** A row that is read fits its length columns, and every one of its cells is what was read. */
  lemma RowRead(b: seq<byte>, pos: Cursors)
    requires RowIn(b, pos)
    ensures Fits(RowAt(b, pos)) && RowStands(b, pos, RowAt(b, pos))
    ensures forall k :: 0 <= k < 14 ==> Size(b, pos, k) == |Cell(RowAt(b, pos), k)|
  {
    hide Le, FromLe, KindOf, Pow256, RowAt, Cell, Size, Blob;
    var r := RowAt(b, pos);
    forall k | 0 <= k < 14
      ensures At(b, pos[k], Cell(r, k)) && Size(b, pos, k) == |Cell(r, k)|
      ensures 4 <= k < 9 ==> |Blob(r, k - 4)| < Pow256(Width(k))
    {
      if k == 3 {
        KindRead(b, pos);
      } else if k < 9 {
        NumberRead(b, pos, k);
      } else {
        BlobRead(b, pos, k);
      }
    }
  }

  lemma KindRead(b: seq<byte>, pos: Cursors)
    requires RowIn(b, pos)
    ensures At(b, pos[3], Cell(RowAt(b, pos), 3)) && Size(b, pos, 3) == |Cell(RowAt(b, pos), 3)|
  {
    KindCodes(b[pos[3]], KindOf(b[pos[3]]).value);
    hide KindOf;
    assert b[pos[3]..pos[3] + 1] == [b[pos[3]]];
  }

  lemma NumberRead(b: seq<byte>, pos: Cursors, k: nat)
    requires RowIn(b, pos) && k < 9 && k != 3
    ensures var r := RowAt(b, pos);
            Number(r, k) == Field(b, pos, k) && At(b, pos[k], Cell(r, k)) && Size(b, pos, k) == |Cell(r, k)|
            && Number(r, k) < Pow256(Width(k))
    ensures k >= 4 ==> Number(RowAt(b, pos), k) == |Blob(RowAt(b, pos), k - 4)|
  {
    NumberIsField(b, pos, k);
    LeOfFromLe(b[pos[k]..pos[k] + Width(k)]);
    hide RowAt, FromLe, KindOf, Pow256, Le, Number;
  }

  lemma NumberIsField(b: seq<byte>, pos: Cursors, k: nat)
    requires RowIn(b, pos) && k < 9 && k != 3
    ensures Number(RowAt(b, pos), k) == Field(b, pos, k)
  {
    hide KindOf, Field;
  }

  lemma BlobRead(b: seq<byte>, pos: Cursors, k: nat)
    requires RowIn(b, pos) && 9 <= k < 14
    ensures var r := RowAt(b, pos); At(b, pos[k], Cell(r, k)) && Size(b, pos, k) == |Cell(r, k)|
  {
    hide RowAt, FromLe, KindOf, Pow256, Le, Blob, Field;
    BlobIsSlice(b, pos, k);
  }

  lemma BlobIsSlice(b: seq<byte>, pos: Cursors, k: nat)
    requires RowIn(b, pos) && 9 <= k < 14
    ensures Blob(RowAt(b, pos), k - 9) == Slice(b, pos, k)
  {
    hide RowIn, Slice, Word, KindOf;
  }

  lemma RowWritten(b: seq<byte>, pos: Cursors, r: Row)
    requires Fits(r) && RowStands(b, pos, r)
    ensures RowIn(b, pos) && RowAt(b, pos) == r
    ensures forall k :: 0 <= k < 14 ==> Size(b, pos, k) == |Cell(r, k)|
  {
    hide Le, FromLe, KindOf, Pow256, Fits, RowAt, Cell, Number, Blob, Width;
    forall k | 0 <= k < 9 ensures pos[k] + Width(k) <= |b| {
      CellLength(r, k);
      assert At(b, pos[k], Cell(r, k));
    }
    forall k | 0 <= k < 14 ensures Size(b, pos, k) == |Cell(r, k)| && pos[k] + Size(b, pos, k) <= |b| {
      SizeWritten(b, pos, r, k);
    }
    KindWritten(b, pos, r);
    RowReadBack(b, pos, r);
  }

  lemma SizeWritten(b: seq<byte>, pos: Cursors, r: Row, k: nat)
    requires Fits(r) && RowStands(b, pos, r) && FixedIn(b, pos) && k < 14
    ensures Size(b, pos, k) == |Cell(r, k)| && pos[k] + Size(b, pos, k) <= |b|
  {
    hide Field, Fits, Width;
    CellStands(b, pos, r, k);
    hide RowStands, Cell;
    if k >= 9 {
      FieldWritten(b, pos, r, k - 5);
      NumberWritten(r, k - 5);
    } else {
      CellLength(r, k);
    }
  }

  lemma CellStands(b: seq<byte>, pos: Cursors, r: Row, k: nat)
    requires RowStands(b, pos, r) && k < 14
    ensures pos[k] + |Cell(r, k)| <= |b| && b[pos[k]..pos[k] + |Cell(r, k)|] == Cell(r, k)
  {
    hide Cell;
    assert At(b, pos[k], Cell(r, k));
  }

  lemma FieldWritten(b: seq<byte>, pos: Cursors, r: Row, k: nat)
    requires Fits(r) && RowStands(b, pos, r) && FixedIn(b, pos) && k < 9 && k != 3
    ensures Field(b, pos, k) == Number(r, k)
  {
    hide Le, FromLe, Fits, Width, Number, Cell, RowStands;
    CellStands(b, pos, r, k);
    CellLength(r, k);
    NumberWritten(r, k);
  }

  lemma KindWritten(b: seq<byte>, pos: Cursors, r: Row)
    requires RowStands(b, pos, r)
    ensures pos[3] < |b| && KindOf(b[pos[3]]) == Some(r.kind)
  {
    assert At(b, pos[3], Cell(r, 3));
    hide KindOf;
    assert b[pos[3]] == b[pos[3]..pos[3] + 1][0];
    KindCodes(b[pos[3]], r.kind);
  }

  lemma RowReadBack(b: seq<byte>, pos: Cursors, r: Row)
    requires RowIn(b, pos) && RowStands(b, pos, r) && Fits(r)
    ensures RowAt(b, pos) == r
  {
    hide *;
    var s := RowAt(b, pos);
    NumbersReadBack(b, pos, r);
    forall j | 0 <= j < 5 ensures Blob(s, j) == Blob(r, j) {
      BlobIsSlice(b, pos, 9 + j);
      SliceWritten(b, pos, r, 9 + j);
    }
    SameParts(s, r);
  }

  lemma SameParts(s: Row, r: Row)
    requires s.cursor == r.cursor && s.witnessed == r.witnessed && s.indexed == r.indexed && s.kind == r.kind
    requires forall j :: 0 <= j < 5 ==> Blob(s, j) == Blob(r, j)
    ensures s == r
  {
    assert Blob(s, 0) == Blob(r, 0) && Blob(s, 1) == Blob(r, 1) && Blob(s, 2) == Blob(r, 2);
    assert Blob(s, 3) == Blob(r, 3) && Blob(s, 4) == Blob(r, 4);
  }

  lemma NumbersReadBack(b: seq<byte>, pos: Cursors, r: Row)
    requires RowIn(b, pos) && RowStands(b, pos, r) && Fits(r)
    ensures var s := RowAt(b, pos);
            s.cursor == r.cursor && s.witnessed == r.witnessed && s.indexed == r.indexed && s.kind == r.kind
  {
    KindWritten(b, pos, r);
    FieldWritten(b, pos, r, 0);
    FieldWritten(b, pos, r, 1);
    FieldWritten(b, pos, r, 2);
    hide Fits, KindOf, Size, Field, Slice, Cell, RowStands;
  }

  lemma SliceWritten(b: seq<byte>, pos: Cursors, r: Row, k: nat)
    requires RowIn(b, pos) && RowStands(b, pos, r) && Fits(r) && 9 <= k < 14
    ensures Slice(b, pos, k) == Blob(r, k - 9)
  {
    SizeWritten(b, pos, r, k);
    hide Fits, Size, KindOf, Pow256, Le;
    assert At(b, pos[k], Cell(r, k));
  }

  lemma NumberWritten(r: Row, k: nat)
    requires Fits(r) && k < 9 && k != 3
    ensures FromLe(Cell(r, k)) == Number(r, k)
    ensures k >= 4 ==> Number(r, k) == |Cell(r, k + 5)|
  {
    Pow256Eight();
    hide Le, FromLe, Pow256, Blob;
    FromLeOfLe(Number(r, k), Width(k));
  }

  /** The first row's cells come first in every column. */
  lemma RowsStep(b: seq<byte>, pos: Cursors, next: Cursors, rows: seq<Row>)
    requires rows != [] && forall k :: 0 <= k < 14 ==> next[k] == pos[k] + |Cell(rows[0], k)|
    ensures RowsStand(b, pos, rows) <==> RowStands(b, pos, rows[0]) && RowsStand(b, next, rows[1..])
  {
    hide At, Cell;
    forall k | 0 <= k < 14
      ensures At(b, pos[k], Column(rows, k)) <==> At(b, pos[k], Cell(rows[0], k)) && At(b, next[k], Column(rows[1..], k))
    {
      AtAppend(b, pos[k], Cell(rows[0], k), Column(rows[1..], k));
    }
  }

  lemma {:induction false} RowsRead(b: seq<byte>, pos: Cursors, count: nat)
    requires RowsIn(b, pos, count) && forall k :: 0 <= k < 14 ==> pos[k] <= |b|
    ensures RowsStand(b, pos, RowsAt(b, pos, count))
    ensures forall i :: 0 <= i < count ==> Fits(RowsAt(b, pos, count)[i])
    decreases count
  {
    hide RowAt, Cell, Fits, KindOf;
    if count > 0 {
      var next := Advance(b, pos);
      RowRead(b, pos);
      RowsRead(b, next, count - 1);
      var rows := RowsAt(b, pos, count);
      assert rows[1..] == RowsAt(b, next, count - 1);
      RowsStep(b, pos, next, rows);
    }
  }

  lemma {:induction false} RowsWritten(b: seq<byte>, pos: Cursors, rows: seq<Row>)
    requires RowsStand(b, pos, rows) && forall i :: 0 <= i < |rows| ==> Fits(rows[i])
    ensures RowsIn(b, pos, |rows|) && RowsAt(b, pos, |rows|) == rows
    decreases |rows|
  {
    hide RowAt, Cell, Fits, RowIn, RowStands, RowsStand;
    if rows != [] {
      var next := seq(14, k requires 0 <= k < 14 => pos[k] + |Cell(rows[0], k)|);
      RowsStep(b, pos, next, rows);
      RowWritten(b, pos, rows[0]);
      RowInIsFixedIn(b, pos);
      assert next == Advance(b, pos);
      RowsWritten(b, next, rows[1..]);
      assert rows == [rows[0]] + rows[1..];
    }
  }

  lemma RowInIsFixedIn(b: seq<byte>, pos: Cursors)
    ensures RowIn(b, pos) ==> FixedIn(b, pos)
  {
  }

  // ---------- Lengths ----------

  /** The sum of a column of `count` little-endian numbers of `w` bytes. */
  function Sum(b: seq<byte>, off: nat, w: nat, count: nat): nat
    requires off + w * count <= |b|
    decreases count
  {
    if count == 0 then 0
    else
      assert w * count == w + w * (count - 1);
      FromLe(b[off..off + w]) + Sum(b, off + w, w, count - 1)
  }

  lemma {:induction false} FixedColumnLength(rows: seq<Row>, k: nat)
    requires k < 9
    ensures |Column(rows, k)| == Width(k) * |rows|
  {
    if rows != [] {
      FixedColumnLength(rows[1..], k);
      assert Width(k) * |rows| == Width(k) + Width(k) * |rows[1..]|;
    }
  }

  /** The lengths in a column add up to the length of the column they describe. */
  lemma {:induction false} SumOfLengths(b: seq<byte>, off: nat, rows: seq<Row>, k: nat)
    requires 4 <= k < 9 && At(b, off, Column(rows, k)) && forall i :: 0 <= i < |rows| ==> Fits(rows[i])
    requires off + Width(k) * |rows| <= |b|
    ensures Sum(b, off, Width(k), |rows|) == |Column(rows, k + 5)|
    decreases |rows|
  {
    hide FromLe, Fits, Cell, At;
    if rows != [] {
      var w := Width(k);
      assert w * |rows| == w + w * |rows[1..]|;
      CellLength(rows[0], k);
      AtAppend(b, off, Cell(rows[0], k), Column(rows[1..], k));
      AtSlice(b, off, Cell(rows[0], k));
      NumberWritten(rows[0], k);
      SumOfLengths(b, off + w, rows[1..], k);
    }
  }

  lemma CellLength(r: Row, k: nat)
    requires k < 9
    ensures |Cell(r, k)| == Width(k)
  {
  }

  // ---------- Parsing ----------

  datatype Layout = Layout(n: nat, collection: nat, did: nat, rkey: nat, rev: nat, payload: nat)

  predicate KindsOk(b: seq<byte>, off: nat, count: nat)
    requires off + count <= |b|
  {
    forall i :: off <= i < off + count ==> KindOf(b[i]).Some?
  }

  /** Where the fixed-width columns start in a block of `n` rows. */
  function Offset(n: nat, k: nat): nat
    requires k < 9
  {
    match k
    case 0 => 4
    case 1 => 4 + 8 * n
    case 2 => 4 + 16 * n
    case 3 => 4 + 24 * n
    case 4 => 4 + 25 * n
    case 5 => 4 + 26 * n
    case 6 => 4 + 28 * n
    case 7 => 4 + 29 * n
    case _ => 4 + 30 * n
  }

  /** The total length of the variable column `k + 5`. */
  function Total(b: seq<byte>, n: nat, k: nat): nat
    requires 4 <= k < 9 && 4 + FIXED_PER_EVENT * n <= |b|
  {
    Sum(b, Offset(n, k), Width(k), n)
  }

  function LayoutOf(b: seq<byte>, n: nat): (l: Layout)
    requires 4 + FIXED_PER_EVENT * n <= |b|
    ensures l.n == n
  {
    var collection := 4 + FIXED_PER_EVENT * n;
    var did := collection + Total(b, n, 4);
    var rkey := did + Total(b, n, 5);
    var rev := rkey + Total(b, n, 6);
    Layout(n, collection, did, rkey, rev, rev + Total(b, n, 7))
  }

  function ParseBlock(b: seq<byte>): Result<Layout, BlockError> {
    if |b| < 4 then Err(TruncatedColumn)
    else
      var n := FromLe(b[..4]);
      if n == 0 then if |b| != 4 then Err(TrailingAfterEmpty) else Ok(Layout(0, 4, 4, 4, 4, 4))
      else if n > MAX_BLOCK_EVENTS then Err(TooManyEvents(n))
      else if |b| < 4 + FIXED_PER_EVENT * n then Err(TruncatedFixed)
      else if !KindsOk(b, Offset(n, 3), n) then Err(InvalidKind)
      else
        var layout := LayoutOf(b, n);
        var end := layout.payload + Total(b, n, 8);
        if end > |b| then Err(TruncatedBlobs)
        else if end < |b| then Err(TrailingBytes)
        else Ok(layout)
  }

  function Starts(l: Layout): Cursors {
    seq(9, k requires 0 <= k < 9 => Offset(l.n, k)) + [l.collection, l.did, l.rkey, l.rev, l.payload]
  }

  /** `visit` looks at the kinds again, but `LayoutHoldsRows` shows that a layout that was parsed has all its rows. */
  function DecodeBlock(b: seq<byte>): Result<seq<Row>, BlockError> {
    match ParseBlock(b)
    case Err(e) => Err(e)
    case Ok(layout) =>
      if RowsIn(b, Starts(layout), layout.n) then Ok(RowsAt(b, Starts(layout), layout.n)) else Err(InvalidKind)
  }

  /** Every column has room for its rows. */
  ghost predicate Room(b: seq<byte>, pos: Cursors, count: nat) {
    && (forall k :: 0 <= k < 9 ==> pos[k] + Width(k) * count <= |b|)
    && KindsOk(b, pos[3], count)
    && forall k :: 4 <= k < 9 ==> pos[k + 5] + Sum(b, pos[k], Width(k), count) <= |b|
  }

  lemma {:induction false} RoomForRows(b: seq<byte>, pos: Cursors, count: nat)
    requires Room(b, pos, count)
    ensures RowsIn(b, pos, count)
    decreases count
  {
    hide Room, RowIn, FixedIn, Advance;
    if count > 0 {
      RoomForRow(b, pos, count);
      RoomForRows(b, Advance(b, pos), count - 1);
    }
  }

  lemma RoomForRow(b: seq<byte>, pos: Cursors, count: nat)
    requires Room(b, pos, count) && count > 0
    ensures RowIn(b, pos) && FixedIn(b, pos) && Room(b, Advance(b, pos), count - 1)
  {
    hide FromLe, KindOf, Sum;
    forall k | 0 <= k < 9 ensures pos[k] + Width(k) + Width(k) * (count - 1) <= |b| {
      OneLess(Width(k), count);
    }
    assert FixedIn(b, pos);
    hide Width;
    var next := Advance(b, pos);
    forall k | 4 <= k < 9
      ensures Sum(b, pos[k], Width(k), count) == Field(b, pos, k) + Sum(b, next[k], Width(k), count - 1)
    {
      SumStep(b, pos[k], Width(k), count);
    }
    hide Field;
    forall k | 0 <= k < 14 ensures pos[k] + Size(b, pos, k) <= |b| {
      if k >= 9 {
        assert pos[(k - 5) + 5] + Sum(b, pos[k - 5], Width(k - 5), count) <= |b|;
      }
    }
    forall k | 4 <= k < 9 ensures next[k + 5] + Sum(b, next[k], Width(k), count - 1) <= |b| {
      assert pos[k + 5] + Sum(b, pos[k], Width(k), count) <= |b|;
    }
  }

  lemma OneLess(w: nat, count: nat)
    requires count > 0
    ensures w * count == w + w * (count - 1)
  {
  }

  lemma SumStep(b: seq<byte>, off: nat, w: nat, count: nat)
    requires count > 0 && off + w * count <= |b|
    ensures off + w + w * (count - 1) <= |b| && off + w <= |b|
    ensures Sum(b, off, w, count) == FromLe(b[off..off + w]) + Sum(b, off + w, w, count - 1)
  {
    hide FromLe;
    OneLess(w, count);
  }

  lemma LayoutHoldsRows(b: seq<byte>)
    ensures ParseBlock(b).Ok? ==> RowsIn(b, Starts(ParseBlock(b).value), ParseBlock(b).value.n)
  {
    hide FromLe, KindOf, Sum;
    if ParseBlock(b).Ok? && ParseBlock(b).value.n > 0 {
      var l := ParseBlock(b).value;
      var pos := Starts(l);
      forall k | 0 <= k < 9 ensures pos[k] == Offset(l.n, k) && pos[k] + Width(k) * l.n <= |b| {
        OffsetBound(l.n, k);
      }
      forall k | 4 <= k < 9 ensures pos[k + 5] + Sum(b, pos[k], Width(k), l.n) <= |b| {
      }
      RoomForRows(b, pos, l.n);
    }
  }

  lemma OffsetBound(n: nat, k: nat)
    requires k < 9
    ensures Offset(n, k) + Width(k) * n <= 4 + FIXED_PER_EVENT * n
    ensures k < 8 ==> Offset(n, k + 1) == Offset(n, k) + Width(k) * n
  {
  }

  // ---------- The decoder inverts the encoder ----------

  /** Where column `k` starts in an encoded block; for 14, where the block ends. */
  function Before(rows: seq<Row>, k: nat): nat
    requires k <= 14
  {
    if k == 0 then 4 else Before(rows, k - 1) + |Column(rows, k - 1)|
  }

  function ColumnStarts(rows: seq<Row>): Cursors {
    seq(14, k requires 0 <= k < 14 => Before(rows, k))
  }

  lemma {:induction false} ColumnsStand(b: seq<byte>, rows: seq<Row>, k: nat)
    requires k <= 14
    ensures At(b, Before(rows, k), Columns(rows, k))
            <==> Before(rows, k) <= |b| && forall j :: k <= j < 14 ==> At(b, Before(rows, j), Column(rows, j))
    ensures Before(rows, 14) == Before(rows, k) + |Columns(rows, k)|
    decreases 14 - k
  {
    hide At, Column;
    if k == 14 {
      AtSlice(b, Before(rows, k), []);
    } else {
      ColumnsStand(b, rows, k + 1);
      assert Before(rows, k + 1) == Before(rows, k) + |Column(rows, k)|;
      AtAppend(b, Before(rows, k), Column(rows, k), Columns(rows, k + 1));
      AtSlice(b, Before(rows, k), Column(rows, k));
      if At(b, Before(rows, k), Column(rows, k)) && forall j :: k + 1 <= j < 14 ==> At(b, Before(rows, j), Column(rows, j)) {
        forall j | k <= j < 14 ensures At(b, Before(rows, j), Column(rows, j)) {
        }
      }
      if forall j :: k <= j < 14 ==> At(b, Before(rows, j), Column(rows, j)) {
        assert At(b, Before(rows, k), Column(rows, k));
      }
    }
  }

  lemma {:induction false} FixedStarts(rows: seq<Row>, k: nat)
    requires k <= 9
    ensures Before(rows, k) == if k == 9 then 4 + FIXED_PER_EVENT * |rows| else Offset(|rows|, k)
  {
    if k > 0 {
      FixedStarts(rows, k - 1);
      FixedColumnLength(rows, k - 1);
      OffsetBound(|rows|, k - 1);
    }
  }

  /** Where the fixed columns hold the rows, the layout read from them is the one the rows were laid out in. */
  lemma StartsAgree(b: seq<byte>, rows: seq<Row>)
    requires 4 + FIXED_PER_EVENT * |rows| <= |b| && forall i :: 0 <= i < |rows| ==> Fits(rows[i])
    requires forall k :: 0 <= k < 9 ==> At(b, Offset(|rows|, k), Column(rows, k))
    ensures Starts(LayoutOf(b, |rows|)) == ColumnStarts(rows)
    ensures LayoutOf(b, |rows|).payload + Total(b, |rows|, 8) == Before(rows, 14)
  {
    hide Sum, Column, At, Fits, Offset;
    var n := |rows|;
    forall k | 4 <= k < 9 ensures Total(b, n, k) == |Column(rows, k + 5)| {
      OffsetBound(n, k);
      SumOfLengths(b, Offset(n, k), rows, k);
    }
    forall k | 0 <= k <= 9 ensures Before(rows, k) == if k == 9 then 4 + FIXED_PER_EVENT * n else Offset(n, k) {
      FixedStarts(rows, k);
    }
    BlobStarts(rows);
    hide Total, Before, Width;
    SameStarts(LayoutOf(b, n), ColumnStarts(rows));
  }

  lemma SameStarts(l: Layout, pos: Cursors)
    requires forall k :: 0 <= k < 9 ==> pos[k] == Offset(l.n, k)
    requires pos[9] == l.collection && pos[10] == l.did && pos[11] == l.rkey && pos[12] == l.rev && pos[13] == l.payload
    ensures Starts(l) == pos
  {
    hide Offset;
  }

  lemma BlobStarts(rows: seq<Row>)
    ensures Before(rows, 10) == Before(rows, 9) + |Column(rows, 9)|
    ensures Before(rows, 11) == Before(rows, 10) + |Column(rows, 10)|
    ensures Before(rows, 12) == Before(rows, 11) + |Column(rows, 11)|
    ensures Before(rows, 13) == Before(rows, 12) + |Column(rows, 12)|
    ensures Before(rows, 14) == Before(rows, 13) + |Column(rows, 13)|
  {
  }

  lemma {:induction false} KindsOfRows(b: seq<byte>, pos: Cursors, count: nat)
    requires RowsIn(b, pos, count) && pos[3] <= |b|
    ensures pos[3] + count <= |b| && KindsOk(b, pos[3], count)
    decreases count
  {
    hide KindOf;
    if count > 0 {
      KindsOfRows(b, Advance(b, pos), count - 1);
    }
  }

  lemma EncodedIsDecoded(rows: seq<Row>)
    requires Encodable(rows)
    ensures DecodeBlock(EncodeBlock(rows)) == Ok(rows)
  {
    hide Sum, Column, At, Fits, Offset, Le, FromLe, Columns, RowsIn, RowsAt, KindsOk, RowsStand, Starts, LayoutOf;
    var n, b := |rows|, EncodeBlock(rows);
    CountStands(n, Columns(rows, 0));
    if n == 0 {
      NoColumns(rows, 0);
      NoRows(b, Starts(Layout(0, 4, 4, 4, 4, 4)));
      assert rows == [];
    } else {
      EncodedStands(rows);
      var pos := ColumnStarts(rows);
      RowsWritten(b, pos, rows);
      FixedStarts(rows, 3);
      KindsOfRows(b, pos, n);
    }
  }

  lemma CountStands(n: nat, columns: seq<byte>)
    requires n <= MAX_BLOCK_EVENTS
    ensures FromLe((Le(n, 4) + columns)[..4]) == n
  {
    hide Le, FromLe, Pow256;
    Pow256Eight();
    FromLeOfLe(n, 4);
    assert (Le(n, 4) + columns)[..4] == Le(n, 4);
  }

  lemma {:induction false} NoColumns(rows: seq<Row>, k: nat)
    requires rows == [] && k <= 14
    ensures Columns(rows, k) == []
    decreases 14 - k
  {
    if k < 14 {
      NoColumns(rows, k + 1);
    }
  }

  lemma NoRows(b: seq<byte>, pos: Cursors)
    ensures RowsIn(b, pos, 0) && RowsAt(b, pos, 0) == []
  {
  }

  lemma EncodedStands(rows: seq<Row>)
    requires Encodable(rows)
    ensures var b := EncodeBlock(rows);
            && 4 + FIXED_PER_EVENT * |rows| <= |b|
            && RowsStand(b, ColumnStarts(rows), rows) && ColumnStarts(rows)[3] <= |b|
            && Starts(LayoutOf(b, |rows|)) == ColumnStarts(rows)
            && LayoutOf(b, |rows|).payload + Total(b, |rows|, 8) == |b|
  {
    hide Sum, Column, At, Fits, Offset, Le, FromLe, Columns, Starts, LayoutOf;
    var b := EncodeBlock(rows);
    assert b[4..] == Columns(rows, 0);
    AtSlice(b, 4, Columns(rows, 0));
    ColumnsStand(b, rows, 0);
    ColumnsStand(b, rows, 9);
    forall k | 0 <= k <= 9 ensures Before(rows, k) == if k == 9 then 4 + FIXED_PER_EVENT * |rows| else Offset(|rows|, k) {
      FixedStarts(rows, k);
    }
    var pos := ColumnStarts(rows);
    forall k | 0 <= k < 14 ensures At(b, pos[k], Column(rows, k)) {
      assert pos[k] == Before(rows, k);
    }
    StartsFit(b, rows);
    StartsAgree(b, rows);
  }

  lemma StartsFit(b: seq<byte>, rows: seq<Row>)
    requires At(b, Before(rows, 3), Column(rows, 3))
    ensures Before(rows, 3) <= |b|
  {
  }

  lemma DecodedIsEncoded(b: seq<byte>)
    ensures DecodeBlock(b).Ok? ==> Encodable(DecodeBlock(b).value) && b == EncodeBlock(DecodeBlock(b).value)
  {
    hide Sum, Column, At, Fits, Offset, Le, FromLe, Columns, RowsIn, RowsAt, KindsOk, RowsStand, Starts;
    if DecodeBlock(b).Err? {
      return;
    }
    var layout, rows := ParseBlock(b).value, DecodeBlock(b).value;
    LeOfFromLe(b[..4]);
    assert b == b[..4] + b[4..];
    if layout.n == 0 {
      NoRows(b, Starts(layout));
      NoColumns(rows, 0);
    } else {
      DecodedStands(b);
      AtSlice(b, 4, Columns(rows, 0));
    }
  }

  lemma DecodedStands(b: seq<byte>)
    ensures ParseBlock(b).Ok? && ParseBlock(b).value.n > 0 && DecodeBlock(b).Ok? ==>
              var rows := DecodeBlock(b).value;
              |rows| == ParseBlock(b).value.n && At(b, 4, Columns(rows, 0)) && 4 + |Columns(rows, 0)| == |b|
              && forall i :: 0 <= i < |rows| ==> Fits(rows[i])
  {
    hide Sum, Column, At, Fits, Offset, Le, FromLe, Columns, RowsAt, KindsOk, RowsIn;
    if DecodeBlock(b).Err? || ParseBlock(b).value.n == 0 {
      return;
    }
    var layout, rows := ParseBlock(b).value, DecodeBlock(b).value;
    var pos := Starts(layout);
    forall k | 0 <= k < 9 ensures pos[k] == Offset(layout.n, k) && pos[k] <= |b| {
      OffsetBound(layout.n, k);
    }
    RowsRead(b, pos, layout.n);
    StartsAgree(b, rows);
    forall j | 0 <= j < 14 ensures At(b, Before(rows, j), Column(rows, j)) {
      assert pos[j] == Before(rows, j);
    }
    ColumnsStand(b, rows, 0);
  }

  /** The kinds stand in one column of bytes, after the count and three columns of eight bytes a row. */
  lemma KindByte(rows: seq<Row>, i: nat)
    requires Encodable(rows) && i < |rows|
    ensures var b := EncodeBlock(rows);
            var at := 4 + 24 * |rows| + i;
            && at < |b|
            && (rows[i].kind.Create? <==> b[at] == 1) && (rows[i].kind.Update? <==> b[at] == 2)
            && (rows[i].kind.Delete? <==> b[at] == 3) && (rows[i].kind.Identity? <==> b[at] == 4)
            && (rows[i].kind.Account? <==> b[at] == 5) && (rows[i].kind.Sync? <==> b[at] == 6)
            && (rows[i].kind.CreateResync? <==> b[at] == 7)
  {
    hide Sum, Fits, Le, FromLe, Columns, Starts, LayoutOf, EncodeBlock, Cell;
    EncodedStands(rows);
    FixedStarts(rows, 3);
    FixedColumnLength(rows, 3);
    KindColumn(rows, i);
    var b, pos := EncodeBlock(rows), Before(rows, 3);
    assert At(b, ColumnStarts(rows)[3], Column(rows, 3));
    assert b[pos..pos + |rows|][i] == b[pos + i];
  }

  lemma {:induction false} KindColumn(rows: seq<Row>, i: nat)
    requires i < |rows|
    ensures i < |Column(rows, 3)| && Column(rows, 3)[i] == rows[i].kind.Code()
    decreases |rows|
  {
    if i > 0 {
      KindColumn(rows[1..], i - 1);
    }
  }

  /** What a row puts into the columns, in their order: the words, the kind, five lengths, and what they measure. */
  lemma CellsInOrder(r: Row, k: nat)
    requires k < 14
    ensures Cell(r, k)
            == [Le(r.cursor, 8), Le(r.witnessed % U64_LIMIT, 8), Le(r.indexed % U64_LIMIT, 8), [r.kind.Code()],
                Le(|r.collection|, 1), Le(|r.did|, 2), Le(|r.rkey|, 1), Le(|r.rev|, 1), Le(|r.payload|, 4),
                r.collection, r.did, r.rkey, r.rev, r.payload][k]
  {
    hide Le;
  }

  /** The lengths of a row fit the columns that hold them: one, two, one, one and four bytes. */
  predicate WithinLimits(r: Row) {
    |r.collection| < 256 && |r.did| < 65_536 && |r.rkey| < 256 && |r.rev| < 256 && |r.payload| < 4_294_967_296
  }

  lemma FitsIs(r: Row)
    ensures Fits(r) <==> WithinLimits(r)
  {
    Pow256Eight();
    hide Pow256;
    forall k | 4 <= k < 9 && WithinLimits(r) ensures |Blob(r, k - 4)| < Pow256(Width(k)) {
    }
    if Fits(r) {
      assert |Blob(r, 4 - 4)| < Pow256(Width(4)) && |Blob(r, 5 - 4)| < Pow256(Width(5)) && |Blob(r, 6 - 4)| < Pow256(Width(6));
      assert |Blob(r, 7 - 4)| < Pow256(Width(7)) && |Blob(r, 8 - 4)| < Pow256(Width(8));
    }
  }

  /** The decoder accepts exactly the encodings of row lists within the limits, and gives the rows back. */
  lemma DecodesExactly(b: seq<byte>, rows: seq<Row>)
    ensures DecodeBlock(b) == Ok(rows)
            <==> |rows| <= 262_144 && (forall i :: 0 <= i < |rows| ==> WithinLimits(rows[i])) && b == EncodeBlock(rows)
  {
    forall i | 0 <= i < |rows| ensures Fits(rows[i]) <==> WithinLimits(rows[i]) {
      FitsIs(rows[i]);
    }
    hide Fits, WithinLimits, DecodeBlock, EncodeBlock;
    if DecodeBlock(b) == Ok(rows) {
      DecodedIsEncoded(b);
    }
    if Encodable(rows) {
      EncodedIsDecoded(rows);
    }
  }

  // ---------- The decoder ----------

  /** `BlockLayout::parse`. The sums are 64-bit and never overflow, so the checked additions cannot fail. */
  method Parse(b: seq<byte>) returns (r: Result<Layout, BlockError>)
    requires |b| < U64_LIMIT
    ensures r == ParseBlock(b)
  {
    hide FromLe, Sum, ParseBlock, KindsOk;
    ParseStart(b);
    if |b| < 4 {
      return Err(TruncatedColumn);
    }
    assert b[..4] == b[0..4];
    var n := FromLe(b[0..4]);
    if n == 0 {
      return if |b| != 4 then Err(TrailingAfterEmpty) else Ok(Layout(0, 4, 4, 4, 4, 4));
    }
    if n > MAX_BLOCK_EVENTS {
      return Err(TooManyEvents(n));
    }
    var fixed: u64 := n * FIXED_PER_EVENT + 4;
    if |b| < fixed {
      return Err(TruncatedFixed);
    }
    var sums :- SumLengths(b, n);
    var Sums(collections, dids, rkeys, revs, payloads) := sums;
    ParseEnd(b, collections, dids, rkeys, revs, payloads);
    var total: u64 := collections + dids + rkeys + revs + payloads;
    var expected: u64 := fixed + total;
    if expected != |b| {
      return Err(if expected > |b| then TruncatedBlobs else TrailingBytes);
    }
    var did := fixed + collections;
    var rkey := did + dids;
    var rev := rkey + rkeys;
    return Ok(Layout(n, fixed, did, rkey, rev, rev + revs));
  }

  datatype Sums = Sums(collections: u64, dids: u64, rkeys: u64, revs: u64, payloads: u64)

  const SUM_LIMIT: nat := 0x4_0000_0000_0000

  /** The loop of `parse`: the kinds checked and the five length columns added up. */
  method SumLengths(b: seq<byte>, n: nat) returns (r: Result<Sums, BlockError>)
    requires n <= MAX_BLOCK_EVENTS && 4 + FIXED_PER_EVENT * n <= |b|
    ensures r.Err? ==> r == Err(InvalidKind) && !KindsOk(b, 4 + 24 * n, n)
    ensures r.Ok? ==>
              && KindsOk(b, 4 + 24 * n, n)
              && r.value.collections == Sum(b, 4 + 25 * n, 1, n) <= SUM_LIMIT
              && r.value.dids == Sum(b, 4 + 26 * n, 2, n) <= SUM_LIMIT
              && r.value.rkeys == Sum(b, 4 + 28 * n, 1, n) <= SUM_LIMIT
              && r.value.revs == Sum(b, 4 + 29 * n, 1, n) <= SUM_LIMIT
              && r.value.payloads == Sum(b, 4 + 30 * n, 4, n) <= SUM_LIMIT
  {
    hide FromLe, KindOf, Sum, Counted, KindsOk;
    var kinds, collectionLens, didLens := 4 + 24 * n, 4 + 25 * n, 4 + 26 * n;
    var rkeyLens, revLens, payloadLens := 4 + 28 * n, 4 + 29 * n, 4 + 30 * n;
    var collections: u64, dids: u64, rkeys: u64, revs: u64, payloads: u64 := 0, 0, 0, 0, 0;
    var i := 0;
    KindsStart(b, kinds);
    CountedStart(b, collectionLens, 1, n);
    CountedStart(b, didLens, 2, n);
    CountedStart(b, rkeyLens, 1, n);
    CountedStart(b, revLens, 1, n);
    CountedStart(b, payloadLens, 4, n);
    while i < n
      invariant i <= n && KindsOk(b, kinds, i)
      invariant Counted(b, collectionLens, 1, n, i, collections)
      invariant Counted(b, didLens, 2, n, i, dids)
      invariant Counted(b, rkeyLens, 1, n, i, rkeys)
      invariant Counted(b, revLens, 1, n, i, revs)
      invariant Counted(b, payloadLens, 4, n, i, payloads)
    {
      KindsStep(b, kinds, n, i);
      if KindOf(b[kinds + i]).None? {
        return Err(InvalidKind);
      }
      collections := AddNext(b, collectionLens, 1, n, i, collections);
      dids := AddNext(b, didLens, 2, n, i, dids);
      rkeys := AddNext(b, rkeyLens, 1, n, i, rkeys);
      revs := AddNext(b, revLens, 1, n, i, revs);
      payloads := AddNext(b, payloadLens, 4, n, i, payloads);
      i := i + 1;
    }
    CountedEnd(b, collectionLens, 1, n, collections);
    CountedEnd(b, didLens, 2, n, dids);
    CountedEnd(b, rkeyLens, 1, n, rkeys);
    CountedEnd(b, revLens, 1, n, revs);
    CountedEnd(b, payloadLens, 4, n, payloads);
    return Ok(Sums(collections, dids, rkeys, revs, payloads));
  }

  /** One addition: the `i`th little-endian number of a column, of one, two or four bytes. */
  method AddNext(b: seq<byte>, off: nat, w: nat, ghost count: nat, i: nat, sum: u64) returns (next: u64)
    requires (w == 1 || w == 2 || w == 4) && i < count <= MAX_BLOCK_EVENTS && Counted(b, off, w, count, i, sum)
    ensures Counted(b, off, w, count, i + 1, next)
  {
    hide FromLe, Counted;
    CountedStep(b, off, w, count, i, sum);
    return sum + FromLe(b[off + w * i..off + w * i + w]);
  }

  lemma ParseStart(b: seq<byte>)
    ensures |b| < 4 ==> ParseBlock(b) == Err(TruncatedColumn)
    ensures |b| >= 4 ==>
              var n := FromLe(b[..4]);
              && (n == 0 ==> ParseBlock(b) == if |b| != 4 then Err(TrailingAfterEmpty) else Ok(Layout(0, 4, 4, 4, 4, 4)))
              && (n > MAX_BLOCK_EVENTS ==> ParseBlock(b) == Err(TooManyEvents(n)))
              && (0 < n <= MAX_BLOCK_EVENTS && |b| < 4 + FIXED_PER_EVENT * n ==> ParseBlock(b) == Err(TruncatedFixed))
              && (0 < n <= MAX_BLOCK_EVENTS && |b| >= 4 + FIXED_PER_EVENT * n && !KindsOk(b, 4 + 24 * n, n) ==>
                    ParseBlock(b) == Err(InvalidKind))
  {
    hide FromLe, KindsOk, LayoutOf;
  }

  lemma KindsStart(b: seq<byte>, off: nat)
    requires off <= |b|
    ensures KindsOk(b, off, 0)
  {
  }

  lemma KindsStep(b: seq<byte>, off: nat, count: nat, i: nat)
    requires i < count && off + count <= |b| && KindsOk(b, off, i)
    ensures if KindOf(b[off + i]).Some? then KindsOk(b, off, i + 1) else !KindsOk(b, off, count)
  {
    hide KindOf;
  }

  lemma ParseEnd(b: seq<byte>, collections: nat, dids: nat, rkeys: nat, revs: nat, payloads: nat)
    requires |b| >= 4 && 0 < FromLe(b[..4]) <= MAX_BLOCK_EVENTS && |b| >= 4 + FIXED_PER_EVENT * FromLe(b[..4])
    requires var n := FromLe(b[..4]);
             && KindsOk(b, 4 + 24 * n, n)
             && collections == Sum(b, 4 + 25 * n, 1, n)
             && dids == Sum(b, 4 + 26 * n, 2, n)
             && rkeys == Sum(b, 4 + 28 * n, 1, n)
             && revs == Sum(b, 4 + 29 * n, 1, n)
             && payloads == Sum(b, 4 + 30 * n, 4, n)
    ensures var n := FromLe(b[..4]);
            var fixed := 4 + FIXED_PER_EVENT * n;
            var end := fixed + collections + dids + rkeys + revs + payloads;
            ParseBlock(b)
            == if end > |b| then Err(TruncatedBlobs)
               else if end < |b| then Err(TrailingBytes)
               else Ok(Layout(n, fixed, fixed + collections, fixed + collections + dids,
                              fixed + collections + dids + rkeys, fixed + collections + dids + rkeys + revs))
  {
    hide FromLe, KindsOk, Sum;
  }

  /** `sum` is the sum of the first `i` numbers of a column. */
  ghost predicate Counted(b: seq<byte>, off: nat, w: nat, count: nat, i: nat, sum: nat) {
    && i <= count && off + w * count <= |b|
    && sum <= Pow256(w) * i
    && off + w * i + w * (count - i) <= |b|
    && sum + Sum(b, off + w * i, w, count - i) == Sum(b, off, w, count)
  }

  lemma CountedStart(b: seq<byte>, off: nat, w: nat, count: nat)
    requires off + w * count <= |b|
    ensures Counted(b, off, w, count, 0, 0)
  {
    hide Sum, Pow256;
    assert w * 0 == 0 && Pow256(w) * 0 == 0;
  }

  lemma CountedStep(b: seq<byte>, off: nat, w: nat, count: nat, i: nat, sum: nat)
    requires (w == 1 || w == 2 || w == 4) && i < count <= MAX_BLOCK_EVENTS && Counted(b, off, w, count, i, sum)
    ensures off + w * i + w <= |b|
    ensures var next := sum + FromLe(b[off + w * i..off + w * i + w]);
            Counted(b, off, w, count, i + 1, next) && next <= 0x4_0000_0000_0000
  {
    hide FromLe, Pow256;
    Pow256Eight();
    assert w * (i + 1) == w * i + w && w * (count - i) == w + w * (count - (i + 1));
    assert Pow256(w) * (i + 1) == Pow256(w) * i + Pow256(w);
    assert Pow256(w) * (i + 1) <= 0x1_0000_0000 * MAX_BLOCK_EVENTS;
  }

  lemma CountedEnd(b: seq<byte>, off: nat, w: nat, count: nat, sum: nat)
    requires (w == 1 || w == 2 || w == 4) && count <= MAX_BLOCK_EVENTS && Counted(b, off, w, count, count, sum)
    ensures off + w * count <= |b| && sum == Sum(b, off, w, count) && sum <= 0x4_0000_0000_0000
  {
    hide FromLe, Pow256;
    Pow256Eight();
  }

  /** Where `visit` reads row `i`: the nine fixed columns by offset, the five others where the rows before it ended. */
  function CursorsAt(n: nat, i: nat, c: nat, d: nat, k: nat, v: nat, p: nat): Cursors {
    seq(14, j requires 0 <= j < 14 => CursorAt(n, i, c, d, k, v, p, j))
  }

  function CursorAt(n: nat, i: nat, c: nat, d: nat, k: nat, v: nat, p: nat, j: nat): nat {
    match j
    case 0 => 4 + 8 * i
    case 1 => 4 + 8 * n + 8 * i
    case 2 => 4 + 16 * n + 8 * i
    case 3 => 4 + 24 * n + i
    case 4 => 4 + 25 * n + i
    case 5 => 4 + 26 * n + 2 * i
    case 6 => 4 + 28 * n + i
    case 7 => 4 + 29 * n + i
    case 8 => 4 + 30 * n + 4 * i
    case 9 => c
    case 10 => d
    case 11 => k
    case 12 => v
    case _ => p
  }

  /** `BlockLayout::visit`, which `decode_block` gives each row as it comes. */
  method Visit(b: seq<byte>, l: Layout) returns (rows: seq<Row>)
    requires ParseBlock(b) == Ok(l)
    ensures DecodeBlock(b) == Ok(rows)
  {
    hide FromLe, KindOf, RowsIn, RowsAt, RowIn, RowAt, Advance, CursorsAt, ParseBlock, Field;
    LayoutHoldsRows(b);
    rows := [];
    var n := l.n;
    var c: nat, d: nat, k: nat, v: nat, p: nat := l.collection, l.did, l.rkey, l.rev, l.payload;
    var i := 0;
    ghost var all := RowsAt(b, Starts(l), n);
    StartCursors(l);
    assert [] + all == all;
    while i < n
      invariant i <= n
      invariant RowsIn(b, CursorsAt(n, i, c, d, k, v, p), n - i)
      invariant all == rows + RowsAt(b, CursorsAt(n, i, c, d, k, v, p), n - i)
    {
      var at := CursorsAt(n, i, c, d, k, v, p);
      RowsOne(b, at, n - i);
      CursorsNext(b, n, i, c, d, k, v, p);
      rows := rows + [RowAt(b, at)];
      c, d, k, v, p :=
        c + Field(b, at, 4), d + Field(b, at, 5), k + Field(b, at, 6), v + Field(b, at, 7), p + Field(b, at, 8);
      i := i + 1;
    }
    NoRows(b, CursorsAt(n, i, c, d, k, v, p));
    assert rows + [] == rows;
  }

  lemma StartCursors(l: Layout)
    ensures CursorsAt(l.n, 0, l.collection, l.did, l.rkey, l.rev, l.payload) == Starts(l)
  {
  }

  lemma CursorsNext(b: seq<byte>, n: nat, i: nat, c: nat, d: nat, k: nat, v: nat, p: nat)
    requires FixedIn(b, CursorsAt(n, i, c, d, k, v, p))
    ensures var at := CursorsAt(n, i, c, d, k, v, p);
            Advance(b, at)
            == CursorsAt(n, i + 1, c + Field(b, at, 4), d + Field(b, at, 5), k + Field(b, at, 6),
                         v + Field(b, at, 7), p + Field(b, at, 8))
  {
    var at := CursorsAt(n, i, c, d, k, v, p);
    hide Field, FixedIn, Width, CursorAt;
    var cl, dl, kl, vl, pl := Field(b, at, 4), Field(b, at, 5), Field(b, at, 6), Field(b, at, 7), Field(b, at, 8);
    var next := CursorsAt(n, i + 1, c + cl, d + dl, k + kl, v + vl, p + pl);
    forall j | 0 <= j < 14 ensures Advance(b, at)[j] == next[j] {
      CursorStep(n, i, c, d, k, v, p, cl, dl, kl, vl, pl, j);
    }
  }

  lemma CursorStep(n: nat, i: nat, c: nat, d: nat, k: nat, v: nat, p: nat, cl: nat, dl: nat, kl: nat, vl: nat, pl: nat, j: nat)
    requires j < 14
    ensures CursorAt(n, i + 1, c + cl, d + dl, k + kl, v + vl, p + pl, j)
            == CursorAt(n, i, c, d, k, v, p, j)
               + (if j < 9 then Width(j) else if j == 9 then cl else if j == 10 then dl else if j == 11 then kl else if j == 12 then vl else pl)
  {
  }

  lemma RowsOne(b: seq<byte>, pos: Cursors, count: nat)
    requires count > 0 && RowsIn(b, pos, count)
    ensures RowIn(b, pos) && FixedIn(b, pos) && RowsIn(b, Advance(b, pos), count - 1)
    ensures RowsAt(b, pos, count) == [RowAt(b, pos)] + RowsAt(b, Advance(b, pos), count - 1)
  {
  }

  /** `decode_block`. */
  method Decode(b: seq<byte>) returns (r: Result<seq<Row>, BlockError>)
    requires |b| < U64_LIMIT
    ensures r == DecodeBlock(b)
  {
    hide ParseBlock;
    var layout :- Parse(b);
    var rows := Visit(b, layout);
    return Ok(rows);
  }
}
