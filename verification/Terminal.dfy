/** One row of a terminal: its cells, and the column of the cursor. One byte takes one cell, and the row
    is as wide as it needs to be. Colour changes are not modelled. */
module Terminal {

  import opened Numbers

  /** A byte that takes a cell when printed: not a control code. */
  type Cell = x: int | 0x20 <= x < 256 && x != 127 witness 0x20

  type Line = seq<Cell>

  const BLANK: Cell := 0x20
  const BACK: Byte := 8
  const NEW_LINE: Byte := 10
  const RETURN: Byte := 13

  /** The cells the prompt fills: a coloured `>` and a space. */
  const PROMPT: Line := [62, 32]

  datatype Row = Row(cells: Line, col: nat) {
    ghost predicate Valid() { col <= |cells| }
  }

  function Blanks(n: nat): (line: Line)
    ensures |line| == n
    ensures forall i :: 0 <= i < n ==> line[i] == BLANK
  {
    seq(n, i => BLANK)
  }

  predicate AllBlank(line: Line) {
    forall i :: 0 <= i < |line| ==> line[i] == BLANK
  }

  /** What is left of `cells` past the first `n`. */
  function Behind(cells: Line, n: nat): Line {
    if n <= |cells| then cells[n..] else []
  }

  /** The row after printing `line` at the cursor. */
  function Write(r: Row, line: Line): (w: Row)
    requires r.Valid()
    ensures w.Valid() && w.col == r.col + |line|
  {
    Row(r.cells[..r.col] + line + Behind(r.cells, r.col + |line|), r.col + |line|)
  }

  /** What the terminal does with one byte. */
  function Put(r: Row, b: Byte): (w: Row)
    requires r.Valid()
    ensures w.Valid()
  {
    if b == BACK then r.(col := if r.col == 0 then 0 else r.col - 1)
    else if b == RETURN then r.(col := 0)
    else if b == NEW_LINE then Row([], 0)
    else if b < 0x20 || b == 127 then r
    else Write(r, [b])
  }

  function PutAll(r: Row, bytes: seq<Byte>): (w: Row)
    requires r.Valid()
    ensures w.Valid()
  {
    if bytes == [] then r else Put(PutAll(r, bytes[..|bytes| - 1]), bytes[|bytes| - 1])
  }

  /** The column in which printing `bytes` on from column 0 ends. */
  function ColumnAfter(bytes: seq<Byte>): nat {
    if bytes == [] then 0
    else
      var col, b := ColumnAfter(bytes[..|bytes| - 1]), bytes[|bytes| - 1];
      if b == BACK then (if col == 0 then 0 else col - 1)
      else if b == RETURN || b == NEW_LINE then 0
      else if b < 0x20 || b == 127 then col
      else col + 1
  }

  /** The cells of the row are blanked; the cursor stays. */
  function EraseLine(r: Row): (w: Row)
    requires r.Valid()
    ensures w.Valid() && w.col == r.col && AllBlank(w.cells)
  {
    Row(Blanks(|r.cells|), r.col)
  }

  /** The `n` cells left of the cursor are blanked, and the cursor moves to the first of them. */
  function EraseLeft(r: Row, n: nat): (w: Row)
    requires r.Valid() && n <= r.col
    ensures w.Valid()
  {
    Row(r.cells[..r.col - n] + Blanks(n) + r.cells[r.col..], r.col - n)
  }

  function Back(r: Row, n: nat): (w: Row)
    requires r.Valid() && n <= r.col
    ensures w.Valid() && w.col == r.col - n
  {
    r.(col := r.col - n)
  }

  /** Two rows look the same: same cursor, and the same cells but for blanks at the right end. */
  ghost predicate LookAlike(a: Row, b: Row) {
    && a.col == b.col
    && forall i :: 0 <= i < |a.cells| || 0 <= i < |b.cells| ==> CellAt(a, i) == CellAt(b, i)
  }

  function CellAt(r: Row, i: nat): Cell { if i < |r.cells| then r.cells[i] else BLANK }

  lemma {:induction false} PutAllColumn(r: Row, bytes: seq<Byte>)
    requires r.Valid() && r.col == 0
    ensures PutAll(r, bytes).col == ColumnAfter(bytes)
    decreases |bytes|
  {
    if bytes != [] { PutAllColumn(r, bytes[..|bytes| - 1]); }
  }

  /** A line of printed characters alone ends in the first column only if it is empty. */
  lemma {:induction false} PlainColumn(line: Line)
    ensures ColumnAfter(line) == |line|
    decreases |line|
  {
    if line != [] { PlainColumn(line[..|line| - 1]); }
  }

  lemma PutAllOneMore(r: Row, bytes: seq<Byte>, i: nat)
    requires r.Valid() && i < |bytes|
    ensures PutAll(r, bytes[..i + 1]) == Put(PutAll(r, bytes[..i]), bytes[i])
  {
    assert bytes[..i + 1][..i] == bytes[..i];
  }

  lemma NewLineLeavesNothing(r: Row, bytes: seq<Byte>)
    requires r.Valid() && bytes != [] && bytes[|bytes| - 1] == NEW_LINE
    ensures PutAll(r, bytes) == Row([], 0) && ColumnAfter(bytes) == 0
  {}

  lemma BehindBehind(cells: Line, m: nat, n: nat)
    ensures Behind(Behind(cells, m), n) == Behind(cells, m + n)
  {}

  lemma BehindPrefix(a: Line, cells: Line, n: nat)
    ensures Behind(a + cells, |a| + n) == Behind(cells, n)
  {
    if n <= |cells| { assert (a + cells)[|a| + n..] == cells[n..]; }
  }

  lemma WriteAt(before: Line, rest: Line, line: Line)
    ensures Write(Row(before + rest, |before|), line) == Row(before + line + Behind(rest, |line|), |before| + |line|)
  {
    BehindPrefix(before, rest, |line|);
    assert (before + rest)[..|before|] == before;
  }

  lemma NoEffect(r: Row)
    requires r.Valid()
    ensures Write(r, []) == r && Back(r, 0) == r
  {}

  lemma WriteTwice(r: Row, a: Line, b: Line)
    requires r.Valid()
    ensures Write(Write(r, a), b) == Write(r, a + b)
  {
    var before, rest := r.cells[..r.col], r.cells[r.col..];
    assert r == Row(before + rest, |before|) by { assert r.cells == before + rest; }
    WriteAt(before, rest, a);
    WriteAt(before, rest, a + b);
    WriteAt(before + a, Behind(rest, |a|), b);
    BehindBehind(rest, |a|, |b|);
    assert before + a + b == before + (a + b);
  }

  lemma PrintOneMore(r: Row, line: Line, i: nat)
    requires r.Valid() && i < |line|
    ensures Put(Write(r, line[..i]), line[i]) == Write(r, line[..i + 1])
  {
    WriteTwice(r, line[..i], [line[i]]);
    assert line[..i] + [line[i]] == line[..i + 1];
  }

  /** Printing `line` and going back leaves what lies right of it standing. */
  lemma PrintThenBack(r: Row, line: Line, back: nat)
    requires r.Valid() && back <= |line|
    ensures var w := Back(Write(r, line), back);
      w.Valid() && w.col == r.col + |line| - back
      && (r.col == 0 ==> w == Row(line + Behind(r.cells, |line|), |line| - back))
  {
    assert r.cells[..0] + line == line;
  }

  /** Stepping back, printing a blank and stepping back again blanks the cell left of the cursor. */
  lemma EraseAt(before: Line, c: Cell, rest: Line)
    ensures Put(Put(Put(Row(before + ([c] + rest), |before| + 1), BACK), BLANK), BACK)
         == Row(before + ([BLANK] + rest), |before|)
  {
    WriteAt(before, [c] + rest, [BLANK]);
    assert Behind([c] + rest, 1) == rest;
    assert before + [BLANK] + rest == before + ([BLANK] + rest);
  }

  lemma EraseNothing(r: Row)
    requires r.Valid()
    ensures EraseLeft(r, 0) == r
  {
    assert r.cells[..r.col] + Blanks(0) + r.cells[r.col..] == r.cells;
  }

  lemma EraseOneMore(r: Row, n: nat)
    requires r.Valid() && n < r.col
    ensures Put(Put(Put(EraseLeft(r, n), BACK), BLANK), BACK) == EraseLeft(r, n + 1)
  {
    hide Put, Write, Blanks;
    var before, c, after := r.cells[..r.col - n - 1], r.cells[r.col - n - 1], r.cells[r.col..];
    var rest := Blanks(n) + after;
    assert EraseLeft(r, n) == Row(before + ([c] + rest), |before| + 1) by {
      assert r.cells[..r.col - n] == before + [c];
    }
    assert EraseLeft(r, n + 1) == Row(before + ([BLANK] + rest), |before|) by {
      assert Blanks(n + 1) == [BLANK] + Blanks(n);
    }
    EraseAt(before, c, rest);
  }
}
