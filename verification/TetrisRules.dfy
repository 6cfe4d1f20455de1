/** The board and pieces of apps/tetris.c: what fits, what locking fills, what clearing removes. */
module TetrisRules {
  import opened Words

  const COLUMNS := 10
  const ROWS := 20

  /** A row is 10 cells, a board 20 rows from the top; 0 is an empty cell. */
  type Row = seq<nat>
  type Rows = seq<Row>

  predicate Shaped(rows: Rows) {
    |rows| == ROWS && forall i :: 0 <= i < ROWS ==> |rows[i]| == COLUMNS
  }

  function EmptyRow(): (r: Row)
    ensures |r| == COLUMNS && forall j :: 0 <= j < COLUMNS ==> r[j] == 0
  {
    seq(COLUMNS, _ => 0)
  }

  function EmptyRows(n: nat): (rows: Rows)
    ensures |rows| == n && forall i :: 0 <= i < n ==> rows[i] == EmptyRow()
  {
    seq(n, _ => EmptyRow())
  }

  // ----- Pieces -----

  /** Bit 4 * row + column of a mask says whether the piece covers that cell of its 4 x 4 grid. */
  function Mask(kind: nat, rotation: nat): nat
    requires kind < 7 && rotation < 4
  {
    if kind == 0 then [0x00F0, 0x4444, 0x00F0, 0x4444][rotation]
    else if kind == 1 then [0x0660, 0x0660, 0x0660, 0x0660][rotation]
    else if kind == 2 then [0x0072, 0x0262, 0x0270, 0x0232][rotation]
    else if kind == 3 then [0x003C, 0x0462, 0x003C, 0x0462][rotation]
    else if kind == 4 then [0x0063, 0x0264, 0x0063, 0x0264][rotation]
    else if kind == 5 then [0x0071, 0x0226, 0x0470, 0x0322][rotation]
    else [0x0074, 0x0622, 0x0170, 0x0223][rotation]
  }

  datatype Piece = Piece(kind: nat, rotation: nat, x: int, y: int) {
    predicate Known() {
      kind < 7 && rotation < 4
    }

    /** Whether the piece covers the cell `row` and `column` of its own grid. */
    predicate Covers(row: nat, column: nat)
      requires Known()
    {
      Bit(Mask(kind, rotation), row * 4 + column)
    }
  }

  predicate FreeAt(rows: Rows, row: int, column: int)
    requires Shaped(rows)
  {
    0 <= row < ROWS && 0 <= column < COLUMNS && rows[row][column] == 0
  }

  predicate Fits(rows: Rows, p: Piece)
    requires Shaped(rows) && p.Known()
  {
    forall r: nat, c: nat :: r < 4 && c < 4 && p.Covers(r, c) ==> FreeAt(rows, p.y + r, p.x + c)
  }

  /** How many of the first `n` bits of a mask are set. */
  function BitsBelow(mask: nat, n: nat): nat {
    if n == 0 then 0 else BitsBelow(mask, n - 1) + if Bit(mask, n - 1) then 1 else 0
  }

  /** The same number, counted by shifting the mask. */
  function Ones(mask: nat, n: nat): nat {
    if n == 0 then 0 else mask % 2 + Ones(mask / 2, n - 1)
  }

  lemma {:induction false} BitsByShifting(mask: nat, n: nat)
    ensures BitsBelow(mask, n) == Ones(mask, n)
  {
    if n > 0 {
      BitsFromSecond(mask, n);
      BitsByShifting(mask / 2, n - 1);
    }
  }

  lemma {:induction false} BitsFromSecond(mask: nat, n: nat)
    requires n > 0
    ensures BitsBelow(mask, n) == mask % 2 + BitsBelow(mask / 2, n - 1)
  {
    if n > 1 {
      BitsFromSecond(mask, n - 1);
    }
  }

  /** How many bits of one row of a mask are set. */
  function RowOnes(row: nat): nat {
    if row == 0 then 0
    else if row == 1 || row == 2 || row == 4 || row == 8 then 1
    else if row == 7 || row == 11 || row == 13 || row == 14 then 3
    else if row == 15 then 4
    else 2
  }

  lemma OneBit(half: nat, bit: nat, n: nat)
    requires bit < 2
    ensures Ones(2 * half + bit, n + 1) == bit + Ones(half, n)
  {
    assert (2 * half + bit) / 2 == half && (2 * half + bit) % 2 == bit;
  }

  lemma OneRow(rest: nat, b3: nat, b2: nat, b1: nat, b0: nat, n: nat)
    requires b3 < 2 && b2 < 2 && b1 < 2 && b0 < 2
    ensures Ones(16 * rest + (8 * b3 + 4 * b2 + 2 * b1 + b0), n + 4) ==
      RowOnes(8 * b3 + 4 * b2 + 2 * b1 + b0) + Ones(rest, n)
  {
    hide Ones;
    OneBit(rest, b3, n);
    OneBit(2 * rest + b3, b2, n + 1);
    OneBit(4 * rest + 2 * b3 + b2, b1, n + 2);
    OneBit(8 * rest + 4 * b3 + 2 * b2 + b1, b0, n + 3);
  }

  lemma RowOfMask(rest: nat, row: nat, n: nat)
    requires row < 16
    ensures Ones(16 * rest + row, n + 4) == RowOnes(row) + Ones(rest, n)
  {
    hide Ones;
    hide RowOnes;
    var b3, b2, b1, b0 := row / 8, row / 4 % 2, row / 2 % 2, row % 2;
    assert row == 8 * b3 + 4 * b2 + 2 * b1 + b0;
    OneRow(rest, b3, b2, b1, b0, n);
  }

  lemma OnesOfNone(mask: nat)
    ensures Ones(mask, 0) == 0
  {
  }

  lemma OnesOfRows(mask: nat, top: nat, rest: nat, n: nat)
    requires top < 16 && mask == 16 * rest + top
    ensures Ones(mask, n + 4) == RowOnes(top) + Ones(rest, n)
  {
    RowOfMask(rest, top, n);
  }

  lemma OnesOfMask(mask: nat, top: nat, second: nat, third: nat, bottom: nat)
    requires top < 16 && second < 16 && third < 16 && bottom < 16
    requires mask == top + 16 * (second + 16 * (third + 16 * bottom))
    ensures Ones(mask, 16) == RowOnes(top) + RowOnes(second) + RowOnes(third) + RowOnes(bottom)
  {
    hide RowOnes;
    hide Ones;
    OnesOfRows(mask, top, second + 16 * (third + 16 * bottom), 12);
    OnesOfRows(second + 16 * (third + 16 * bottom), second, third + 16 * bottom, 8);
    OnesOfRows(third + 16 * bottom, third, bottom, 4);
    OnesOfRows(bottom, bottom, 0, 0);
    OnesOfNone(0);
  }

  /** Every piece covers four cells, whichever way it is turned. */
  lemma FourCells(kind: nat, rotation: nat)
    requires kind < 7 && rotation < 4
    ensures BitsBelow(Mask(kind, rotation), 16) == 4
  {
    hide Ones;
    hide BitsBelow;
    BitsByShifting(Mask(kind, rotation), 16);
    OnesOfMask(0x00F0, 0x0, 0xF, 0x0, 0x0); OnesOfMask(0x4444, 0x4, 0x4, 0x4, 0x4);
    OnesOfMask(0x0660, 0x0, 0x6, 0x6, 0x0);
    OnesOfMask(0x0072, 0x2, 0x7, 0x0, 0x0); OnesOfMask(0x0262, 0x2, 0x6, 0x2, 0x0);
    OnesOfMask(0x0270, 0x0, 0x7, 0x2, 0x0);
    OnesOfMask(0x0232, 0x2, 0x3, 0x2, 0x0);
    OnesOfMask(0x003C, 0xC, 0x3, 0x0, 0x0); OnesOfMask(0x0462, 0x2, 0x6, 0x4, 0x0);
    OnesOfMask(0x0063, 0x3, 0x6, 0x0, 0x0); OnesOfMask(0x0264, 0x4, 0x6, 0x2, 0x0);
    OnesOfMask(0x0071, 0x1, 0x7, 0x0, 0x0); OnesOfMask(0x0226, 0x6, 0x2, 0x2, 0x0);
    OnesOfMask(0x0470, 0x0, 0x7, 0x4, 0x0);
    OnesOfMask(0x0322, 0x2, 0x2, 0x3, 0x0);
    OnesOfMask(0x0074, 0x4, 0x7, 0x0, 0x0); OnesOfMask(0x0622, 0x2, 0x2, 0x6, 0x0);
    OnesOfMask(0x0170, 0x0, 0x7, 0x1, 0x0);
    OnesOfMask(0x0223, 0x3, 0x2, 0x2, 0x0);
  }

  /** Some bit of a mask with bits is set. */
  lemma {:induction false} SomeBit(mask: nat, n: nat) returns (k: nat)
    requires BitsBelow(mask, n) > 0
    ensures k < n && Bit(mask, k)
  {
    if Bit(mask, n - 1) {
      k := n - 1;
    } else {
      k := SomeBit(mask, n - 1);
    }
  }

  /** A piece that fits lies at least partly on the board, so it cannot fall for ever. */
  lemma FitsOnBoard(rows: Rows, p: Piece)
    requires Shaped(rows) && p.Known() && Fits(rows, p)
    ensures -4 < p.y < ROWS && -4 < p.x < COLUMNS
  {
    FourCells(p.kind, p.rotation);
    var k := SomeBit(Mask(p.kind, p.rotation), 16);
    assert k == k / 4 * 4 + k % 4;
    assert p.Covers(k / 4, k % 4);
  }

  // ----- Locking -----

  function Written(rows: Rows, row: int, column: int, value: nat): (out: Rows)
    requires Shaped(rows)
    ensures Shaped(out)
  {
    if 0 <= row < ROWS && 0 <= column < COLUMNS then
      var line: Row := rows[row][column := value];
      rows[row := line]
    else rows
  }

  /** The board with the first `n` of a piece's sixteen grid cells written. */
  function LockedTo(rows: Rows, p: Piece, n: nat): (out: Rows)
    requires Shaped(rows) && p.Known() && n <= 16
    ensures Shaped(out)
  {
    if n == 0 then rows
    else
      var before := LockedTo(rows, p, n - 1);
      if p.Covers((n - 1) / 4, (n - 1) % 4) then Written(before, p.y + (n - 1) / 4, p.x + (n - 1) % 4, p.kind + 1)
      else before
  }

  function Locked(rows: Rows, p: Piece): (out: Rows)
    requires Shaped(rows) && p.Known()
    ensures Shaped(out)
  {
    LockedTo(rows, p, 16)
  }

  /** Whether a piece covers a cell of the board. */
  predicate OnCell(p: Piece, row: int, column: int)
    requires p.Known()
  {
    0 <= row - p.y < 4 && 0 <= column - p.x < 4 && p.Covers(row - p.y, column - p.x)
  }

  lemma {:induction false} LockedToAt(rows: Rows, p: Piece, n: nat, i: nat, j: nat)
    requires Shaped(rows) && p.Known() && n <= 16 && i < ROWS && j < COLUMNS
    ensures LockedTo(rows, p, n)[i][j] == if OnCell(p, i, j) && (i - p.y) * 4 + (j - p.x) < n then p.kind + 1
      else rows[i][j]
  {
    if n > 0 {
      LockedToAt(rows, p, n - 1, i, j);
    }
  }

  /** Locking colours the cells the piece covers and no others. */
  lemma LockedAt(rows: Rows, p: Piece, i: nat, j: nat)
    requires Shaped(rows) && p.Known() && i < ROWS && j < COLUMNS
    ensures Locked(rows, p)[i][j] == if OnCell(p, i, j) then p.kind + 1 else rows[i][j]
  {
    LockedToAt(rows, p, 16, i, j);
  }

  // ----- Counting cells -----

  function FilledInRow(row: Row): nat {
    if row == [] then 0 else (if row[0] != 0 then 1 else 0) + FilledInRow(row[1..])
  }

  function Filled(rows: Rows): nat {
    if rows == [] then 0 else FilledInRow(rows[0]) + Filled(rows[1..])
  }

  lemma {:induction false} FillOneInRow(row: Row, j: nat, value: nat)
    requires j < |row| && row[j] == 0 && value != 0
    ensures FilledInRow(row[j := value]) == FilledInRow(row) + 1
  {
    if j > 0 {
      FillOneInRow(row[1..], j - 1, value);
      assert row[j := value][1..] == row[1..][j - 1 := value];
    } else {
      assert row[j := value][1..] == row[1..];
    }
  }

  lemma {:induction false} FillRow(rows: Rows, i: nat, row: Row)
    requires i < |rows|
    ensures Filled(rows[i := row]) == Filled(rows) - FilledInRow(rows[i]) + FilledInRow(row)
  {
    if i > 0 {
      FillRow(rows[1..], i - 1, row);
      assert rows[i := row][1..] == rows[1..][i - 1 := row];
    } else {
      assert rows[i := row][1..] == rows[1..];
    }
  }

  lemma FillOne(rows: Rows, i: nat, j: nat, value: nat)
    requires Shaped(rows) && i < ROWS && j < COLUMNS && rows[i][j] == 0 && value != 0
    ensures Filled(Written(rows, i, j, value)) == Filled(rows) + 1
  {
    FillOneInRow(rows[i], j, value);
    FillRow(rows, i, rows[i][j := value]);
  }

  lemma {:induction false} LockedToFills(rows: Rows, p: Piece, n: nat)
    requires Shaped(rows) && p.Known() && n <= 16 && Fits(rows, p)
    ensures Filled(LockedTo(rows, p, n)) == Filled(rows) + BitsBelow(Mask(p.kind, p.rotation), n)
  {
    if n > 0 {
      LockedToFills(rows, p, n - 1);
      var r, c := (n - 1) / 4, (n - 1) % 4;
      assert r * 4 + c == n - 1;
      if p.Covers(r, c) {
        assert FreeAt(rows, p.y + r, p.x + c);
        LockedToAt(rows, p, n - 1, p.y + r, p.x + c);
        FillOne(LockedTo(rows, p, n - 1), p.y + r, p.x + c, p.kind + 1);
      }
    }
  }

  /** Locking a piece that fits fills exactly four more cells. */
  lemma LockFillsFour(rows: Rows, p: Piece)
    requires Shaped(rows) && p.Known() && Fits(rows, p)
    ensures Filled(Locked(rows, p)) == Filled(rows) + 4
  {
    LockedToFills(rows, p, 16);
    FourCells(p.kind, p.rotation);
  }

  // ----- Clearing -----

  predicate Full(row: Row) {
    forall j :: 0 <= j < |row| ==> row[j] != 0
  }

  function FullCount(rows: Rows): (n: nat)
    ensures n <= |rows|
  {
    if rows == [] then 0 else (if Full(rows[0]) then 1 else 0) + FullCount(rows[1..])
  }

  /** The rows that are not full, in their order. */
  function NotFull(rows: Rows): (kept: Rows)
    ensures |kept| == |rows| - FullCount(rows)
  {
    if rows == [] then []
    else if Full(rows[0]) then NotFull(rows[1..])
    else [rows[0]] + NotFull(rows[1..])
  }

  lemma {:induction false} KeptAreNotFull(rows: Rows, k: nat)
    requires k < |NotFull(rows)|
    ensures NotFull(rows)[k] in rows && !Full(NotFull(rows)[k])
  {
    if Full(rows[0]) {
      KeptAreNotFull(rows[1..], k);
    } else if k > 0 {
      KeptAreNotFull(rows[1..], k - 1);
    }
  }

  /** The board once its full rows are gone: as many empty rows on top, the others below in order. */
  function Settled(rows: Rows): (out: Rows)
    ensures |out| == |rows|
  {
    EmptyRows(FullCount(rows)) + NotFull(rows)
  }

  lemma EmptyRowIsNotFull()
    ensures !Full(EmptyRow()) && FilledInRow(EmptyRow()) == 0
  {
    assert EmptyRow()[0] == 0;
    EmptyRowFill(EmptyRow());
  }

  lemma {:induction false} EmptyRowFill(row: Row)
    requires forall j :: 0 <= j < |row| ==> row[j] == 0
    ensures FilledInRow(row) == 0
  {
    if row != [] {
      EmptyRowFill(row[1..]);
    }
  }

  lemma {:induction false} FullRowFill(row: Row)
    requires Full(row)
    ensures FilledInRow(row) == |row|
  {
    if row != [] {
      assert forall j :: 0 <= j < |row[1..]| ==> row[1..][j] == row[j + 1];
      FullRowFill(row[1..]);
    }
  }

  lemma {:induction false} FilledJoin(a: Rows, b: Rows)
    ensures Filled(a + b) == Filled(a) + Filled(b)
  {
    if a == [] {
      assert a + b == b;
    } else {
      FilledJoin(a[1..], b);
      assert (a + b)[1..] == a[1..] + b;
    }
  }

  lemma {:induction false} EmptyRowsFill(n: nat)
    ensures Filled(EmptyRows(n)) == 0
  {
    if n > 0 {
      EmptyRowIsNotFull();
      EmptyRowsFill(n - 1);
      assert EmptyRows(n)[1..] == EmptyRows(n - 1);
    }
  }

  lemma {:induction false} NotFullFill(rows: Rows)
    requires forall i :: 0 <= i < |rows| ==> |rows[i]| == COLUMNS
    ensures Filled(NotFull(rows)) == Filled(rows) - COLUMNS * FullCount(rows)
  {
    if rows != [] {
      NotFullFill(rows[1..]);
      if Full(rows[0]) {
        FullRowFill(rows[0]);
      } else {
        assert NotFull(rows)[1..] == NotFull(rows[1..]);
      }
    }
  }

  /** Clearing takes ten cells for every full row. */
  lemma SettledFill(rows: Rows)
    requires Shaped(rows)
    ensures Shaped(Settled(rows)) && Filled(Settled(rows)) == Filled(rows) - COLUMNS * FullCount(rows)
  {
    forall k | 0 <= k < |NotFull(rows)| ensures |NotFull(rows)[k]| == COLUMNS {
      KeptAreNotFull(rows, k);
    }
    FilledJoin(EmptyRows(FullCount(rows)), NotFull(rows));
    EmptyRowsFill(FullCount(rows));
    NotFullFill(rows);
  }

  lemma {:induction false} NoneFull(rows: Rows)
    requires forall i :: 0 <= i < |rows| ==> !Full(rows[i])
    ensures FullCount(rows) == 0
  {
    if rows != [] {
      NoneFull(rows[1..]);
    }
  }

  lemma {:induction false} NoneFullAt(rows: Rows, i: nat)
    requires FullCount(rows) == 0 && i < |rows|
    ensures !Full(rows[i])
  {
    if i > 0 {
      NoneFullAt(rows[1..], i - 1);
    }
  }

  /** No row of a settled board is full. */
  lemma SettledHasNoneFull(rows: Rows)
    ensures FullCount(Settled(rows)) == 0
  {
    EmptyRowIsNotFull();
    forall k | 0 <= k < |NotFull(rows)| ensures !Full(NotFull(rows)[k]) {
      KeptAreNotFull(rows, k);
    }
    NoneFull(Settled(rows));
  }

  /** Settling a board without full rows changes nothing. */
  lemma {:induction false} NotFullOfNone(rows: Rows)
    requires FullCount(rows) == 0
    ensures NotFull(rows) == rows
  {
    if rows != [] {
      NotFullOfNone(rows[1..]);
    }
  }

  /** Full rows that lie within four consecutive rows are at most four. */
  lemma {:induction false} FullWithin(rows: Rows, top: int)
    requires forall i :: 0 <= i < |rows| && Full(rows[i]) ==> top <= i < top + 4
    ensures FullCount(rows) <= 4 && (top <= 0 ==> FullCount(rows) <= if top + 4 > 0 then top + 4 else 0)
  {
    if rows != [] {
      FullWithin(rows[1..], top - 1);
    }
  }

  /** A lock on a board without full rows completes at most four. */
  lemma LockCompletesFour(rows: Rows, p: Piece)
    requires Shaped(rows) && p.Known() && FullCount(rows) == 0
    ensures FullCount(Locked(rows, p)) <= 4
  {
    var locked := Locked(rows, p);
    forall i | 0 <= i < ROWS && Full(locked[i]) ensures p.y <= i < p.y + 4 {
      NoneFullAt(rows, i);
      var j :| 0 <= j < COLUMNS && rows[i][j] == 0;
      assert locked[i][j] != 0;
      LockedAt(rows, p, i, j);
    }
    FullWithin(locked, p.y);
  }
}
