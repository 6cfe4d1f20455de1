/** The Tetris game of apps/tetris.c: moves, locking, clearing, scoring and the timer. */
module TetrisGame {
  import opened TetrisRules
  import opened Words

  /** A game. `locked` and `cleared` count the pieces locked and the rows removed since it began;
      the program keeps only `lines`, which is `cleared` in 32 bits. */
  datatype Play = Play(rows: Rows, piece: Piece, next: nat, over: bool, score: nat, level: nat,
    lines: nat, drop: nat, locked: nat, cleared: nat)

  ghost predicate Sane(s: Play) {
    Shaped(s.rows) && s.piece.Known() && s.next < 7
  }

  // ----- The steps -----

  function Below(p: Piece): Piece {
    p.(y := p.y + 1)
  }

  function Turn(p: Piece): Piece {
    p.(rotation := (p.rotation + 1) % 4)
  }

  ghost function MoveIfFits(s: Play, p: Piece): Play
    requires Sane(s) && p.Known()
  {
    if Fits(s.rows, p) then s.(piece := p) else s
  }

  ghost function Spawn(s: Play, draw: nat): Play
    requires Sane(s)
  {
    var p := Piece(s.next, 0, 3, 0);
    s.(piece := p, next := draw, over := s.over || !Fits(s.rows, p))
  }

  function Points(rows: nat): nat {
    if rows == 0 then 0 else if rows == 1 then 40 else if rows == 2 then 100 else if rows == 3 then 300 else 1200
  }

  ghost function ClearFull(s: Play): (out: Play)
    requires Shaped(s.rows)
    ensures out.piece == s.piece && out.next == s.next && out.over == s.over && out.drop == s.drop
  {
    var n := FullCount(s.rows);
    var counted := if n > 4 then 4 else n;
    if n == 0 then s
    else
      var lines := (s.lines + counted) % UINT;
      s.(rows := Settled(s.rows), score := (s.score + Points(counted) * (s.level + 1)) % WORD,
         lines := lines, level := lines / 10, cleared := s.cleared + n)
  }

  ghost function LockPiece(s: Play, draw: nat): Play
    requires Sane(s)
  {
    var after := ClearFull(s.(rows := Locked(s.rows, s.piece), locked := s.locked + 1));
    SettledFill(Locked(s.rows, s.piece));
    Spawn(after, draw)
  }

  /** Where a piece comes to rest when it is dropped. */
  ghost function Dropped(rows: Rows, p: Piece): (q: Piece)
    requires Shaped(rows) && p.Known() && Fits(rows, p)
    ensures q.Known() && q == p.(y := q.y) && q.y >= p.y
    ensures Fits(rows, q) && !Fits(rows, Below(q))
    decreases ROWS - p.y
  {
    FitsOnBoard(rows, p);
    if Fits(rows, Below(p)) then Dropped(rows, Below(p)) else p
  }

  ghost function NewPlay(first: nat, second: nat): Play {
    Play(EmptyRows(ROWS), Piece(first, 0, 3, 0), second, false, 0, 0, 0, 0, 0, 0)
  }

  ghost function SoftDrop(s: Play, draw: nat): Play
    requires Sane(s)
  {
    if Fits(s.rows, Below(s.piece))
    then s.(piece := Below(s.piece), score := (s.score + 1) % WORD, drop := 0)
    else LockPiece(s, draw).(drop := 0)
  }

  ghost function HardDrop(s: Play, draw: nat): Play
    requires Sane(s) && Fits(s.rows, s.piece)
  {
    LockPiece(s.(piece := Dropped(s.rows, s.piece)), draw).(drop := 0)
  }

  /** A key press. `first` and `second` are the values of the random generator; a lock uses one,
      a restart both. */
  ghost function PressKey(s: Play, key: char, first: nat, second: nat): Play
    requires Sane(s) && (!s.over ==> Fits(s.rows, s.piece))
  {
    if key == 'r' || key == 'R' then NewPlay(first, second)
    else if s.over then s
    else if key == 'a' || key == 'A' then MoveIfFits(s, s.piece.(x := s.piece.x - 1))
    else if key == 'd' || key == 'D' then MoveIfFits(s, s.piece.(x := s.piece.x + 1))
    else if key == 's' || key == 'S' then SoftDrop(s, first)
    else if key == 'w' || key == 'W' then MoveIfFits(s, Turn(s.piece))
    else if key == ' ' || key == '\n' then HardDrop(s, first)
    else s
  }

  /** Ticks between two steps down: 700 - 40 * level in 64 bits, but at least 100. */
  function DropInterval(level: nat): nat {
    var interval := (700 - 40 * level) % WORD;
    if interval < 100 then 100 else interval
  }

  /** One timer tick. */
  ghost function Tick(s: Play, draw: nat): Play
    requires Sane(s)
  {
    if s.over then s
    else if s.drop + 1 < DropInterval(s.level) then s.(drop := s.drop + 1)
    else if Fits(s.rows, Below(s.piece)) then s.(piece := Below(s.piece), drop := 0)
    else LockPiece(s.(drop := 0), draw)
  }

  // ----- What every game keeps -----

  ghost predicate Coloured(rows: Rows)
    requires Shaped(rows)
  {
    forall i, j :: 0 <= i < ROWS && 0 <= j < COLUMNS ==> rows[i][j] <= 7
  }

  ghost predicate Counted(s: Play)
    requires Shaped(s.rows)
  {
    && Filled(s.rows) == 4 * s.locked - COLUMNS * s.cleared
    && s.lines == s.cleared % UINT && s.level == s.lines / 10
  }

  ghost predicate Playing(s: Play) {
    && Sane(s) && Coloured(s.rows) && Counted(s)
    && FullCount(s.rows) == 0
    && (!s.over ==> Fits(s.rows, s.piece))
    && s.drop < DropInterval(s.level)
  }

  /** The timer interval is the intended one exactly up to level 17; from 18 on the subtraction wraps. */
  lemma IntervalRange(level: nat)
    requires level < UINT
    ensures 100 <= DropInterval(level) < WORD
    ensures DropInterval(level) <= 700 <==> level <= 17
  {
    if level <= 17 {
      assert (700 - 40 * level) % WORD == 700 - 40 * level;
    } else {
      assert (700 - 40 * level) % WORD == 700 - 40 * level + WORD;
    }
  }

  /** At level 18 a piece would take the step down after more than 10^19 ticks. */
  lemma IntervalWraps()
    ensures DropInterval(17) == 100 && DropInterval(18) == WORD - 20 > 10_000_000_000_000_000_000
  {
    IntervalRange(17);
  }

  lemma PositiveInterval(level: nat)
    ensures DropInterval(level) >= 100
  {
  }

  lemma LockColours(rows: Rows, p: Piece)
    requires Shaped(rows) && p.Known() && Coloured(rows)
    ensures Coloured(Locked(rows, p)) && Shaped(Settled(Locked(rows, p))) && Coloured(Settled(Locked(rows, p)))
  {
    var locked := Locked(rows, p);
    forall i, j | 0 <= i < ROWS && 0 <= j < COLUMNS ensures locked[i][j] <= 7 {
      LockedAt(rows, p, i, j);
    }
    SettledFill(locked);
    var out := Settled(locked);
    forall i, j | 0 <= i < ROWS && 0 <= j < COLUMNS ensures out[i][j] <= 7 {
      var n := FullCount(locked);
      if i >= n {
        KeptAreNotFull(locked, i - n);
      }
    }
  }

  lemma LinesWrap(cleared: nat, n: nat)
    ensures (cleared % UINT + n) % UINT == (cleared + n) % UINT
  {
  }

  /** A lock of a fitting piece keeps the count, and clears at most four rows. */
  lemma LockCounts(s: Play)
    requires Playing(s) && !s.over
    ensures var after := ClearFull(s.(rows := Locked(s.rows, s.piece), locked := s.locked + 1));
      && Shaped(after.rows) && Coloured(after.rows) && Counted(after) && FullCount(after.rows) == 0
      && after.cleared <= s.cleared + 4
  {
    hide DropInterval;
    hide Fits;
    hide Locked;
    hide Settled;
    hide Coloured;
    hide FullCount;
    hide Filled;
    hide Points;
    var rows := Locked(s.rows, s.piece);
    LockFillsFour(s.rows, s.piece);
    LockCompletesFour(s.rows, s.piece);
    LockColours(s.rows, s.piece);
    SettledFill(rows);
    SettledHasNoneFull(rows);
    LinesWrap(s.cleared, FullCount(rows));
  }

  lemma LockKeepsPlaying(s: Play, draw: nat)
    requires Playing(s) && !s.over && draw < 7
    ensures Playing(LockPiece(s, draw).(drop := 0))
  {
    hide Fits;
    hide Coloured;
    hide Filled;
    hide DropInterval;
    hide Locked;
    hide Settled;
    hide FullCount;
    hide ClearFull;
    LockCounts(s);
    SettledFill(Locked(s.rows, s.piece));
    PositiveInterval(LockPiece(s, draw).level);
  }

  lemma NewPlayPlays(first: nat, second: nat)
    requires first < 7 && second < 7
    ensures Playing(NewPlay(first, second))
  {
    hide Fits;
    hide Full;
    hide Filled;
    hide FullCount;
    NewPlayFits(first, second);
    EmptyRowsFill(ROWS);
    EmptyRowIsNotFull();
    NoneFull(EmptyRows(ROWS));
    PositiveInterval(0);
  }

  lemma MoveKeepsPlaying(s: Play, p: Piece)
    requires Playing(s) && !s.over && p.Known()
    ensures Playing(MoveIfFits(s, p))
  {
  }

  lemma SoftDropKeepsPlaying(s: Play, draw: nat)
    requires Playing(s) && !s.over && draw < 7
    ensures Playing(SoftDrop(s, draw))
  {
    PositiveInterval(s.level);
    LockKeepsPlaying(s, draw);
  }

  lemma HardDropKeepsPlaying(s: Play, draw: nat)
    requires Playing(s) && !s.over && draw < 7
    ensures Playing(HardDrop(s, draw))
  {
    LockKeepsPlaying(s.(piece := Dropped(s.rows, s.piece)), draw);
  }

  lemma KeyKeepsPlaying(s: Play, key: char, first: nat, second: nat)
    requires Playing(s) && first < 7 && second < 7
    ensures Playing(PressKey(s, key, first, second))
  {
    hide MoveIfFits;
    hide SoftDrop;
    hide HardDrop;
    hide NewPlay;
    hide Fits;
    hide Coloured;
    hide Counted;
    hide DropInterval;
    hide FullCount;
    if key == 'r' || key == 'R' {
      NewPlayPlays(first, second);
    } else if !s.over {
      MoveKeepsPlaying(s, s.piece.(x := s.piece.x - 1));
      MoveKeepsPlaying(s, s.piece.(x := s.piece.x + 1));
      MoveKeepsPlaying(s, Turn(s.piece));
      SoftDropKeepsPlaying(s, first);
      HardDropKeepsPlaying(s, first);
    }
  }

  lemma TickKeepsPlaying(s: Play, draw: nat)
    requires Playing(s) && draw < 7
    ensures Playing(Tick(s, draw))
  {
    if !s.over {
      PositiveInterval(s.level);
      LockKeepsPlaying(s.(drop := 0), draw);
      assert LockPiece(s.(drop := 0), draw) == LockPiece(s.(drop := 0), draw).(drop := 0);
    }
  }

  datatype Event = Typed(key: char, first: nat, second: nat) | Ticked(draw: nat)

  predicate EventOk(e: Event) {
    match e
    case Typed(_, first, second) => first < 7 && second < 7
    case Ticked(draw) => draw < 7
  }

  ghost function Happen(s: Play, e: Event): (out: Play)
    requires Playing(s) && EventOk(e)
    ensures Playing(out)
  {
    match e
    case Typed(key, first, second) =>
      KeyKeepsPlaying(s, key, first, second);
      PressKey(s, key, first, second)
    case Ticked(draw) =>
      TickKeepsPlaying(s, draw);
      Tick(s, draw)
  }

  ghost function Run(s: Play, events: seq<Event>): (out: Play)
    requires Playing(s) && forall e :: e in events ==> EventOk(e)
    ensures Playing(out)
    decreases |events|
  {
    if events == [] then s
    else
      assert EventOk(events[0]);
      Run(Happen(s, events[0]), events[1..])
  }

  /** After any run of a new game: the piece in play fits, no row is full, and the filled cells are
      four for each locked piece less ten for each cleared row. */
  lemma {:induction false} EveryGame(first: nat, second: nat, events: seq<Event>)
    requires first < 7 && second < 7 && forall e :: e in events ==> EventOk(e)
    ensures Playing(NewPlay(first, second))
    ensures var s := Run(NewPlay(first, second), events);
      && Shaped(s.rows) && s.piece.Known()
      && (!s.over ==> Fits(s.rows, s.piece))
      && (forall i :: 0 <= i < ROWS ==> !Full(s.rows[i]))
      && Filled(s.rows) == 4 * s.locked - COLUMNS * s.cleared && s.lines == s.cleared % UINT
  {
    NewPlayPlays(first, second);
    var s := Run(NewPlay(first, second), events);
    forall i | 0 <= i < ROWS ensures !Full(s.rows[i]) {
      NoneFullAt(s.rows, i);
    }
  }

  class Game {
    const board: array2<nat>
    var currentType: nat
    var currentRotation: nat
    var currentX: int
    var currentY: int
    var nextType: nat
    var score: nat
    var level: nat
    var linesClearedTotal: nat
    var gameOver: bool
    var dropCounter: nat
    ghost var locked: nat
    ghost var cleared: nat

    ghost predicate Allocated() {
      board.Length0 == ROWS && board.Length1 == COLUMNS
    }

    ghost function Board(): (rows: Rows)
      requires Allocated()
      reads board
      ensures Shaped(rows)
      ensures forall i, j :: 0 <= i < ROWS && 0 <= j < COLUMNS ==> rows[i][j] == board[i, j]
    {
      seq(ROWS, (i: nat) requires i < ROWS reads board =>
        seq(COLUMNS, (j: nat) requires j < COLUMNS reads board => board[i, j]))
    }

    ghost function ViewOf(): Play
      requires Allocated()
      reads this, board
    {
      Play(Board(), Piece(currentType, currentRotation, currentX, currentY), nextType, gameOver, score, level,
        linesClearedTotal, dropCounter, locked, cleared)
    }

    ghost predicate Valid()
      reads this, board
    {
      Allocated() && Playing(ViewOf())
    }

    method PieceFits(kind: nat, rotation: nat, px: int, py: int) returns (fits: bool)
      requires Allocated() && kind < 7 && rotation < 4
      ensures fits == Fits(Board(), Piece(kind, rotation, px, py))
    {
      hide Board;
      hide Bit;
      ghost var p := Piece(kind, rotation, px, py);
      for row: nat := 0 to 4
        invariant forall r: nat, c: nat :: r < row && c < 4 && p.Covers(r, c) ==> FreeAt(Board(), py + r, px + c)
      {
        for col: nat := 0 to 4
          invariant forall r: nat, c: nat :: r < row && c < 4 && p.Covers(r, c) ==> FreeAt(Board(), py + r, px + c)
          invariant forall c: nat :: c < col && p.Covers(row, c) ==> FreeAt(Board(), py + row, px + c)
        {
          if Bit(Mask(kind, rotation), row * 4 + col) {
            assert p.Covers(row, col);
            var boardCol, boardRow := px + col, py + row;
            if boardCol < 0 || boardCol >= COLUMNS || boardRow < 0 || boardRow >= ROWS {
              return false;
            }
            if board[boardRow, boardCol] != 0 {
              return false;
            }
          }
        }
      }
      return true;
    }

    method SpawnPiece(draw: nat)
      requires Allocated() && Sane(ViewOf())
      modifies this`currentType, this`nextType, this`currentRotation, this`currentX, this`currentY, this`gameOver
      ensures ViewOf() == Spawn(old(ViewOf()), draw)
    {
      hide Board;
      hide Fits;
      currentType := nextType;
      nextType := draw;
      currentRotation := 0;
      currentX := (COLUMNS - 4) / 2;
      currentY := 0;
      var fits := PieceFits(currentType, currentRotation, currentX, currentY);
      if !fits {
        gameOver := true;
      }
    }

    method RowIsFull(row: nat) returns (full: bool)
      requires Allocated() && row < ROWS
      ensures full == Full(Board()[row])
    {
      hide Board;
      for col := 0 to COLUMNS
        invariant forall j :: 0 <= j < col ==> Board()[row][j] != 0
      {
        if board[row, col] == 0 {
          assert Board()[row][col] == 0;
          return false;
        }
      }
      return true;
    }

    /** Moves the rows above `row` down by one, over it, and empties the top row. */
    method ShiftDown(row: nat)
      requires Allocated() && row < ROWS
      modifies board
      ensures Board() == [EmptyRow()] + old(Board())[..row] + old(Board())[row + 1..]
    {
      hide Board;
      ghost var before := Board();
      var moveRow := row;
      while moveRow > 0
        invariant 0 <= moveRow <= row
        invariant forall i, j :: 0 <= i <= moveRow && 0 <= j < COLUMNS ==> Board()[i][j] == before[i][j]
        invariant forall i, j :: moveRow < i <= row && 0 <= j < COLUMNS ==> Board()[i][j] == before[i - 1][j]
        invariant forall i, j :: row < i < ROWS && 0 <= j < COLUMNS ==> Board()[i][j] == before[i][j]
      {
        CopyRow(moveRow);
        moveRow := moveRow - 1;
      }
      for col := 0 to COLUMNS
        invariant forall j :: 0 <= j < col ==> Board()[0][j] == 0
        invariant forall i, j :: 0 < i <= row && 0 <= j < COLUMNS ==> Board()[i][j] == before[i - 1][j]
        invariant forall i, j :: row < i < ROWS && 0 <= j < COLUMNS ==> Board()[i][j] == before[i][j]
      {
        ghost var was := Board();
        board[0, col] := 0;
        assert forall i, j :: 0 <= i < ROWS && 0 <= j < COLUMNS ==>
          Board()[i][j] == if i == 0 && j == col then 0 else was[i][j];
      }
      SameRows(Board(), [EmptyRow()] + before[..row] + before[row + 1..]);
    }

    method CopyRow(moveRow: nat)
      requires Allocated() && 0 < moveRow < ROWS
      modifies board
      ensures forall i, j :: 0 <= i < ROWS && 0 <= j < COLUMNS ==>
        Board()[i][j] == if i == moveRow then old(Board())[i - 1][j] else old(Board())[i][j]
    {
      hide Board;
      ghost var before := Board();
      for col := 0 to COLUMNS
        invariant forall i, j :: 0 <= i < ROWS && 0 <= j < COLUMNS ==>
          board[i, j] == if i == moveRow && j < col then before[i - 1][j] else before[i][j]
      {
        board[moveRow, col] := board[moveRow - 1, col];
      }
    }

    /** Removes the full rows, bottom row first; a row that is removed is looked at again,
        since the one above has moved into it. */
    method RemoveFull() returns (removed: nat)
      requires Allocated()
      modifies board
      ensures Board() == Settled(old(Board()))
      ensures removed == FullCount(old(Board()))
    {
      hide Board;
      hide Full;
      hide NotFull;
      hide FullCount;
      hide Partway;
      hide Settled;
      ghost var before := Board();
      ghost var m := ROWS;
      removed := 0;
      var row := ROWS - 1;
      NothingSeen(before);
      while row >= 0
        invariant -1 <= row < ROWS && 0 <= m <= ROWS
        invariant row + 1 == removed + m || (m == 0 && row < removed)
        invariant removed == FullCount(before[m..]) && removed + m <= ROWS
        invariant Board() == Partway(before, m)
        decreases m, row
      {
        var full := RowIsFull(row);
        LookAt(before, m, row);
        if full {
          removed := removed + 1;
          ShiftDown(row);
          m := m - 1;
        } else {
          if m > 0 {
            m := m - 1;
          }
          row := row - 1;
        }
      }
      AllSeen(before, m);
    }

    method ClearLines()
      requires Allocated()
      modifies this`score, this`level, this`linesClearedTotal, this`cleared, board
      ensures ViewOf() == ClearFull(old(ViewOf()))
    {
      hide Board;
      hide Full;
      hide FullCount;
      hide Settled;
      ghost var before := Board();
      var count := RemoveFull();
      if count == 0 {
        SettledOfNone(before);
        return;
      }
      cleared := cleared + count;
      var counted := if count > 4 then 4 else count;
      score := (score + Points(counted) * (level + 1)) % WORD;
      linesClearedTotal := (linesClearedTotal + counted) % UINT;
      level := linesClearedTotal / 10;
    }

    method LockCells()
      requires Allocated() && Sane(ViewOf())
      modifies board
      ensures Board() == Locked(old(Board()), Piece(currentType, currentRotation, currentX, currentY))
    {
      hide Board;
      hide Bit;
      hide Written;
      ghost var before, p := Board(), Piece(currentType, currentRotation, currentX, currentY);
      for row: nat := 0 to 4
        invariant Board() == LockedTo(before, p, row * 4)
      {
        for col: nat := 0 to 4
          invariant Board() == LockedTo(before, p, row * 4 + col)
        {
          assert (row * 4 + col) / 4 == row && (row * 4 + col) % 4 == col;
          if Bit(Mask(currentType, currentRotation), row * 4 + col) {
            LockCell(currentY + row, currentX + col);
          }
        }
      }
    }

    method LockCell(boardRow: int, boardCol: int)
      requires Allocated()
      modifies board
      ensures Board() == Written(old(Board()), boardRow, boardCol, currentType + 1)
    {
      hide Board;
      if 0 <= boardRow < ROWS && 0 <= boardCol < COLUMNS {
        ghost var was := Board();
        board[boardRow, boardCol] := currentType + 1;
        SameRows(Board(), Written(was, boardRow, boardCol, currentType + 1));
      }
    }

    method LockCurrent(draw: nat)
      requires Allocated() && Sane(ViewOf())
      modifies this, board
      ensures ViewOf() == LockPiece(old(ViewOf()), draw)
    {
      hide Board;
      hide Locked;
      hide Settled;
      hide FullCount;
      hide Spawn;
      hide ClearFull;
      LockCells();
      locked := locked + 1;
      SettledFill(Board());
      ClearLines();
      SpawnPiece(draw);
    }

    method EmptyBoard()
      requires Allocated()
      modifies board
      ensures Board() == EmptyRows(ROWS)
    {
      hide Board;
      for row := 0 to ROWS
        invariant forall i, j :: 0 <= i < row && 0 <= j < COLUMNS ==> board[i, j] == 0
      {
        for col := 0 to COLUMNS
          invariant forall i, j :: 0 <= i < row && 0 <= j < COLUMNS ==> board[i, j] == 0
          invariant forall j :: 0 <= j < col ==> board[row, j] == 0
        {
          board[row, col] := 0;
        }
      }
      SameRows(Board(), EmptyRows(ROWS));
    }

    method Init(first: nat, second: nat)
      requires Allocated() && first < 7 && second < 7
      modifies this, board
      ensures ViewOf() == NewPlay(first, second)
      ensures Valid()
    {
      hide Board;
      hide Fits;
      hide Playing;
      EmptyBoard();
      score, level, linesClearedTotal := 0, 0, 0;
      gameOver, dropCounter := false, 0;
      locked, cleared := 0, 0;
      nextType := first;
      currentType, currentRotation := first, 0;
      SpawnPiece(second);
      NewPlayPlays(first, second);
      NewPlayFits(first, second);
    }

    method MoveTo(p: Piece)
      requires Allocated() && Sane(ViewOf()) && p.Known() && p.kind == currentType
      modifies this`currentRotation, this`currentX, this`currentY
      ensures ViewOf() == MoveIfFits(old(ViewOf()), p)
    {
      hide Board;
      hide Fits;
      var fits := PieceFits(p.kind, p.rotation, p.x, p.y);
      if fits {
        currentRotation, currentX, currentY := p.rotation, p.x, p.y;
      }
    }

    /** The soft drop: one row down, or a lock. */
    method StepDown(draw: nat)
      requires Allocated() && Sane(ViewOf())
      modifies this, board
      ensures ViewOf() == SoftDrop(old(ViewOf()), draw)
    {
      hide Board;
      hide Fits;
      hide LockPiece;
      var fits := PieceFits(currentType, currentRotation, currentX, currentY + 1);
      if fits {
        currentY := currentY + 1;
        score := (score + 1) % WORD;
      } else {
        LockCurrent(draw);
      }
      dropCounter := 0;
    }

    /** The hard drop: down as long as the piece fits, then a lock. */
    method DropAll(draw: nat)
      requires Allocated() && Sane(ViewOf()) && Fits(Board(), ViewOf().piece)
      modifies this, board
      ensures ViewOf() == HardDrop(old(ViewOf()), draw)
    {
      hide Board;
      hide Fits;
      hide LockPiece;
      ghost var before := ViewOf();
      var fits := PieceFits(currentType, currentRotation, currentX, currentY + 1);
      FitsOnBoard(Board(), ViewOf().piece);
      while fits
        invariant Allocated() && currentY < ROWS
        invariant ViewOf() == before.(piece := before.piece.(y := currentY))
        invariant Fits(before.rows, ViewOf().piece) && fits == Fits(before.rows, Below(ViewOf().piece))
        invariant Dropped(before.rows, ViewOf().piece) == Dropped(before.rows, before.piece)
        decreases ROWS - currentY
      {
        FitsOnBoard(before.rows, Below(ViewOf().piece));
        currentY := currentY + 1;
        fits := PieceFits(currentType, currentRotation, currentX, currentY + 1);
      }
      LockCurrent(draw);
      dropCounter := 0;
    }

    method Key(value: char, first: nat, second: nat)
      requires Valid() && first < 7 && second < 7
      modifies this, board
      ensures Valid()
      ensures ViewOf() == PressKey(old(ViewOf()), value, first, second)
    {
      hide Board;
      hide Fits;
      hide MoveIfFits;
      hide SoftDrop;
      hide HardDrop;
      KeyKeepsPlaying(ViewOf(), value, first, second);
      if value == 'r' || value == 'R' {
        Init(first, second);
        return;
      }
      if gameOver {
        return;
      }
      var p := Piece(currentType, currentRotation, currentX, currentY);
      if value == 'a' || value == 'A' {
        MoveTo(p.(x := p.x - 1));
      } else if value == 'd' || value == 'D' {
        MoveTo(p.(x := p.x + 1));
      } else if value == 's' || value == 'S' {
        StepDown(first);
      } else if value == 'w' || value == 'W' {
        MoveTo(Turn(p));
      } else if value == ' ' || value == '\n' {
        DropAll(first);
      }
    }

    method Timer(draw: nat)
      requires Valid() && draw < 7
      modifies this, board
      ensures Valid()
      ensures ViewOf() == Tick(old(ViewOf()), draw)
    {
      hide Board;
      hide Fits;
      hide LockPiece;
      hide DropInterval;
      TickKeepsPlaying(ViewOf(), draw);
      if gameOver {
        return;
      }
      dropCounter := dropCounter + 1;
      if dropCounter < DropInterval(level) {
        return;
      }
      dropCounter := 0;
      var fits := PieceFits(currentType, currentRotation, currentX, currentY + 1);
      if fits {
        currentY := currentY + 1;
      } else {
        LockCurrent(draw);
      }
    }
  }

  lemma NewPlayFits(first: nat, second: nat)
    requires first < 7 && second < 7
    ensures Shaped(EmptyRows(ROWS)) && Fits(EmptyRows(ROWS), Piece(first, 0, 3, 0))
  {
  }

  // ----- The loop that removes full rows -----

  /** The board once the rows from `m` on have been looked at. */
  ghost function Partway(rows: Rows, m: nat): Rows
    requires m <= |rows|
  {
    EmptyRows(FullCount(rows[m..])) + rows[..m] + NotFull(rows[m..])
  }

  lemma NothingSeen(rows: Rows)
    requires |rows| == ROWS
    ensures Partway(rows, ROWS) == rows && FullCount(rows[ROWS..]) == 0
  {
    assert rows[ROWS..] == [];
  }

  lemma SettledOfNone(rows: Rows)
    requires FullCount(rows) == 0
    ensures Settled(rows) == rows
  {
    NotFullOfNone(rows);
  }

  /** What looking at `row` finds: the next row of the old board, or one of the new empty ones. */
  lemma LookAt(rows: Rows, m: nat, row: nat)
    requires Shaped(rows) && m <= ROWS && row < ROWS
    requires row + 1 == FullCount(rows[m..]) + m || (m == 0 && row < FullCount(rows))
    ensures |Partway(rows, m)| == ROWS
    ensures m == 0 ==> !Full(Partway(rows, m)[row])
    ensures m > 0 ==> Partway(rows, m)[row] == rows[m - 1]
    ensures m > 0 && Full(rows[m - 1]) ==> FullCount(rows[m - 1..]) == FullCount(rows[m..]) + 1
    ensures m > 0 && Full(rows[m - 1]) ==>
      Partway(rows, m - 1) == [EmptyRow()] + Partway(rows, m)[..row] + Partway(rows, m)[row + 1..]
    ensures m > 0 && !Full(rows[m - 1]) ==> FullCount(rows[m - 1..]) == FullCount(rows[m..])
    ensures m > 0 && !Full(rows[m - 1]) ==> Partway(rows, m - 1) == Partway(rows, m)
  {
    hide Full;
    PartwaySize(rows, m);
    hide Shaped;
    if m == 0 {
      assert rows[0..] == rows;
      EmptyRowIsNotFull();
    } else {
      PassRow(rows, m);
      hide FullCount;
      hide NotFull;
      hide EmptyRows;
      hide EmptyRow;
      var n := FullCount(rows[m..]);
      var empty, above, x, below := EmptyRows(n), rows[..m - 1], rows[m - 1], NotFull(rows[m..]);
      assert rows[..m] == above + [x];
      OneMoreEmpty(n);
      assert Partway(rows, m) == empty + (above + [x]) + below;
      assert Partway(rows, m - 1) == if Full(x) then [EmptyRow()] + empty + above + below
        else empty + above + ([x] + below);
      hide Partway;
      TakeOut(empty, above, x, below);
      Prepend(EmptyRow(), empty, above, below);
    }
  }

  lemma PartwaySize(rows: Rows, m: nat)
    requires m <= |rows|
    ensures |Partway(rows, m)| == |rows|
  {
  }

  lemma OneMoreEmpty(n: nat)
    ensures EmptyRows(n + 1) == [EmptyRow()] + EmptyRows(n)
  {
  }

  lemma TakeOut(a: Rows, b: Rows, x: Row, c: Rows)
    ensures var all, k := a + (b + [x]) + c, |a| + |b|;
      all[k] == x && all[..k] == a + b && all[k + 1..] == c && all == a + b + ([x] + c)
  {
  }

  lemma Prepend(e: Row, a: Rows, b: Rows, c: Rows)
    ensures [e] + (a + b) + c == ([e] + a) + b + c
  {
  }

  lemma PassRow(rows: Rows, m: nat)
    requires 0 < m <= |rows|
    ensures FullCount(rows[m - 1..]) == FullCount(rows[m..]) + if Full(rows[m - 1]) then 1 else 0
    ensures NotFull(rows[m - 1..]) == if Full(rows[m - 1]) then NotFull(rows[m..])
      else [rows[m - 1]] + NotFull(rows[m..])
  {
    hide Full;
    assert rows[m - 1..][1..] == rows[m..] && rows[m - 1..][0] == rows[m - 1];
  }

  lemma AllSeen(rows: Rows, m: nat)
    requires m <= |rows| && m == 0
    ensures Partway(rows, m) == Settled(rows) && FullCount(rows[m..]) == FullCount(rows)
  {
    assert rows[0..] == rows;
  }

  lemma SameRows(a: Rows, b: Rows)
    requires Shaped(a) && Shaped(b)
    requires forall i, j :: 0 <= i < ROWS && 0 <= j < COLUMNS ==> a[i][j] == b[i][j]
    ensures a == b
  {
    forall i | 0 <= i < ROWS ensures a[i] == b[i] {
      assert |a[i]| == |b[i]|;
    }
  }
}
