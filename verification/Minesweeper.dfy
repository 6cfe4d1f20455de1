/** The Minesweeper game of apps/minesweeper.c: reveals, marks, wins and losses. */
module Minesweeper {
  import opened Collections
  import opened Flood
  import opened Shuffling

  /** A game as sets of cells; `ticks` counts the timer since the game ended. */
  datatype View = View(mines: set<Cell>, revealed: set<Cell>, marked: set<Cell>, cursor: Cell, over: bool, won: bool,
    ticks: nat)

  const CELLS := 80

  /** The cells without a mine: 10 * 8 - 12. */
  const SAFE_COUNT := 68

  /** How many ticks the result of a game is shown. */
  const RESULT_DURATION := 5000

  ghost function Board(): set<Cell> {
    set x, y | 0 <= x < COLUMNS && 0 <= y < ROWS :: Cell(x, y)
  }

  ghost function Hidden(v: View): set<Cell> {
    Board() - v.revealed - v.marked
  }

  ghost function Reveal(v: View, start: Cell): View {
    if start !in Hidden(v) then v
    else
      v.(revealed := v.revealed + ReachedFrom(v.mines, Hidden(v), start), over := v.over || start in v.mines,
         ticks := if start in v.mines then 0 else v.ticks)
  }

  // ----- The moves -----

  ghost function NewGame(mines: set<Cell>): View {
    View(mines, {}, {}, Cell(5, 4), false, false, 0)
  }

  ghost function Mark(v: View, c: Cell): View {
    if c in v.revealed then v
    else v.(marked := if c in v.marked then v.marked - {c} else v.marked + {c})
  }

  /** A game is won when it is not lost and as many cells are revealed as there are safe ones. */
  ghost function Checked(v: View): View {
    if !v.over && !v.won && |v.revealed| >= SAFE_COUNT then v.(won := true, ticks := 0) else v
  }

  /** One tick of the timer; `mines` is the layout of the next game. */
  ghost function Ticked(v: View, mines: set<Cell>): View {
    var c := Checked(v);
    if !c.over && !c.won then c
    else if c.ticks + 1 >= RESULT_DURATION then NewGame(mines)
    else c.(ticks := c.ticks + 1)
  }

  ghost function Move(v: View, key: char): View {
    if key == 'w' && v.cursor.y != 0 then v.(cursor := Cell(v.cursor.x, v.cursor.y - 1))
    else if key == 's' && v.cursor.y + 1 < ROWS then v.(cursor := Cell(v.cursor.x, v.cursor.y + 1))
    else if key == 'a' && v.cursor.x != 0 then v.(cursor := Cell(v.cursor.x - 1, v.cursor.y))
    else if key == 'd' && v.cursor.x + 1 < COLUMNS then v.(cursor := Cell(v.cursor.x + 1, v.cursor.y))
    else if key == ' ' || key == '\n' || key == 'x' || key == 'X' then Reveal(v, v.cursor)
    else if key == 'f' || key == 'F' then Mark(v, v.cursor)
    else v
  }

  ghost function PressKey(v: View, key: char, mines: set<Cell>): View {
    if key == 'r' || key == 'R' then NewGame(mines)
    else if v.over || v.won then v
    else Checked(Move(v, key))
  }

  /** What the buttons of the mouse do at the cell under it. */
  ghost function Pressed(v: View, buttons: nat): View {
    if buttons % 2 != 0 then Reveal(v, v.cursor)
    else if buttons / 2 % 2 != 0 then Mark(v, v.cursor)
    else v
  }

  ghost function ClickHere(v: View, buttons: nat, previousButtons: nat): View {
    if v.over || v.won || buttons == previousButtons then v else Checked(Pressed(v, buttons))
  }

  /** A mouse event at a pixel offset from the corner of the board. */
  ghost function Click(v: View, dx: int, dy: int, buttons: nat, previousButtons: nat): View {
    if dx < 0 || dy < 0 || dx >= 320 || dy >= 256 then v
    else
      var moved := v.(cursor := Cell(dx / 32, dy / 32));
      ClickHere(moved, buttons, previousButtons)
  }

  // ----- Laying the mines -----

  function Positions(): (s: seq<nat>)
    ensures |s| == CELLS
  {
    seq(CELLS, (k: nat) => k)
  }

  function CellAt(position: nat): Cell {
    Cell(position % COLUMNS, position / COLUMNS)
  }

  function Arranged(draws: seq<nat>): (s: seq<nat>)
    requires |draws| == CELLS && DrawsOk(draws)
    ensures |s| == CELLS
  {
    ShuffleFrom(Positions(), draws, 79)
  }

  function MinesFrom(draws: seq<nat>): set<Cell>
    requires |draws| == CELLS && DrawsOk(draws)
  {
    set k: nat | k < MINE_COUNT :: CellAt(Arranged(draws)[k])
  }

  lemma ArrangedCells(draws: seq<nat>, k: nat)
    requires |draws| == CELLS && DrawsOk(draws) && k < CELLS
    ensures Arranged(draws)[k] < CELLS && OnBoard(CellAt(Arranged(draws)[k]))
    ensures forall j :: 0 <= j < CELLS && j != k ==> Arranged(draws)[j] != Arranged(draws)[k]
  {
    ShufflePermutes(Positions(), draws, 79);
    assert Arranged(draws)[k] in multiset(Arranged(draws));
    assert Arranged(draws)[k] in Positions();
  }

  lemma OtherCell(a: nat, b: nat)
    requires a != b
    ensures CellAt(a) != CellAt(b)
  {
  }

  /** The first `n` positions of an arrangement are `n` different cells. */
  lemma {:induction false} DistinctMines(draws: seq<nat>, n: nat)
    requires |draws| == CELLS && DrawsOk(draws) && n <= CELLS
    ensures |set k: nat | k < n :: CellAt(Arranged(draws)[k])| == n
  {
    hide Arranged;
    hide CellAt;
    var all := set k: nat | k < n :: CellAt(Arranged(draws)[k]);
    if n > 0 {
      DistinctMines(draws, n - 1);
      var fewer := set k: nat | k < n - 1 :: CellAt(Arranged(draws)[k]);
      var last := CellAt(Arranged(draws)[n - 1]);
      assert all == fewer + {last};
      forall k: nat | k < n - 1 ensures CellAt(Arranged(draws)[k]) != last {
        ArrangedCells(draws, k);
        OtherCell(Arranged(draws)[k], Arranged(draws)[n - 1]);
      }
    }
  }

  /** Every layout is twelve different cells of the board. */
  lemma MineLayout(draws: seq<nat>)
    requires |draws| == CELLS && DrawsOk(draws)
    ensures |MinesFrom(draws)| == MINE_COUNT && MinesFrom(draws) <= Board()
  {
    DistinctMines(draws, MINE_COUNT);
    forall c | c in MinesFrom(draws) ensures c in Board() {
      var k: nat :| k < MINE_COUNT && c == CellAt(Arranged(draws)[k]);
      ArrangedCells(draws, k);
    }
  }

  method Shuffle(cells: array<nat>, draws: seq<nat>)
    requires |draws| == cells.Length > 0 && DrawsOk(draws)
    modifies cells
    ensures cells[..] == ShuffleFrom(old(cells[..]), draws, cells.Length - 1)
  {
    var index := cells.Length - 1;
    while index > 0
      invariant 0 <= index < cells.Length
      invariant ShuffleFrom(cells[..], draws, index) == ShuffleFrom(old(cells[..]), draws, cells.Length - 1)
    {
      var swapIndex := draws[index];
      ghost var before := cells[..];
      var temp := cells[index];
      cells[index] := cells[swapIndex];
      cells[swapIndex] := temp;
      assert cells[..] == Swap(before, index, swapIndex);
      index := index - 1;
    }
  }

  // ----- What every game keeps -----

  ghost predicate Playing(v: View) {
    && v.mines <= Board() && |v.mines| == MINE_COUNT
    && v.revealed <= Board() && v.marked <= Board() && v.revealed !! v.marked
    && v.cursor in Board()
    && (v.over <==> v.revealed * v.mines != {})
    && (v.won <==> v.revealed == Board() - v.mines)
  }

  /** The first `n` cells, row by row. */
  ghost function FirstCells(n: nat): set<Cell> {
    if n == 0 then {} else FirstCells(n - 1) + {CellAt(n - 1)}
  }

  lemma {:induction false} FirstCellsMember(n: nat, c: Cell)
    ensures c in FirstCells(n) <==> 0 <= c.x < COLUMNS && 0 <= c.y && COLUMNS * c.y + c.x < n
  {
    if n > 0 {
      FirstCellsMember(n - 1, c);
    }
  }

  lemma {:induction false} FirstCellsSize(n: nat)
    ensures |FirstCells(n)| == n
  {
    hide CellAt;
    if n > 0 {
      FirstCellsSize(n - 1);
      FirstCellsMember(n - 1, CellAt(n - 1));
      CellAtPlace(n - 1);
    }
  }

  lemma CellAtPlace(k: nat)
    ensures COLUMNS * CellAt(k).y + CellAt(k).x == k
  {
  }

  lemma BoardIsFirstCells(n: nat)
    requires n == CELLS
    ensures Board() == FirstCells(n)
  {
    forall c ensures c in Board() <==> c in FirstCells(n) {
      FirstCellsMember(n, c);
    }
  }

  lemma BoardSizeOf(n: nat)
    requires n == CELLS
    ensures |Board()| == n
  {
    hide FirstCells;
    BoardIsFirstCells(n);
    FirstCellsSize(n);
  }

  lemma BoardSize()
    ensures |Board()| == CELLS
  {
    BoardSizeOf(CELLS);
  }

  /** As long as no mine is revealed, counting the revealed cells decides whether all safe ones are. */
  lemma CountDecides(v: View)
    requires v.mines <= Board() && |v.mines| == MINE_COUNT && v.revealed <= Board() - v.mines
    ensures |v.revealed| >= SAFE_COUNT <==> v.revealed == Board() - v.mines
  {
    BoardSize();
    assert |Board() - v.mines| == SAFE_COUNT;
    if |v.revealed| >= SAFE_COUNT {
      SubsetSize(v.revealed, Board() - v.mines);
    }
  }

  lemma NewGamePlays(mines: set<Cell>)
    requires mines <= Board() && |mines| == MINE_COUNT
    ensures Playing(NewGame(mines))
  {
    assert Cell(5, 4) in Board();
    CountDecides(NewGame(mines));
  }

  lemma NoneInBoth<T>(a: set<T>, b: set<T>)
    requires a * b == {}
    ensures forall c :: c in a ==> c !in b
  {
    assert forall c :: c in a && c in b ==> c in a * b;
  }

  lemma CheckedPlays(v: View)
    requires Playing(v.(won := v.revealed == Board() - v.mines)) && !v.won
    ensures Playing(Checked(v))
  {
    if !v.over {
      NoneInBoth(v.revealed, v.mines);
      CountDecides(v);
    } else {
      assert (Board() - v.mines) * v.mines == {};
    }
  }

  /** A tick begins with a check that finds nothing new. */
  lemma TickKeepsPlaying(v: View, mines: set<Cell>)
    requires Playing(v) && mines <= Board() && |mines| == MINE_COUNT
    ensures Checked(v) == v && Playing(Ticked(v, mines))
    ensures Ticked(v, mines) ==
      if !v.over && !v.won then v else if v.ticks + 1 >= RESULT_DURATION then NewGame(mines)
      else v.(ticks := v.ticks + 1)
  {
    hide Playing;
    hide Checked;
    hide Board;
    hide NewGame;
    WonIsChecked(v);
    NewGamePlays(mines);
    TicksPlay(v, v.ticks + 1);
  }

  /** Between moves a check for a win finds nothing new. */
  lemma WonIsChecked(v: View)
    requires Playing(v)
    ensures Checked(v) == v
  {
    if !v.over {
      NoneInBoth(v.revealed, v.mines);
      CountDecides(v);
    }
  }

  lemma RevealPlays(v: View, c: Cell)
    requires Playing(v) && !v.over && !v.won && c in Board()
    ensures var r := Reveal(v, c); !r.won && Playing(r.(won := r.revealed == Board() - r.mines))
  {
    if c in Hidden(v) {
      ReachStart(v.mines, Hidden(v), c);
      forall d | d in ReachedFrom(v.mines, Hidden(v), c) ensures d in v.mines ==> d == c {
        ReachedIsSafe(v.mines, Hidden(v), c, d);
      }
      var r := Reveal(v, c);
      assert c in r.revealed;
      assert c in v.mines ==> c in r.revealed * r.mines;
      assert c !in v.mines ==> r.revealed * r.mines == {};
    }
  }

  /** Every key press keeps the game in a state where lost means a mine is revealed, won means
      exactly the safe cells are, and no cell is both marked and revealed. */
  lemma KeyKeepsPlaying(v: View, key: char, mines: set<Cell>)
    requires Playing(v) && mines <= Board() && |mines| == MINE_COUNT
    ensures Playing(PressKey(v, key, mines))
  {
    if key == 'r' || key == 'R' {
      NewGamePlays(mines);
    } else if !v.over && !v.won {
      if key == ' ' || key == '\n' || key == 'x' || key == 'X' {
        RevealPlays(v, v.cursor);
      }
      CheckedPlays(Move(v, key));
    }
  }

  lemma ClickKeepsPlaying(v: View, dx: int, dy: int, buttons: nat, previousButtons: nat)
    requires Playing(v)
    ensures Playing(Click(v, dx, dy, buttons, previousButtons))
  {
    if 0 <= dx < 320 && 0 <= dy < 256 {
      var moved := v.(cursor := Cell(dx / 32, dy / 32));
      if !v.over && !v.won && buttons != previousButtons {
        RevealPlays(moved, moved.cursor);
        CheckedPlays(Pressed(moved, buttons));
      }
    }
  }

  // ----- Whole games -----

  /** What can happen to a game; `draws` are the random values a restart uses. */
  datatype Event =
    | Typed(key: char, draws: seq<nat>)
    | Clicked(dx: int, dy: int, buttons: nat, previousButtons: nat)
    | Expired(draws: seq<nat>)

  predicate EventOk(e: Event) {
    !e.Clicked? ==> |e.draws| == CELLS && DrawsOk(e.draws)
  }

  ghost function Happen(v: View, e: Event): View
    requires EventOk(e)
  {
    match e
    case Typed(key, draws) => PressKey(v, key, MinesFrom(draws))
    case Clicked(dx, dy, buttons, previousButtons) => Click(v, dx, dy, buttons, previousButtons)
    case Expired(draws) => Ticked(v, MinesFrom(draws))
  }

  ghost function Run(v: View, events: seq<Event>): View
    requires forall e :: e in events ==> EventOk(e)
    decreases |events|
  {
    if events == [] then v else Run(Happen(v, events[0]), events[1..])
  }

  /** After any run: twelve mines, nothing both marked and revealed, lost exactly when a mine is
      revealed, won exactly when the safe cells are what is revealed. */
  lemma {:induction false} EveryGame(v: View, events: seq<Event>)
    requires Playing(v)
    requires forall e :: e in events ==> EventOk(e)
    ensures Playing(Run(v, events))
    decreases |events|
  {
    hide Playing;
    hide Board;
    hide MinesFrom;
    if events != [] {
      var e := events[0];
      assert EventOk(e);
      match e {
        case Typed(key, draws) =>
          MineLayout(draws);
          KeyKeepsPlaying(v, key, MinesFrom(draws));
        case Clicked(dx, dy, buttons, previousButtons) =>
          ClickKeepsPlaying(v, dx, dy, buttons, previousButtons);
        case Expired(draws) =>
          MineLayout(draws);
          TickKeepsPlaying(v, MinesFrom(draws));
      }
      EveryGame(Happen(v, e), events[1..]);
    }
  }

  lemma TicksPlay(v: View, n: nat)
    requires Playing(v)
    ensures Playing(v.(ticks := n))
  {
  }

  /** Ticks in a run. */
  function TickCount(events: seq<Event>): nat {
    if events == [] then 0 else (if events[0].Expired? then 1 else 0) + TickCount(events[1..])
  }

  predicate Restarts(e: Event) {
    e.Typed? && (e.key == 'r' || e.key == 'R')
  }

  /** Whatever ends a game, its timer begins at zero. */
  lemma EndsAtZero(v: View, e: Event)
    requires Playing(v) && !v.over && !v.won && EventOk(e)
    ensures var r := Happen(v, e); r.over || r.won ==> r.ticks == 0
  {
    hide MinesFrom;
    hide Board;
    WonIsChecked(v);
    hide Playing;
  }

  /** A finished game that the player does not restart keeps its board until the time is up. */
  lemma {:induction false} ResultStays(v: View, events: seq<Event>)
    requires Playing(v) && (v.over || v.won)
    requires forall e :: e in events ==> EventOk(e) && !Restarts(e)
    requires v.ticks + TickCount(events) < RESULT_DURATION
    ensures var r := Run(v, events); r == v.(cursor := r.cursor, ticks := v.ticks + TickCount(events)) && Playing(r)
    decreases |events|
  {
    hide Playing;
    hide Board;
    hide MinesFrom;
    hide Reveal;
    EveryGame(v, events);
    if events != [] {
      var e := events[0];
      assert EventOk(e) && !Restarts(e);
      var next := Happen(v, e);
      if e.Expired? {
        TicksPlay(v, v.ticks + 1);
      } else if e.Clicked? {
        ClickKeepsPlaying(v, e.dx, e.dy, e.buttons, e.previousButtons);
      }
      ResultStays(next, events[1..]);
    }
  }

  /** Without a restart by hand, the tick that starts the next game is the 5000th since the game ended,
      and no earlier one. */
  lemma RestartsAfter5000(v: View, events: seq<Event>, draws: seq<nat>)
    requires Playing(v) && (v.over || v.won) && v.ticks == 0
    requires forall e :: e in events ==> EventOk(e) && !Restarts(e)
    requires TickCount(events) < RESULT_DURATION && EventOk(Expired(draws))
    ensures var r := Run(v, events);
      && (r.over || r.won) && r.revealed == v.revealed && r.mines == v.mines
      && (TickCount(events) == RESULT_DURATION - 1 ==> Happen(r, Expired(draws)) == NewGame(MinesFrom(draws)))
  {
    hide Playing;
    hide MinesFrom;
    ResultStays(v, events);
  }

  class Game {
    const mines: array2<bool>
    const revealed: array2<bool>
    const marked: array2<bool>
    var cursorX: nat
    var cursorY: nat
    var revealedCount: nat
    var markedCount: nat
    var gameOver: bool
    var gameWon: bool
    var resultTicks: nat

    ghost predicate Allocated() {
      && mines.Length0 == revealed.Length0 == marked.Length0 == ROWS
      && mines.Length1 == revealed.Length1 == marked.Length1 == COLUMNS
      && mines != revealed && revealed != marked && mines != marked
    }

    ghost function CellsOf(a: array2<bool>): (cells: set<Cell>)
      requires a.Length0 == ROWS && a.Length1 == COLUMNS
      reads a
      ensures forall c :: c in cells <==> OnBoard(c) && a[c.y, c.x]
    {
      set x, y | 0 <= x < COLUMNS && 0 <= y < ROWS && a[y, x] :: Cell(x, y)
    }

    ghost function ViewOf(): View
      requires Allocated()
      reads this, mines, revealed, marked
    {
      View(CellsOf(mines), CellsOf(revealed), CellsOf(marked), Cell(cursorX, cursorY), gameOver, gameWon, resultTicks)
    }

    /** By how much the counter differs from the number of revealed cells; always zero in a game. */
    ghost function Drift(): int
      requires Allocated()
      reads this`revealedCount, revealed
    {
      revealedCount - |CellsOf(revealed)|
    }

    /** Uncovers a cell and, when it is clear, its neighbours in turn. */
    method RevealCell(x: nat, y: nat)
      requires Allocated()
      modifies this`revealedCount, this`gameOver, this`resultTicks, revealed
      ensures ViewOf() == Reveal(old(ViewOf()), Cell(x, y))
      ensures Drift() == old(Drift())
      decreases Board() - CellsOf(revealed), 0
    {
      hide CellsOf;
      hide Board;
      hide Clear;
      hide Reveal;
      hide Hidden;
      hide Drift;
      ghost var before := ViewOf();
      IsHidden(x, y);
      if x >= COLUMNS || y >= ROWS || revealed[y, x] || marked[y, x] {
        return;
      }
      Uncover(x, y);
      if mines[y, x] {
        gameOver := true;
        resultTicks := 0;
        RevealStops(before, Cell(x, y));
        return;
      }
      var adjacent := AdjacentMines(x, y);
      if adjacent == 0 {
        RevealNeighbours(x, y, before);
      } else {
        RevealStops(before, Cell(x, y));
      }
    }

    lemma IsHidden(x: nat, y: nat)
      requires Allocated()
      ensures Cell(x, y) in Hidden(ViewOf()) <==> x < COLUMNS && y < ROWS && !revealed[y, x] && !marked[y, x]
      ensures Cell(x, y) in Hidden(ViewOf()) ==> Cell(x, y) in Board() - CellsOf(revealed)
      ensures Cell(x, y) !in Hidden(ViewOf()) ==> Reveal(ViewOf(), Cell(x, y)) == ViewOf()
    {
      hide ReachedFrom;
    }

    method Uncover(x: nat, y: nat)
      requires Allocated() && x < COLUMNS && y < ROWS && !revealed[y, x]
      modifies this`revealedCount, revealed
      ensures CellsOf(revealed) == old(CellsOf(revealed)) + {Cell(x, y)}
      ensures Drift() == old(Drift())
    {
      revealed[y, x] := true;
      revealedCount := revealedCount + 1;
      assert CellsOf(revealed) == old(CellsOf(revealed)) + {Cell(x, y)};
    }

    /** The loop over the nine cells around a clear cell. */
    method RevealNeighbours(x: nat, y: nat, ghost before: View)
      requires Allocated() && x < COLUMNS && y < ROWS
      requires ViewOf() == before.(revealed := before.revealed + {Cell(x, y)})
      requires Cell(x, y) in Hidden(before) && Clear(before.mines, Cell(x, y))
      modifies this`revealedCount, this`gameOver, this`resultTicks, revealed
      ensures ViewOf() == Reveal(before, Cell(x, y))
      ensures Drift() == old(Drift())
      decreases Board() - CellsOf(revealed), 1
    {
      hide Drift;
      hide CellsOf;
      hide Board;
      hide Clear;
      hide Reveal;
      hide Hidden;
      hide Partial;
      ghost var start, hidden := Cell(x, y), Hidden(before);
      ghost var done: set<Cell> := {};
      PartialStart(before.mines, hidden, before.revealed, start);
      for row := -1 to 2
        invariant Partial(before.mines, hidden, before.revealed, start, CellsOf(revealed), done)
        invariant ViewOf() == before.(revealed := CellsOf(revealed)) && Drift() == old(Drift())
        invariant ScannedTo(start, row, -1, done)
      {
        for column := -1 to 2
          invariant Partial(before.mines, hidden, before.revealed, start, CellsOf(revealed), done)
          invariant ViewOf() == before.(revealed := CellsOf(revealed)) && Drift() == old(Drift())
          invariant ScannedTo(start, row, column, done)
        {
          var nextX, nextY := x + column, y + row;
          if 0 <= nextX < COLUMNS && 0 <= nextY < ROWS {
            ghost var now, next := CellsOf(revealed), Cell(nextX, nextY);
            NeighbourRevealed(before, start, now, done, next);
            RevealCell(nextX, nextY);
            done := done + {next};
          }
          assert ScannedTo(start, row, column + 1, done);
        }
        assert ScannedTo(start, row + 1, -1, done);
      }
      NeighboursRevealed(before, start, CellsOf(revealed), done);
    }

    /** Counts the mines on and around a cell. */
    method AdjacentMines(x: nat, y: nat) returns (count: nat)
      requires Allocated() && x < COLUMNS && y < ROWS
      ensures count == |set d | d in CellsOf(mines) && Adjacent(Cell(x, y), d)|
      ensures count == 0 <==> Clear(CellsOf(mines), Cell(x, y))
    {
      hide CellsOf;
      hide Clear;
      count := 0;
      ghost var seen: set<Cell> := {};
      for row := -1 to 2
        invariant count == |seen|
        invariant forall d :: d in seen <==> d in CellsOf(mines) && Adjacent(Cell(x, y), d) && d.y - y < row
      {
        for column := -1 to 2
          invariant count == |seen|
          invariant forall d :: d in seen <==>
            d in CellsOf(mines) && Adjacent(Cell(x, y), d) && Passed(d, x, y, row, column)
        {
          var nextX, nextY := x + column, y + row;
          if 0 <= nextX < COLUMNS && 0 <= nextY < ROWS && mines[nextY, nextX] {
            count := count + 1;
            seen := seen + {Cell(nextX, nextY)};
          }
        }
      }
      NoneIsClear(CellsOf(mines), Cell(x, y), seen);
      assert seen == set d | d in CellsOf(mines) && Adjacent(Cell(x, y), d);
    }

    method ClearBoard()
      requires Allocated()
      modifies mines, revealed, marked
      ensures CellsOf(mines) == CellsOf(revealed) == CellsOf(marked) == {}
    {
      for row := 0 to ROWS
        invariant forall x, y :: 0 <= x < COLUMNS && 0 <= y < row ==> !mines[y, x] && !revealed[y, x] && !marked[y, x]
      {
        for column := 0 to COLUMNS
          invariant forall x, y :: 0 <= x < COLUMNS && 0 <= y < row ==> !mines[y, x] && !revealed[y, x] && !marked[y, x]
          invariant forall x :: 0 <= x < column ==> !mines[row, x] && !revealed[row, x] && !marked[row, x]
        {
          mines[row, column] := false;
          revealed[row, column] := false;
          marked[row, column] := false;
        }
      }
      assert CellsOf(mines) == {} && CellsOf(revealed) == {} && CellsOf(marked) == {};
    }

    /** Lays the mines and starts afresh. `draws` are the values of the random generator,
        one for each step of the shuffle. */
    method Init(draws: seq<nat>)
      requires Allocated() && |draws| == CELLS && DrawsOk(draws)
      modifies this, mines, revealed, marked
      ensures ViewOf() == NewGame(MinesFrom(draws))
      ensures revealedCount == 0 && markedCount == 0
    {
      hide CellsOf;
      hide MinesFrom;
      hide Arranged;
      ClearBoard();
      var cells := ShuffledCells(draws);
      PlaceMines(cells, draws);
      cursorX, cursorY := 5, 4;
      revealedCount, markedCount := 0, 0;
      gameOver, gameWon := false, false;
      resultTicks := 0;
    }

    /** All positions in order, then shuffled. */
    method ShuffledCells(draws: seq<nat>) returns (cells: array<nat>)
      requires |draws| == CELLS && DrawsOk(draws)
      ensures fresh(cells) && cells[..] == Arranged(draws)
    {
      hide ShuffleFrom;
      cells := new nat[CELLS];
      for index: nat := 0 to CELLS
        invariant forall k :: 0 <= k < index ==> cells[k] == k
      {
        cells[index] := index;
      }
      assert cells[..] == Positions();
      Shuffle(cells, draws);
    }

    method PlaceMines(cells: array<nat>, ghost draws: seq<nat>)
      requires Allocated() && |draws| == CELLS && DrawsOk(draws) && cells[..] == Arranged(draws)
      requires CellsOf(mines) == {}
      modifies mines
      ensures CellsOf(mines) == MinesFrom(draws)
    {
      forall k: nat | k < CELLS ensures cells[k] < CELLS {
        ArrangedCells(draws, k);
        assert cells[..][k] == cells[k];
      }
      for placed: nat := 0 to MINE_COUNT
        invariant forall c :: OnBoard(c) ==>
          (mines[c.y, c.x] <==> exists k: nat :: k < placed && c == CellAt(Arranged(draws)[k]))
      {
        var position := cells[placed];
        assert position == Arranged(draws)[placed];
        mines[position / COLUMNS, position % COLUMNS] := true;
        assert CellAt(position) == Cell(position % COLUMNS, position / COLUMNS);
      }
      forall c ensures c in CellsOf(mines) <==> c in MinesFrom(draws) {
        if c in MinesFrom(draws) {
          var k: nat :| k < MINE_COUNT && c == CellAt(Arranged(draws)[k]);
          ArrangedCells(draws, k);
        }
      }
    }

    /** A win: every cell but the mines is uncovered. */
    method CheckWin()
      requires Allocated() && revealedCount == |CellsOf(revealed)|
      modifies this`gameWon, this`resultTicks
      ensures ViewOf() == Checked(old(ViewOf()))
    {
      if !gameOver && !gameWon && revealedCount >= SAFE_COUNT {
        gameWon := true;
        resultTicks := 0;
      }
    }

    /** The counters agree with the board and the game is in a state some run leads to. */
    ghost predicate Valid()
      reads this, mines, revealed, marked
    {
      Allocated() && Playing(ViewOf()) && Counters()
    }

    ghost predicate Counters()
      requires Allocated()
      reads this`revealedCount, this`markedCount, revealed, marked
    {
      revealedCount == |CellsOf(revealed)| && markedCount == |CellsOf(marked)|
    }

    /** Sets or takes away the mark on a hidden cell. */
    method ToggleMark(x: nat, y: nat)
      requires Allocated() && x < COLUMNS && y < ROWS && markedCount == |CellsOf(marked)|
      modifies this`markedCount, marked
      ensures ViewOf() == Mark(old(ViewOf()), Cell(x, y))
      ensures markedCount == |CellsOf(marked)|
    {
      if !revealed[y, x] {
        SwitchMark(x, y);
        if marked[y, x] {
          markedCount := markedCount + 1;
        } else if markedCount != 0 {
          markedCount := markedCount - 1;
        }
      }
    }

    method SwitchMark(x: nat, y: nat)
      requires Allocated() && x < COLUMNS && y < ROWS
      modifies marked
      ensures marked[y, x] == !old(marked[y, x])
      ensures var before, c := old(CellsOf(marked)), Cell(x, y);
        CellsOf(marked) == if c in before then before - {c} else before + {c}
      ensures |CellsOf(marked)| == old(|CellsOf(marked)|) + if marked[y, x] then 1 else -1
    {
      ghost var before, c := CellsOf(marked), Cell(x, y);
      marked[y, x] := !marked[y, x];
      assert CellsOf(marked) == if c in before then before - {c} else before + {c};
    }

    /** What a key does while the game is on, before the check for a win. */
    method Act(value: char)
      requires Allocated() && cursorX < COLUMNS && cursorY < ROWS && markedCount == |CellsOf(marked)|
      modifies this, revealed, marked
      ensures ViewOf() == Move(old(ViewOf()), value)
      ensures Drift() == old(Drift()) && markedCount == |CellsOf(marked)|
      ensures cursorX < COLUMNS && cursorY < ROWS
    {
      hide CellsOf;
      hide Reveal;
      hide Mark;
      if value == 'w' && cursorY != 0 {
        cursorY := cursorY - 1;
      } else if value == 's' && cursorY + 1 < ROWS {
        cursorY := cursorY + 1;
      } else if value == 'a' && cursorX != 0 {
        cursorX := cursorX - 1;
      } else if value == 'd' && cursorX + 1 < COLUMNS {
        cursorX := cursorX + 1;
      } else if value == ' ' || value == '\n' || value == 'x' || value == 'X' {
        RevealCell(cursorX, cursorY);
      } else if value == 'f' || value == 'F' {
        ToggleMark(cursorX, cursorY);
      }
    }

    /** What the buttons do while the game is on, before the check for a win. */
    method Press(buttons: nat)
      requires Allocated() && cursorX < COLUMNS && cursorY < ROWS && markedCount == |CellsOf(marked)|
      modifies this, revealed, marked
      ensures ViewOf() == Pressed(old(ViewOf()), buttons)
      ensures Drift() == old(Drift()) && markedCount == |CellsOf(marked)|
      ensures cursorX < COLUMNS && cursorY < ROWS
    {
      hide Reveal;
      if buttons % 2 != 0 {
        RevealCell(cursorX, cursorY);
      } else if buttons / 2 % 2 != 0 && !revealed[cursorY, cursorX] {
        ToggleMark(cursorX, cursorY);
      }
    }

    /** A key press; `draws` is used only by a restart. */
    method Key(value: char, draws: seq<nat>)
      requires Valid() && |draws| == CELLS && DrawsOk(draws)
      modifies this, mines, revealed, marked
      ensures Valid()
      ensures ViewOf() == PressKey(old(ViewOf()), value, MinesFrom(draws))
    {
      hide CellsOf;
      hide MinesFrom;
      hide Move;
      hide Arranged;
      hide Playing;
      hide Board;
      hide Checked;
      CursorInside();
      MineLayout(draws);
      KeyKeepsPlaying(ViewOf(), value, MinesFrom(draws));
      if value == 'r' || value == 'R' {
        Init(draws);
      } else if !gameOver && !gameWon {
        Act(value);
        CheckWin();
      }
    }

    lemma CursorInside()
      requires Valid()
      ensures cursorX < COLUMNS && cursorY < ROWS
    {
      assert ViewOf().cursor in Board();
    }

    /** A mouse event over a board drawn with its corner at `(left, top)`. */
    method Mouse(x: int, y: int, left: int, top: int, buttons: nat, previousButtons: nat)
      requires Valid()
      modifies this, revealed, marked
      ensures Valid()
      ensures ViewOf() == Click(old(ViewOf()), x - left, y - top, buttons, previousButtons)
    {
      hide CellsOf;
      hide Playing;
      hide Board;
      hide ClickHere;
      ClickKeepsPlaying(ViewOf(), x - left, y - top, buttons, previousButtons);
      if x < left || y < top || x >= left + 320 || y >= top + 256 {
        return;
      }
      cursorX, cursorY := (x - left) / 32, (y - top) / 32;
      PressIfChanged(buttons, previousButtons);
    }

    method PressIfChanged(buttons: nat, previousButtons: nat)
      requires Allocated() && cursorX < COLUMNS && cursorY < ROWS && Drift() == 0 && markedCount == |CellsOf(marked)|
      modifies this, revealed, marked
      ensures ViewOf() == ClickHere(old(ViewOf()), buttons, previousButtons)
      ensures Drift() == 0 && markedCount == |CellsOf(marked)|
    {
      hide CellsOf;
      hide Pressed;
      if gameOver || gameWon || buttons == previousButtons {
        return;
      }
      Press(buttons);
      CheckWin();
    }

    /** The timer: a finished game starts again after a while. */
    method Tick(draws: seq<nat>)
      requires Valid() && |draws| == CELLS && DrawsOk(draws)
      modifies this, mines, revealed, marked
      ensures Valid()
      ensures ViewOf() == Ticked(old(ViewOf()), MinesFrom(draws))
    {
      hide CellsOf;
      hide MinesFrom;
      hide Arranged;
      hide Board;
      hide Playing;
      hide Checked;
      hide NewGame;
      hide Ticked;
      assert revealedCount == |CellsOf(revealed)|;
      hide Counters;
      MineLayout(draws);
      TickKeepsPlaying(ViewOf(), MinesFrom(draws));
      CheckWin();
      if gameOver || gameWon {
        ShowResult(draws);
      }
    }

    method ShowResult(draws: seq<nat>)
      requires Allocated() && Counters() && |draws| == CELLS && DrawsOk(draws)
      modifies this, mines, revealed, marked
      ensures Counters()
      ensures ViewOf() ==
        if old(resultTicks) + 1 >= RESULT_DURATION then NewGame(MinesFrom(draws))
        else old(ViewOf()).(ticks := old(resultTicks) + 1)
    {
      hide CellsOf;
      hide MinesFrom;
      resultTicks := resultTicks + 1;
      if resultTicks >= RESULT_DURATION {
        Init(draws);
      }
    }
  }

  /** Whether the scan around `(x, y)` has passed `d` when it reaches `(row, column)`. */
  predicate Passed(d: Cell, x: int, y: int, row: int, column: int) {
    d.y - y < row || (d.y - y == row && d.x - x < column)
  }

  /** All neighbours of `c` that the scan has passed are in `done`. */
  ghost predicate ScannedTo(c: Cell, row: int, column: int, done: set<Cell>) {
    forall d :: OnBoard(d) && Adjacent(c, d) && Passed(d, c.x, c.y, row, column) ==> d in done
  }

  /** A mine, or a cell next to one, is uncovered alone. */
  lemma RevealStops(v: View, start: Cell)
    requires start in Hidden(v) && (start in v.mines || !Clear(v.mines, start))
    ensures Reveal(v, start) == v.(revealed := v.revealed + {start}, over := v.over || start in v.mines,
      ticks := if start in v.mines then 0 else v.ticks)
  {
    hide ReachedFrom;
    ReachStops(v.mines, Hidden(v), start);
  }

  /** Revealing one neighbour of a clear cell brings the reveal of that cell one neighbour on. */
  lemma NeighbourRevealed(before: View, start: Cell, now: set<Cell>, done: set<Cell>, next: Cell)
    requires Partial(before.mines, Hidden(before), before.revealed, start, now, done)
    requires start in Hidden(before) && Clear(before.mines, start) && Adjacent(start, next)
    ensures var v := Reveal(before.(revealed := now), next);
      && v == before.(revealed := v.revealed)
      && Partial(before.mines, Hidden(before), before.revealed, start, v.revealed, done + {next})
    ensures before.revealed + {start} <= now
  {
    hide ReachedFrom;
    PartialNext(before.mines, Hidden(before), before.revealed, start, now, done, next);
    SafeNeighbour(before.mines, start, next);
    assert Hidden(before.(revealed := now)) == Hidden(before) - now;
  }

  lemma NeighboursRevealed(before: View, start: Cell, now: set<Cell>, done: set<Cell>)
    requires Partial(before.mines, Hidden(before), before.revealed, start, now, done)
    requires start in Hidden(before) && Clear(before.mines, start)
    requires ScannedTo(start, 2, -1, done)
    ensures Reveal(before, start) == before.(revealed := now)
  {
    PartialComplete(before.mines, Hidden(before), before.revealed, start, now, done);
    SafeNeighbour(before.mines, start, start);
  }

  lemma NoneIsClear(mines: set<Cell>, c: Cell, seen: set<Cell>)
    requires forall d :: d in seen <==> d in mines && Adjacent(c, d)
    ensures |seen| == 0 <==> Clear(mines, c)
  {
    if seen != {} {
      var d :| d in seen;
    }
  }

  lemma SafeNeighbour(mines: set<Cell>, c: Cell, d: Cell)
    requires Clear(mines, c) && Adjacent(c, d)
    ensures d !in mines
  {
  }
}
