/** The Minesweeper board of apps/minesweeper.c and the cells a reveal may uncover. */
module Flood {

  const COLUMNS := 10
  const ROWS := 8
  const MINE_COUNT := 12

  datatype Cell = Cell(x: int, y: int)

  predicate OnBoard(c: Cell) {
    0 <= c.x < COLUMNS && 0 <= c.y < ROWS
  }

  /** Neighbouring cells; a cell is its own neighbour. */
  predicate Adjacent(c: Cell, d: Cell) {
    -1 <= c.x - d.x <= 1 && -1 <= c.y - d.y <= 1
  }

  /** No mine on the cell or next to it. */
  predicate Clear(mines: set<Cell>, c: Cell) {
    forall d :: d in mines ==> !Adjacent(c, d)
  }

  /** A way from `start` through hidden cells, each step from a clear cell to a neighbour. */
  predicate IsPath(mines: set<Cell>, hidden: set<Cell>, start: Cell, path: seq<Cell>) {
    && 0 < |path| && path[0] == start
    && (forall k :: 0 <= k < |path| ==> path[k] in hidden)
    && (forall k :: 0 <= k < |path| - 1 ==> Clear(mines, path[k]) && Adjacent(path[k], path[k + 1]))
  }

  ghost predicate Reached(mines: set<Cell>, hidden: set<Cell>, start: Cell, c: Cell) {
    exists path :: IsPath(mines, hidden, start, path) && path[|path| - 1] == c
  }

  /** Everything reached from a cell. */
  ghost function ReachedFrom(mines: set<Cell>, hidden: set<Cell>, start: Cell): set<Cell> {
    set c | c in hidden && Reached(mines, hidden, start, c)
  }

  lemma ReachStart(mines: set<Cell>, hidden: set<Cell>, start: Cell)
    requires start in hidden
    ensures Reached(mines, hidden, start, start)
  {
    assert IsPath(mines, hidden, start, [start]);
  }

  /** A reached cell that is clear reaches its hidden neighbours. */
  lemma ReachNext(mines: set<Cell>, hidden: set<Cell>, start: Cell, c: Cell, d: Cell)
    requires Reached(mines, hidden, start, c) && Clear(mines, c) && Adjacent(c, d) && d in hidden
    ensures Reached(mines, hidden, start, d)
  {
    var path :| IsPath(mines, hidden, start, path) && path[|path| - 1] == c;
    assert IsPath(mines, hidden, start, path + [d]);
    assert (path + [d])[|path + [d]| - 1] == d;
  }

  /** What a clear cell's neighbour reaches through fewer hidden cells, the cell reaches too. */
  lemma ReachThrough(mines: set<Cell>, hidden: set<Cell>, start: Cell, fewer: set<Cell>, next: Cell, c: Cell)
    requires start in hidden && Clear(mines, start) && Adjacent(start, next) && fewer <= hidden
    requires Reached(mines, fewer, next, c)
    ensures Reached(mines, hidden, start, c)
  {
    var path :| IsPath(mines, fewer, next, path) && path[|path| - 1] == c;
    var longer := [start] + path;
    assert forall k :: 0 <= k < |longer| - 1 ==> Clear(mines, longer[k]) && Adjacent(longer[k], longer[k + 1]);
    assert IsPath(mines, hidden, start, longer);
    assert longer[|longer| - 1] == c;
  }

  /** A set that holds `start` and all hidden neighbours of its clear cells holds everything reached. */
  lemma {:induction false} ClosedHoldsPath(mines: set<Cell>, hidden: set<Cell>, start: Cell, closed: set<Cell>,
      path: seq<Cell>)
    requires start in closed && IsPath(mines, hidden, start, path)
    requires forall c, d :: c in closed && Clear(mines, c) && Adjacent(c, d) && d in hidden ==> d in closed
    ensures path[|path| - 1] in closed
  {
    if |path| > 1 {
      var shorter := path[..|path| - 1];
      assert IsPath(mines, hidden, start, shorter);
      ClosedHoldsPath(mines, hidden, start, closed, shorter);
      assert Adjacent(path[|path| - 2], path[|path| - 1]);
    }
  }

  lemma ClosedHoldsReached(mines: set<Cell>, hidden: set<Cell>, start: Cell, closed: set<Cell>)
    requires start in closed
    requires forall c, d :: c in closed && Clear(mines, c) && Adjacent(c, d) && d in hidden ==> d in closed
    ensures ReachedFrom(mines, hidden, start) <= closed
  {
    forall c | c in ReachedFrom(mines, hidden, start) ensures c in closed {
      var path :| IsPath(mines, hidden, start, path) && path[|path| - 1] == c;
      ClosedHoldsPath(mines, hidden, start, closed, path);
    }
  }

  /** Past the first cell nothing reached is a mine. */
  lemma ReachedIsSafe(mines: set<Cell>, hidden: set<Cell>, start: Cell, c: Cell)
    requires Reached(mines, hidden, start, c)
    ensures c in mines ==> c == start
  {
    var path :| IsPath(mines, hidden, start, path) && path[|path| - 1] == c;
    if |path| > 1 {
      assert Clear(mines, path[|path| - 2]) && Adjacent(path[|path| - 2], path[|path| - 1]);
    }
  }

  /** From a cell that is not clear nothing else is reached. */
  lemma ReachStops(mines: set<Cell>, hidden: set<Cell>, start: Cell)
    requires start in hidden && !Clear(mines, start)
    ensures ReachedFrom(mines, hidden, start) == {start}
  {
    ReachStart(mines, hidden, start);
    ClosedHoldsReached(mines, hidden, start, {start});
  }

  // ----- Progress through the neighbours of a clear cell -----

  /** Halfway through: `now` holds only what `start` reaches, is closed apart from `start`
      itself, and holds those neighbours of `start` in `done`. */
  ghost predicate Partial(mines: set<Cell>, hidden: set<Cell>, before: set<Cell>, start: Cell, now: set<Cell>,
      done: set<Cell>) {
    && before + {start} <= now <= before + ReachedFrom(mines, hidden, start)
    && (forall c, d :: c in now - before && c != start && Clear(mines, c) && Adjacent(c, d) && d in hidden ==> d in now)
    && (forall d :: d in done && d in hidden ==> d in now)
  }

  /** Revealing one more neighbour. */
  lemma PartialNext(mines: set<Cell>, hidden: set<Cell>, before: set<Cell>, start: Cell,
                    now: set<Cell>, done: set<Cell>, next: Cell)
    requires Partial(mines, hidden, before, start, now, done)
    requires start in hidden && hidden !! before && Clear(mines, start) && Adjacent(start, next)
    ensures next !in hidden - now ==> Partial(mines, hidden, before, start, now, done + {next})
    ensures next in hidden - now ==>
      Partial(mines, hidden, before, start, now + ReachedFrom(mines, hidden - now, next), done + {next})
  {
    if next in hidden - now {
      var more := ReachedFrom(mines, hidden - now, next);
      ReachStart(mines, hidden - now, next);
      forall c | c in more ensures c in ReachedFrom(mines, hidden, start) {
        ReachThrough(mines, hidden, start, hidden - now, next, c);
      }
      forall c, d | c in now + more - before && c != start && Clear(mines, c) && Adjacent(c, d) && d in hidden
        ensures d in now + more
      {
        if c in more && d !in now {
          ReachNext(mines, hidden - now, next, c, d);
        }
      }
    }
  }

  /** When every neighbour is done, everything reached is there. */
  lemma PartialComplete(mines: set<Cell>, hidden: set<Cell>, before: set<Cell>, start: Cell, now: set<Cell>,
      done: set<Cell>)
    requires Partial(mines, hidden, before, start, now, done)
    requires start in hidden && hidden !! before && forall d :: d in hidden && Adjacent(start, d) ==> d in done
    ensures now == before + ReachedFrom(mines, hidden, start)
  {
    ClosedHoldsReached(mines, hidden, start, now - before);
  }

  lemma PartialStart(mines: set<Cell>, hidden: set<Cell>, before: set<Cell>, start: Cell)
    requires start in hidden
    ensures Partial(mines, hidden, before, start, before + {start}, {})
  {
    ReachStart(mines, hidden, start);
  }
}
