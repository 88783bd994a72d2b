/** The terminal program of life_game.py: its own copy of the bounded
    step rule, and the bookkeeping of `run` that decides when a game is
    dead (no live cell, or a live count that stopped changing) and either
    restarts with a fresh board or stops. */
module LifeGame {
  import Core

  datatype Option<T> = None | Some(value: T)

  /** Why a game that is not restarted comes to an end. */
  datatype DeadReason = AllCellsDead | StagnationDetected

  /** What one pass of the main loop did. */
  datatype Outcome = Advanced | Restarted | Stopped(reason: DeadReason)

  /** A board of exactly `rows` rows of `cols` cells, the shape
      `create_board` builds. */
  predicate IsGrid(board: Core.Board, rows: nat, cols: nat) {
    |board| == rows && forall r :: 0 <= r < |board| ==> |board[r]| == cols
  }

  // ---------------------------------------------------------------------
  // The step rule (no wrap-around)

  /** The live neighbours of (r, c), by the nested offset loops of
      `next_generation`; a neighbour off the board is skipped. */
  method CountBoundedNeighbours(board: Core.Board, r: int, c: int) returns (live: nat)
    requires Core.WellFormed(board) && 0 <= r < |board| && 0 <= c < |board[0]|
    ensures live == Core.NeighbourCount(board, r, c, false)
  {
    var rows, cols := |board|, |board[0]|;
    live := 0;
    for dr := -1 to 2
      invariant live == Core.CountOver(board, r, c, Core.Offsets()[..Core.Visited(dr, -1)], false)
    {
      for dc := -1 to 2
        invariant live == Core.CountOver(board, r, c, Core.Offsets()[..Core.Visited(dr, dc)], false)
      {
        if dr == 0 && dc == 0 {
          continue;
        }
        Core.OffsetAt(dr, dc);
        Core.CountOverSnoc(board, r, c, Core.Offsets(), Core.Visited(dr, dc), false);
        var nr, nc := r + dr, c + dc;
        if 0 <= nr < rows && 0 <= nc < cols && board[nr][nc] {
          live := live + 1;
        }
      }
    }
    assert Core.Offsets()[..Core.Visited(2, -1)] == Core.Offsets();
  }

  /** `next_generation` of life_game.py: the same B3/S23 step as core.py
      with wrap-around switched off. */
  method NextGeneration(board: Core.Board) returns (next: Core.Board)
    requires Core.WellFormed(board)
    ensures next == Core.Next(board, false)
  {
    var rows, cols := |board|, |board[0]|;
    next := seq(rows, _ => seq(cols, _ => false));
    for r := 0 to rows
      invariant |next| == rows && forall i :: 0 <= i < rows ==> |next[i]| == cols
      invariant forall i, j :: 0 <= i < r && 0 <= j < cols ==>
        next[i][j] == Core.Rule(board[i][j], Core.NeighbourCount(board, i, j, false))
    {
      for c := 0 to cols
        invariant |next| == rows && forall i :: 0 <= i < rows ==> |next[i]| == cols
        invariant forall i, j :: 0 <= i < r && 0 <= j < cols ==>
          next[i][j] == Core.Rule(board[i][j], Core.NeighbourCount(board, i, j, false))
        invariant forall j :: 0 <= j < c ==>
          next[r][j] == Core.Rule(board[r][j], Core.NeighbourCount(board, r, j, false))
      {
        var live := CountBoundedNeighbours(board, r, c);
        var cell := if board[r][c] then live == 2 || live == 3 else live == 3;
        next := next[r := next[r][c := cell]];
      }
    }
    assert forall i :: 0 <= i < rows ==> next[i] == Core.Next(board, false)[i];
  }

  // ---------------------------------------------------------------------
  // The live-cell count

  /** The live cells of one row. */
  function RowPopulation(row: seq<bool>): (n: nat)
    ensures n <= |row|
  {
    if row == [] then 0 else (if row[0] then 1 else 0) + RowPopulation(row[1..])
  }

  /** The live cells of the whole board, row by row. */
  function Population(board: Core.Board): nat {
    if board == [] then 0 else RowPopulation(board[0]) + Population(board[1..])
  }

  lemma {:induction false} RowPopulationZero(row: seq<bool>)
    ensures RowPopulation(row) == 0 <==> forall c :: 0 <= c < |row| ==> !row[c]
  {
    if row != [] {
      RowPopulationZero(row[1..]);
      assert forall c :: 1 <= c < |row| ==> row[c] == row[1..][c - 1];
    }
  }

  /** The count is 0 exactly when no cell is alive. */
  lemma {:induction false} PopulationZeroIffAllDead(board: Core.Board)
    ensures Population(board) == 0 <==> Core.AllDead(board)
  {
    if board != [] {
      RowPopulationZero(board[0]);
      PopulationZeroIffAllDead(board[1..]);
      assert forall r :: 1 <= r < |board| ==> board[r] == board[1..][r - 1];
    }
  }

  /** The count never exceeds the number of cells. */
  lemma {:induction false} PopulationAtMostCells(board: Core.Board, rows: nat, cols: nat)
    requires IsGrid(board, rows, cols)
    ensures Population(board) <= rows * cols
  {
    if board != [] {
      PopulationAtMostCells(board[1..], rows - 1, cols);
      assert rows * cols == cols + (rows - 1) * cols;
    }
  }

  // ---------------------------------------------------------------------
  // The dead condition

  /** How `main` passes `--stagnate N` on: 0 or less switches the check off. */
  function LimitFromArgument(n: int): (limit: Option<int>)
    ensures limit.Some? <==> n > 0
    ensures limit.Some? ==> limit.value == n
  {
    if n > 0 then Some(n) else None
  }

  /** `stagnated`: a limit is set, it is positive, and the counter reached it. */
  predicate Stagnated(limit: Option<int>, counter: nat) {
    limit.Some? && limit.value > 0 && counter >= limit.value
  }

  /** From the command line, the check fires exactly when N is positive and
      the counter has reached N. */
  lemma StagnationFromArgument(n: int, counter: nat)
    ensures Stagnated(LimitFromArgument(n), counter) <==> n > 0 && counter >= n
  {
  }

  /** A game is dead when no cell is alive or its count stagnated. */
  predicate IsDead(alive: nat, limit: Option<int>, counter: nat) {
    alive == 0 || Stagnated(limit, counter)
  }

  /** The reason printed when a game that is not endless stops. */
  function ReasonFor(alive: nat): (reason: DeadReason)
    ensures reason == AllCellsDead <==> alive == 0
  {
    if alive == 0 then AllCellsDead else StagnationDetected
  }

  // ---------------------------------------------------------------------
  // The stagnation counter

  /** How many times in a row, counting back from the end, a recorded live
      count equals the one before it. */
  function TrailingRepeats(counts: seq<nat>): (n: nat)
    ensures counts == [] ==> n == 0
    ensures counts != [] ==> n < |counts|
  {
    if |counts| < 2 then 0
    else if counts[|counts| - 1] == counts[|counts| - 2] then TrailingRepeats(counts[..|counts| - 1]) + 1
    else 0
  }

  /** The last `k + 1` recorded counts are all the same. */
  predicate SteadyTail(counts: seq<nat>, k: nat)
    requires k < |counts|
  {
    forall j :: |counts| - 1 - k <= j < |counts| ==> counts[j] == counts[|counts| - 1]
  }

  /** The counter reaches `k` exactly when the last `k + 1` counts agree:
      a count unchanged over `k` consecutive steps. */
  lemma {:induction false} TrailingRepeatsMeansSteady(counts: seq<nat>, k: nat)
    requires k < |counts|
    ensures TrailingRepeats(counts) >= k <==> SteadyTail(counts, k)
  {
    var n := |counts|;
    if k > 0 {
      var init := counts[..n - 1];
      assert forall j :: 0 <= j < n - 1 ==> init[j] == counts[j];
      if counts[n - 1] == counts[n - 2] {
        TrailingRepeatsMeansSteady(init, k - 1);
        assert SteadyTail(init, k - 1) <==> SteadyTail(counts, k);
      } else {
        assert !SteadyTail(counts, k) by {
          assert counts[n - 2] != counts[n - 1];
        }
      }
    }
  }

  /** Appending a count: one more repeat if it equals the last, else none. */
  lemma TrailingRepeatsSnoc(counts: seq<nat>, alive: nat)
    ensures TrailingRepeats(counts + [alive])
         == if counts != [] && counts[|counts| - 1] == alive then TrailingRepeats(counts) + 1 else 0
  {
    assert (counts + [alive])[..|counts|] == counts;
  }

  /** With a limit of N > 0, a game stagnates exactly when the last N + 1
      recorded counts agree. */
  lemma StagnatedMeansSteady(counts: seq<nat>, limit: int)
    requires 0 < limit < |counts|
    ensures Stagnated(Some(limit), TrailingRepeats(counts)) <==> SteadyTail(counts, limit)
  {
    TrailingRepeatsMeansSteady(counts, limit);
  }

  // ---------------------------------------------------------------------
  // The main loop of `run`

  /** The state `run` keeps between passes of its `while True` loop. */
  class Simulation {
    const rows: nat
    const cols: nat
    const endless: bool
    const stagnateLimit: Option<int>

    var board: Core.Board
    var gameNo: nat
    var generation: nat
    var lastAlive: Option<nat>
    var stagnateCounter: nat

    /** The live counts recorded in this game, one per generation step. */
    ghost var counts: seq<nat>

    ghost predicate Valid()
      reads this
    {
      && IsGrid(board, rows, cols)
      && gameNo >= 1
      && generation == |counts|
      && lastAlive == (if counts == [] then None else Some(counts[|counts| - 1]))
      && stagnateCounter == TrailingRepeats(counts)
    }

    /** The state before the first pass: game 1, generation 0, nothing
        recorded; `initial` stands for the random `create_board`. */
    constructor (rows: nat, cols: nat, endless: bool, stagnateLimit: Option<int>, initial: Core.Board)
      requires IsGrid(initial, rows, cols)
      ensures Valid()
      ensures this.rows == rows && this.cols == cols
      ensures this.endless == endless && this.stagnateLimit == stagnateLimit
      ensures board == initial && gameNo == 1 && generation == 0
      ensures lastAlive == None && stagnateCounter == 0 && counts == []
    {
      this.rows := rows;
      this.cols := cols;
      this.endless := endless;
      this.stagnateLimit := stagnateLimit;
      board := initial;
      gameNo := 1;
      generation := 0;
      lastAlive := None;
      stagnateCounter := 0;
      counts := [];
    }

    /** The endless restart: game number up by one, a new board, and the
        generation, last count and counter reset. */
    method Restart(newBoard: Core.Board)
      requires Valid() && IsGrid(newBoard, rows, cols)
      modifies this
      ensures Valid()
      ensures board == newBoard && gameNo == old(gameNo) + 1 && generation == 0
      ensures lastAlive == None && stagnateCounter == 0 && counts == []
    {
      gameNo := gameNo + 1;
      board := newBoard;
      generation := 0;
      lastAlive := None;
      stagnateCounter := 0;
      counts := [];
    }

    /** A generation step of a live game whose board holds `alive` live
        cells: the board steps, the generation goes up by one, and the
        counter goes up when `alive` repeats the last count and drops to 0
        otherwise. */
    method Advance(alive: nat)
      requires Valid() && alive == Population(board) && alive > 0
      modifies this
      ensures Valid()
      ensures |old(board)| > 0 && board == Core.Next(old(board), false)
      ensures gameNo == old(gameNo) && generation == old(generation) + 1
      ensures stagnateCounter == if old(lastAlive) == Some(alive) then old(stagnateCounter) + 1 else 0
      ensures lastAlive == Some(alive) && counts == old(counts) + [alive]
    {
      StepKeepsGrid(board, rows, cols);
      board := NextGeneration(board);
      generation := generation + 1;
      TrailingRepeatsSnoc(counts, alive);
      assert (counts + [alive])[|counts|] == alive;
      if lastAlive.Some? && alive == lastAlive.value {
        stagnateCounter := stagnateCounter + 1;
      } else {
        stagnateCounter := 0;
      }
      lastAlive := Some(alive);
      counts := counts + [alive];
    }

    /** One pass of the loop. A dead game restarts on `newBoard` (the next
        random board) when endless and stops otherwise; a live one steps
        its board and updates the stagnation counter. */
    method Tick(newBoard: Core.Board) returns (outcome: Outcome)
      requires Valid() && IsGrid(newBoard, rows, cols)
      modifies this
      ensures Valid()
      ensures var alive := Population(old(board));
        if IsDead(alive, stagnateLimit, old(stagnateCounter)) then
          if endless then
            && outcome == Restarted
            && board == newBoard && gameNo == old(gameNo) + 1 && generation == 0
            && lastAlive == None && stagnateCounter == 0
          else
            && outcome == Stopped(ReasonFor(alive))
            && board == old(board) && gameNo == old(gameNo) && generation == old(generation)
            && lastAlive == old(lastAlive) && stagnateCounter == old(stagnateCounter)
        else
          && outcome == Advanced
          && |old(board)| > 0
          && board == Core.Next(old(board), false)
          && gameNo == old(gameNo) && generation == old(generation) + 1
          && stagnateCounter == (if old(lastAlive) == Some(alive) then old(stagnateCounter) + 1 else 0)
          && lastAlive == Some(alive)
      ensures var alive := Population(old(board));
        counts == if !IsDead(alive, stagnateLimit, old(stagnateCounter)) then old(counts) + [alive]
                  else if endless then [] else old(counts)
    {
      var alive := Population(board);
      var stagnated := stagnateLimit.Some? && stagnateLimit.value > 0 && stagnateCounter >= stagnateLimit.value;
      if alive == 0 || stagnated {
        if endless {
          Restart(newBoard);
          return Restarted;
        } else {
          var reason := if alive == 0 then AllCellsDead else StagnationDetected;
          return Stopped(reason);
        }
      }
      Advance(alive);
      outcome := Advanced;
    }
  }

  /** After a live step, the counter of a game with a positive limit says
      whether the last `limit + 1` recorded live counts agree. */
  method StepThenCheck(s: Simulation, newBoard: Core.Board, limit: int) returns (outcome: Outcome)
    requires s.Valid() && IsGrid(newBoard, s.rows, s.cols) && limit > 0
    modifies s
    ensures s.Valid()
    ensures outcome == Advanced ==>
      |s.counts| == |old(s.counts)| + 1 && s.counts[..|old(s.counts)|] == old(s.counts)
    ensures outcome == Advanced && limit < |s.counts| ==>
      (Stagnated(Some(limit), s.stagnateCounter) <==> SteadyTail(s.counts, limit))
  {
    outcome := s.Tick(newBoard);
    if outcome == Advanced && limit < |s.counts| {
      StagnatedMeansSteady(s.counts, limit);
    }
  }

  /** Each game step keeps the board's shape. */
  lemma StepKeepsGrid(board: Core.Board, rows: nat, cols: nat)
    requires IsGrid(board, rows, cols) && rows > 0
    ensures IsGrid(Core.Next(board, false), rows, cols)
  {
  }
}
