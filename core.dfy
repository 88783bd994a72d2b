/** The Game-of-Life engine of core.py: one generation step under the
    B3/S23 rule, on a bounded board or on a torus, and the periodic-sequence
    detector used to decide that a population count has stopped changing. */
module Core {

  /** A board is a list of rows; `true` is a live cell. */
  type Board = seq<seq<bool>>

  /** The shape the step rule relies on: at least one row (the source reads
      the width from row 0), and every row as wide as the first. */
  predicate WellFormed(board: Board) {
    |board| > 0 && forall r :: 0 <= r < |board| ==> |board[r]| == |board[0]|
  }

  /** No cell of the board is alive. */
  predicate AllDead(board: Board) {
    forall r, c :: 0 <= r < |board| && 0 <= c < |board[r]| ==> !board[r][c]
  }

  /** The eight Moore-neighbourhood offsets, in the order the step visits
      them: row offset outer, column offset inner, the centre skipped. */
  function Offsets(): seq<(int, int)> {
    [(-1, -1), (-1, 0), (-1, 1), (0, -1), (0, 1), (1, -1), (1, 0), (1, 1)]
  }

  /** How much the neighbour of (r, c) at offset (dr, dc) adds to the count.
      On a torus both indices wrap (Python's `%` and Dafny's agree for a
      positive divisor); otherwise a neighbour off the board adds nothing. */
  function NeighbourAt(board: Board, r: int, c: int, dr: int, dc: int, torus: bool): nat
    requires WellFormed(board) && 0 <= r < |board| && 0 <= c < |board[0]|
  {
    var nr, nc := r + dr, c + dc;
    if torus then
      (if board[nr % |board|][nc % |board[0]|] then 1 else 0)
    else if 0 <= nr < |board| && 0 <= nc < |board[0]| && board[nr][nc] then 1
    else 0
  }

  /** The live neighbours of (r, c) found at the given offsets. */
  function CountOver(board: Board, r: int, c: int, offsets: seq<(int, int)>, torus: bool): nat
    requires WellFormed(board) && 0 <= r < |board| && 0 <= c < |board[0]|
  {
    if offsets == [] then 0
    else NeighbourAt(board, r, c, offsets[0].0, offsets[0].1, torus)
         + CountOver(board, r, c, offsets[1..], torus)
  }

  /** The number of live neighbours of (r, c) over the whole neighbourhood. */
  function NeighbourCount(board: Board, r: int, c: int, torus: bool): nat
    requires WellFormed(board) && 0 <= r < |board| && 0 <= c < |board[0]|
  {
    CountOver(board, r, c, Offsets(), torus)
  }

  /** The neighbour count written out as the sum over the eight offsets. */
  lemma NeighbourCountUnfolded(board: Board, r: int, c: int, torus: bool)
    requires WellFormed(board) && 0 <= r < |board| && 0 <= c < |board[0]|
    ensures NeighbourCount(board, r, c, torus)
         == NeighbourAt(board, r, c, -1, -1, torus) + NeighbourAt(board, r, c, -1, 0, torus)
          + NeighbourAt(board, r, c, -1, 1, torus) + NeighbourAt(board, r, c, 0, -1, torus)
          + NeighbourAt(board, r, c, 0, 1, torus) + NeighbourAt(board, r, c, 1, -1, torus)
          + NeighbourAt(board, r, c, 1, 0, torus) + NeighbourAt(board, r, c, 1, 1, torus)
  {
    var o0 := Offsets();
    var o1 := [(-1, 0), (-1, 1), (0, -1), (0, 1), (1, -1), (1, 0), (1, 1)];
    var o2 := [(-1, 1), (0, -1), (0, 1), (1, -1), (1, 0), (1, 1)];
    var o3 := [(0, -1), (0, 1), (1, -1), (1, 0), (1, 1)];
    var o4 := [(0, 1), (1, -1), (1, 0), (1, 1)];
    var o5 := [(1, -1), (1, 0), (1, 1)];
    var o6 := [(1, 0), (1, 1)];
    var o7 := [(1, 1)];
    assert o0[1..] == o1 && o1[1..] == o2 && o2[1..] == o3 && o3[1..] == o4;
    assert o4[1..] == o5 && o5[1..] == o6 && o6[1..] == o7 && o7[1..] == [];
    assert CountOver(board, r, c, o7, torus) == NeighbourAt(board, r, c, 1, 1, torus);
    assert CountOver(board, r, c, o6, torus) == NeighbourAt(board, r, c, 1, 0, torus) + CountOver(board, r, c, o7, torus);
    assert CountOver(board, r, c, o5, torus) == NeighbourAt(board, r, c, 1, -1, torus) + CountOver(board, r, c, o6, torus);
    assert CountOver(board, r, c, o4, torus) == NeighbourAt(board, r, c, 0, 1, torus) + CountOver(board, r, c, o5, torus);
    assert CountOver(board, r, c, o3, torus) == NeighbourAt(board, r, c, 0, -1, torus) + CountOver(board, r, c, o4, torus);
    assert CountOver(board, r, c, o2, torus) == NeighbourAt(board, r, c, -1, 1, torus) + CountOver(board, r, c, o3, torus);
    assert CountOver(board, r, c, o1, torus) == NeighbourAt(board, r, c, -1, 0, torus) + CountOver(board, r, c, o2, torus);
    assert CountOver(board, r, c, o0, torus) == NeighbourAt(board, r, c, -1, -1, torus) + CountOver(board, r, c, o1, torus);
  }

  /** B3/S23: a live cell survives with two or three live neighbours, a dead
      cell comes alive with exactly three. */
  predicate Rule(alive: bool, neighbours: nat) {
    if alive then neighbours == 2 || neighbours == 3 else neighbours == 3
  }

  /** The next generation: every cell decided from the previous board only. */
  function Next(board: Board, torus: bool): (next: Board)
    requires WellFormed(board)
    ensures WellFormed(next) && |next| == |board| && |next[0]| == |board[0]|
  {
    seq(|board|, r requires 0 <= r < |board| =>
      seq(|board[0]|, c requires 0 <= c < |board[0]| =>
        Rule(board[r][c], NeighbourCount(board, r, c, torus))))
  }

  /** Position in `Offsets()` of the offset (dr, dc) the count loops are
      about to visit: the number of offsets they have already visited. */
  function Visited(dr: int, dc: int): nat
    requires -1 <= dr <= 2 && -1 <= dc <= 2
  {
    var k := (dr + 1) * 3 + (dc + 1);
    if k > 4 then k - 1 else k
  }

  lemma OffsetAt(dr: int, dc: int)
    requires -1 <= dr <= 1 && -1 <= dc <= 1 && !(dr == 0 && dc == 0)
    ensures Visited(dr, dc) < |Offsets()|
    ensures Offsets()[Visited(dr, dc)].0 == dr && Offsets()[Visited(dr, dc)].1 == dc
  {
  }

  /** Counting one more offset adds that offset's neighbour. */
  lemma {:induction false} CountOverSnoc(board: Board, r: int, c: int, offsets: seq<(int, int)>, k: nat, torus: bool)
    requires WellFormed(board) && 0 <= r < |board| && 0 <= c < |board[0]|
    requires k < |offsets|
    ensures CountOver(board, r, c, offsets[..k + 1], torus)
         == CountOver(board, r, c, offsets[..k], torus) + NeighbourAt(board, r, c, offsets[k].0, offsets[k].1, torus)
  {
    if k > 0 {
      assert offsets[..k + 1][1..] == offsets[1..][..k];
      assert offsets[..k][1..] == offsets[1..][..k - 1];
      CountOverSnoc(board, r, c, offsets[1..], k - 1, torus);
    }
  }

  /** Visiting offset (dr, dc) adds its neighbour to the count so far. */
  lemma VisitOffset(board: Board, r: int, c: int, dr: int, dc: int, torus: bool)
    requires WellFormed(board) && 0 <= r < |board| && 0 <= c < |board[0]|
    requires -1 <= dr <= 1 && -1 <= dc <= 1 && !(dr == 0 && dc == 0)
    ensures CountOver(board, r, c, Offsets()[..Visited(dr, dc) + 1], torus)
         == CountOver(board, r, c, Offsets()[..Visited(dr, dc)], torus) + NeighbourAt(board, r, c, dr, dc, torus)
  {
    OffsetAt(dr, dc);
    CountOverSnoc(board, r, c, Offsets(), Visited(dr, dc), torus);
  }

  /** The neighbour count of one cell, by the nested offset loops of
      core.py (the source inlines them in `next_generation`): on a torus
      both indices wrap, otherwise an off-board neighbour is skipped. */
  method CountNeighbours(board: Board, r: int, c: int, torus: bool) returns (live: nat)
    requires WellFormed(board) && 0 <= r < |board| && 0 <= c < |board[0]|
    ensures live == NeighbourCount(board, r, c, torus)
  {
    var rows, cols := |board|, |board[0]|;
    live := 0;
    for dr := -1 to 2
      invariant live == CountOver(board, r, c, Offsets()[..Visited(dr, -1)], torus)
    {
      for dc := -1 to 2
        invariant live == CountOver(board, r, c, Offsets()[..Visited(dr, dc)], torus)
      {
        if dr == 0 && dc == 0 {
          continue;
        }
        VisitOffset(board, r, c, dr, dc, torus);
        var nr, nc := r + dr, c + dc;
        if torus {
          nr := nr % rows;
          nc := nc % cols;
          if board[nr][nc] {
            live := live + 1;
          }
        } else if 0 <= nr < rows && 0 <= nc < cols && board[nr][nc] {
          live := live + 1;
        }
      }
    }
    assert Offsets()[..Visited(2, -1)] == Offsets();
  }

  /** `next_generation`: a fresh all-dead board of the same shape, filled
      cell by cell from neighbour counts on the unchanged input. */
  method NextGeneration(board: Board, torus: bool) returns (next: Board)
    requires WellFormed(board)
    ensures next == Next(board, torus)
  {
    var rows, cols := |board|, |board[0]|;
    next := seq(rows, _ => seq(cols, _ => false));
    for r := 0 to rows
      invariant |next| == rows && forall i :: 0 <= i < rows ==> |next[i]| == cols
      invariant forall i, j :: 0 <= i < r && 0 <= j < cols ==>
        next[i][j] == Rule(board[i][j], NeighbourCount(board, i, j, torus))
    {
      for c := 0 to cols
        invariant |next| == rows && forall i :: 0 <= i < rows ==> |next[i]| == cols
        invariant forall i, j :: 0 <= i < r && 0 <= j < cols ==>
          next[i][j] == Rule(board[i][j], NeighbourCount(board, i, j, torus))
        invariant forall j :: 0 <= j < c ==>
          next[r][j] == Rule(board[r][j], NeighbourCount(board, r, j, torus))
      {
        var live := CountNeighbours(board, r, c, torus);
        var cell := if board[r][c] then live == 2 || live == 3 else live == 3;
        next := next[r := next[r][c := cell]];
      }
    }
    assert forall i :: 0 <= i < rows ==> next[i] == Next(board, torus)[i];
  }

  // ---------------------------------------------------------------------
  // Properties of the step rule

  /** Each offset adds at most one, so a count over k offsets is at most k. */
  lemma {:induction false} CountOverAtMost(board: Board, r: int, c: int, offsets: seq<(int, int)>, torus: bool)
    requires WellFormed(board) && 0 <= r < |board| && 0 <= c < |board[0]|
    ensures CountOver(board, r, c, offsets, torus) <= |offsets|
  {
    if offsets != [] {
      CountOverAtMost(board, r, c, offsets[1..], torus);
    }
  }

  /** A neighbour count lies in 0..8, in both modes. */
  lemma NeighbourCountAtMostEight(board: Board, r: int, c: int, torus: bool)
    requires WellFormed(board) && 0 <= r < |board| && 0 <= c < |board[0]|
    ensures NeighbourCount(board, r, c, torus) <= 8
  {
    CountOverAtMost(board, r, c, Offsets(), torus);
  }

  /** Offsets that each add nothing add up to nothing. */
  lemma {:induction false} CountOverZero(board: Board, r: int, c: int, offsets: seq<(int, int)>, torus: bool)
    requires WellFormed(board) && 0 <= r < |board| && 0 <= c < |board[0]|
    requires forall k :: 0 <= k < |offsets| ==> NeighbourAt(board, r, c, offsets[k].0, offsets[k].1, torus) == 0
    ensures CountOver(board, r, c, offsets, torus) == 0
  {
    if offsets != [] {
      assert forall k :: 0 <= k < |offsets| - 1 ==> offsets[1..][k] == offsets[k + 1];
      CountOverZero(board, r, c, offsets[1..], torus);
    }
  }

  /** An all-dead board stays all dead, on a torus or not. */
  lemma AllDeadStaysDead(board: Board, torus: bool)
    requires WellFormed(board) && AllDead(board)
    ensures AllDead(Next(board, torus))
  {
    forall r, c | 0 <= r < |board| && 0 <= c < |board[0]|
      ensures !Next(board, torus)[r][c]
    {
      CountOverZero(board, r, c, Offsets(), torus);
    }
  }

  /** On the bounded board, a live cell none of whose on-board neighbours
      is alive dies in one step. */
  lemma LoneCellDies(board: Board, r: int, c: int)
    requires WellFormed(board) && 0 <= r < |board| && 0 <= c < |board[0]|
    requires forall nr, nc ::
      (0 <= nr < |board| && 0 <= nc < |board[0]| && r - 1 <= nr <= r + 1 && c - 1 <= nc <= c + 1
       && (nr, nc) != (r, c)) ==> !board[nr][nc]
    ensures !Next(board, false)[r][c]
  {
    CountOverZero(board, r, c, Offsets(), false);
  }

  /** In either mode, a cell none of whose eight neighbour offsets reaches
      a live cell is dead in the next generation. This covers the torus,
      where an offset may wrap round to a far edge or to the cell itself. */
  lemma IsolatedCellDies(board: Board, r: int, c: int, torus: bool)
    requires WellFormed(board) && 0 <= r < |board| && 0 <= c < |board[0]|
    requires forall k :: 0 <= k < |Offsets()| ==> NeighbourAt(board, r, c, Offsets()[k].0, Offsets()[k].1, torus) == 0
    ensures NeighbourCount(board, r, c, torus) == 0
    ensures !Next(board, torus)[r][c]
  {
    CountOverZero(board, r, c, Offsets(), torus);
  }

  /** Away from the edges wrapping changes nothing: in the interior the
      torus count equals the bounded count, offset by offset. */
  lemma {:induction false} InteriorCountOver(board: Board, r: int, c: int, offsets: seq<(int, int)>)
    requires WellFormed(board) && 1 <= r < |board| - 1 && 1 <= c < |board[0]| - 1
    requires forall k :: 0 <= k < |offsets| ==> -1 <= offsets[k].0 <= 1 && -1 <= offsets[k].1 <= 1
    ensures CountOver(board, r, c, offsets, true) == CountOver(board, r, c, offsets, false)
  {
    if offsets != [] {
      var dr, dc := offsets[0].0, offsets[0].1;
      ModuloUnique(r + dr, |board|, 0, r + dr);
      ModuloUnique(c + dc, |board[0]|, 0, c + dc);
      assert forall k :: 0 <= k < |offsets| - 1 ==> offsets[1..][k] == offsets[k + 1];
      InteriorCountOver(board, r, c, offsets[1..]);
    }
  }

  /** An interior cell has the same fate with and without wrap-around. */
  lemma InteriorIgnoresTorus(board: Board, r: int, c: int)
    requires WellFormed(board) && 1 <= r < |board| - 1 && 1 <= c < |board[0]| - 1
    ensures NeighbourCount(board, r, c, true) == NeighbourCount(board, r, c, false)
    ensures Next(board, true)[r][c] == Next(board, false)[r][c]
  {
    InteriorCountOver(board, r, c, Offsets());
  }

  /** The offsets whose neighbour of (r, c) lies on the board. */
  function OnBoard(board: Board, r: int, c: int, offsets: seq<(int, int)>): (inside: seq<(int, int)>)
    requires WellFormed(board)
    ensures |inside| <= |offsets|
    ensures forall k :: 0 <= k < |inside| ==>
      inside[k] in offsets && 0 <= r + inside[k].0 < |board| && 0 <= c + inside[k].1 < |board[0]|
    ensures forall k :: 0 <= k < |offsets| && 0 <= r + offsets[k].0 < |board| && 0 <= c + offsets[k].1 < |board[0]| ==>
      offsets[k] in inside
  {
    if offsets == [] then []
    else
      var rest := OnBoard(board, r, c, offsets[1..]);
      if 0 <= r + offsets[0].0 < |board| && 0 <= c + offsets[0].1 < |board[0]|
      then [offsets[0]] + rest else rest
  }

  /** Without wrap-around an offset falling off the board contributes
      nothing: the count over any offsets is the count over those that
      stay on the board. */
  lemma {:induction false} BoundedCountSkipsOffBoard(board: Board, r: int, c: int, offsets: seq<(int, int)>)
    requires WellFormed(board) && 0 <= r < |board| && 0 <= c < |board[0]|
    ensures CountOver(board, r, c, offsets, false) == CountOver(board, r, c, OnBoard(board, r, c, offsets), false)
  {
    if offsets != [] {
      BoundedCountSkipsOffBoard(board, r, c, offsets[1..]);
      var rest := OnBoard(board, r, c, offsets[1..]);
      if 0 <= r + offsets[0].0 < |board| && 0 <= c + offsets[0].1 < |board[0]| {
        assert ([offsets[0]] + rest)[1..] == rest;
      }
    }
  }

  /** Consequently a corner cell of the bounded board sees at most three
      neighbours. */
  lemma CornerCountAtMostThree(board: Board)
    requires WellFormed(board) && |board[0]| > 0
    ensures NeighbourCount(board, 0, 0, false) <= 3
  {
    NeighbourCountUnfolded(board, 0, 0, false);
  }

  // ---------------------------------------------------------------------
  // Small boards

  /** One cell of the next generation. */
  lemma NextCell(board: Board, r: int, c: int, torus: bool, n: nat)
    requires WellFormed(board) && 0 <= r < |board| && 0 <= c < |board[0]|
    requires NeighbourCount(board, r, c, torus) == n
    ensures Next(board, torus)[r][c] == Rule(board[r][c], n)
  {
  }

  /** Boards of one row of two cells are equal when both cells are. */
  lemma OneRowOfTwo(n: Board, m: Board)
    requires |n| == |m| == 1 && |n[0]| == |m[0]| == 2
    requires n[0][0] == m[0][0] && n[0][1] == m[0][1]
    ensures n == m
  {
    assert n[0] == m[0];
  }

  /** Boards of two rows of two cells are equal when their cells are. */
  lemma TwoRowsOfTwo(n: Board, m: Board)
    requires |n| == |m| == 2 && |n[0]| == |m[0]| == 2 && |n[1]| == |m[1]| == 2
    requires n[0][0] == m[0][0] && n[0][1] == m[0][1]
    requires n[1][0] == m[1][0] && n[1][1] == m[1][1]
    ensures n == m
  {
    assert n[0] == m[0] && n[1] == m[1];
  }

  /** The full 2x2 block. */
  function Block(): Board {
    [[true, true], [true, true]]
  }

  /** On a torus narrower than three cells one cell is reached through
      several offsets, the cell itself included: a lone live cell on a 1x1
      torus counts itself eight times and dies. */
  lemma OneByOneTorusCountsSelf()
    ensures NeighbourCount([[true]], 0, 0, true) == 8
    ensures Next([[true]], true) == [[false]]
  {
    var b := [[true]];
    NeighbourCountUnfolded(b, 0, 0, true);
    var n := Next(b, true);
    assert !n[0][0];
    assert n[0] == [false];
  }

  /** On a 1x2 torus the live cell counts itself twice (straight up and
      down) and its dead neighbour six times; on the bounded board they
      count 0 and 1. */
  lemma OneByTwoCounts()
    ensures NeighbourCount([[true, false]], 0, 0, true) == 2
    ensures NeighbourCount([[true, false]], 0, 1, true) == 6
    ensures NeighbourCount([[true, false]], 0, 0, false) == 0
    ensures NeighbourCount([[true, false]], 0, 1, false) == 1
  {
    NeighbourCountUnfolded([[true, false]], 0, 0, true);
    NeighbourCountUnfolded([[true, false]], 0, 1, true);
    NeighbourCountUnfolded([[true, false]], 0, 0, false);
    NeighbourCountUnfolded([[true, false]], 0, 1, false);
  }

  /** So on a 1x2 torus a lone live cell survives for ever, while on the
      bounded board it dies. */
  lemma OneByTwoTorusKeepsLoneCell()
    ensures Next([[true, false]], true) == [[true, false]]
    ensures Next([[true, false]], false) == [[false, false]]
  {
    OneByTwoCounts();
    OneByTwoSteps([[true, false]]);
  }

  /** The two steps of a board equal to [[true, false]], cell by cell
      from the counts above. */
  lemma OneByTwoSteps(b: Board)
    requires b == [[true, false]]
    requires NeighbourCount(b, 0, 0, true) == 2 && NeighbourCount(b, 0, 1, true) == 6
    requires NeighbourCount(b, 0, 0, false) == 0 && NeighbourCount(b, 0, 1, false) == 1
    ensures Next(b, true) == b
    ensures Next(b, false) == [[false, false]]
  {
    var n, m := Next(b, true), Next(b, false);
    NextCell(b, 0, 0, true, 2);
    NextCell(b, 0, 1, true, 6);
    NextCell(b, 0, 0, false, 0);
    NextCell(b, 0, 1, false, 1);
    OneRowOfTwo(n, b);
    OneRowOfTwo(m, [[false, false]]);
  }

  /** On the bounded board each cell of the block has three live neighbours. */
  lemma BlockCounts()
    ensures NeighbourCount(Block(), 0, 0, false) == 3 && NeighbourCount(Block(), 0, 1, false) == 3
    ensures NeighbourCount(Block(), 1, 0, false) == 3 && NeighbourCount(Block(), 1, 1, false) == 3
  {
    NeighbourCountUnfolded(Block(), 0, 0, false);
    NeighbourCountUnfolded(Block(), 0, 1, false);
    NeighbourCountUnfolded(Block(), 1, 0, false);
    NeighbourCountUnfolded(Block(), 1, 1, false);
  }

  /** So the full 2x2 block is a still life on the bounded board. */
  lemma BlockIsStillLife()
    ensures Next(Block(), false) == Block()
  {
    BlockCounts();
    BlockIsStillLifeOf(Block());
  }

  /** The bounded step of a board equal to the block, cell by cell from
      the counts above. */
  lemma BlockIsStillLifeOf(b: Board)
    requires b == Block()
    requires NeighbourCount(b, 0, 0, false) == 3 && NeighbourCount(b, 0, 1, false) == 3
    requires NeighbourCount(b, 1, 0, false) == 3 && NeighbourCount(b, 1, 1, false) == 3
    ensures Next(b, false) == b
  {
    NextCell(b, 0, 0, false, 3);
    NextCell(b, 0, 1, false, 3);
    NextCell(b, 1, 0, false, 3);
    NextCell(b, 1, 1, false, 3);
    TwoRowsOfTwo(Next(b, false), b);
  }

  /** The vertical blinker: three live cells down the middle column. */
  function VerticalBlinker(): Board {
    [[false, true, false], [false, true, false], [false, true, false]]
  }

  /** The horizontal blinker: three live cells along the middle row. */
  function HorizontalBlinker(): Board {
    [[false, false, false], [true, true, true], [false, false, false]]
  }

  /** The bounded neighbour count of each cell of the vertical blinker. */
  lemma VerticalCount(b: Board, r: int, c: int)
    requires b == VerticalBlinker() && 0 <= r < 3 && 0 <= c < 3
    ensures NeighbourCount(b, r, c, false) == if c == 1 then (if r == 1 then 2 else 1) else (if r == 1 then 3 else 2)
  {
    NeighbourCountUnfolded(b, r, c, false);
  }

  /** The bounded neighbour count of each cell of the horizontal blinker. */
  lemma HorizontalCount(b: Board, r: int, c: int)
    requires b == HorizontalBlinker() && 0 <= r < 3 && 0 <= c < 3
    ensures NeighbourCount(b, r, c, false) == if r == 1 then (if c == 1 then 2 else 1) else (if c == 1 then 3 else 2)
  {
    NeighbourCountUnfolded(b, r, c, false);
  }

  /** A 3x3 board steps to `m` when each cell of `m` is the rule applied
      to the matching cell of the board and its count, listed row by row. */
  lemma NextOfThreeByThree(b: Board, m: Board, torus: bool, counts: seq<nat>)
    requires WellFormed(b) && |b| == 3 && |b[0]| == 3 && |counts| == 9
    requires |m| == 3 && forall i :: 0 <= i < 3 ==> |m[i]| == 3
    requires forall i, j :: 0 <= i < 3 && 0 <= j < 3 ==>
      NeighbourCount(b, i, j, torus) == counts[3 * i + j] && m[i][j] == Rule(b[i][j], counts[3 * i + j])
    ensures Next(b, torus) == m
  {
    var n := Next(b, torus);
    forall i | 0 <= i < 3 ensures n[i] == m[i] {
      assert forall j :: 0 <= j < 3 ==> n[i][j] == m[i][j];
    }
  }

  /** The vertical blinker turns horizontal in one bounded step. */
  lemma VerticalBlinkerTurns()
    ensures Next(VerticalBlinker(), false) == HorizontalBlinker()
  {
    var b := VerticalBlinker();
    forall r, c | 0 <= r < 3 && 0 <= c < 3 {
      VerticalCount(b, r, c);
    }
    NextOfThreeByThree(b, HorizontalBlinker(), false, [2, 1, 2, 3, 2, 3, 2, 1, 2]);
  }

  /** The horizontal blinker turns vertical in one bounded step. */
  lemma HorizontalBlinkerTurns()
    ensures Next(HorizontalBlinker(), false) == VerticalBlinker()
  {
    var b := HorizontalBlinker();
    forall r, c | 0 <= r < 3 && 0 <= c < 3 {
      HorizontalCount(b, r, c);
    }
    NextOfThreeByThree(b, VerticalBlinker(), false, [2, 3, 2, 1, 2, 1, 2, 3, 2]);
  }

  /** So the blinker oscillates with period 2 on the bounded board: it
      changes after one step and is back after two. */
  lemma BlinkerOscillates()
    ensures Next(VerticalBlinker(), false) != VerticalBlinker()
    ensures Next(Next(VerticalBlinker(), false), false) == VerticalBlinker()
  {
    VerticalBlinkerTurns();
    HorizontalBlinkerTurns();
    assert HorizontalBlinker()[0][1] != VerticalBlinker()[0][1];
  }

  /** Every cell of the board is alive. */
  predicate AllAlive(board: Board) {
    forall r, c :: 0 <= r < |board| && 0 <= c < |board[r]| ==> board[r][c]
  }

  /** On a torus every offset lands on the board, so on a full board each
      offset adds one. */
  lemma {:induction false} CountOverFull(board: Board, r: int, c: int, offsets: seq<(int, int)>)
    requires WellFormed(board) && AllAlive(board) && 0 <= r < |board| && 0 <= c < |board[0]|
    ensures CountOver(board, r, c, offsets, true) == |offsets|
  {
    if offsets != [] {
      var nr, nc := (r + offsets[0].0) % |board|, (c + offsets[0].1) % |board[0]|;
      assert 0 <= nr < |board| && 0 <= nc < |board[nr]|;
      CountOverFull(board, r, c, offsets[1..]);
    }
  }

  /** A full board dies at once on a torus, whatever its size: every cell
      counts eight live neighbours, however often the same cell is reached. */
  lemma FullBoardDiesOnTorus(board: Board)
    requires WellFormed(board) && AllAlive(board)
    ensures AllDead(Next(board, true))
  {
    forall r, c | 0 <= r < |board| && 0 <= c < |board[0]|
      ensures !Next(board, true)[r][c]
    {
      CountOverFull(board, r, c, Offsets());
    }
  }

  /** So the block, a still life on the bounded board, dies on a 2x2 torus. */
  lemma BlockDiesOnTorus()
    ensures Next(Block(), true) == [[false, false], [false, false]]
  {
    BlockDiesOnTorusOf(Block());
  }

  /** The torus step of a board equal to the block. */
  lemma BlockDiesOnTorusOf(b: Board)
    requires b == Block()
    ensures Next(b, true) == [[false, false], [false, false]]
  {
    FullBoardDiesOnTorus(b);
    var n := Next(b, true);
    assert !n[0][0] && !n[0][1] && !n[1][0] && !n[1][1];
    TwoRowsOfTwo(n, [[false, false], [false, false]]);
  }

  // ---------------------------------------------------------------------
  // Stagnation detector

  /** Every element of `s` from position k on repeats the one k before it. */
  predicate HasPeriod(s: seq<int>, k: nat) {
    forall i :: k <= i < |s| ==> s[i] == s[i - k]
  }

  /** What `is_cyclical` decides: at least four values, and some period
      between 1 and half the length. */
  predicate Cyclical(s: seq<int>) {
    |s| >= 4 && exists k :: 1 <= k <= |s| / 2 && HasPeriod(s, k)
  }

  /** `is_cyclical`: try the periods in ascending order, each checked
      element by element with an early exit. */
  method IsCyclical(s: seq<int>) returns (cyclic: bool)
    ensures |s| < 4 ==> !cyclic
    ensures cyclic <==> Cyclical(s)
  {
    var n := |s|;
    if n < 4 {
      return false;
    }
    for k := 1 to n / 2 + 1
      invariant forall j :: 1 <= j < k ==> !HasPeriod(s, j)
    {
      var isCycle := true;
      for i := k to n
        invariant isCycle
        invariant forall m :: k <= m < i ==> s[m] == s[m - k]
      {
        if s[i] != s[i - k] {
          isCycle := false;
          break;
        }
      }
      if isCycle {
        assert HasPeriod(s, k);
        return true;
      }
    }
    return false;
  }

  /** A period k means the sequence is its first k values repeated: every
      element equals the one at its position modulo k. */
  lemma PeriodRepeatsPrefix(s: seq<int>, k: nat)
    requires k >= 1
    ensures HasPeriod(s, k) <==> forall i :: 0 <= i < |s| ==> s[i] == s[i % k]
  {
    if HasPeriod(s, k) {
      PeriodGivesPrefix(s, k);
    }
    if forall i :: 0 <= i < |s| ==> s[i] == s[i % k] {
      PrefixGivesPeriod(s, k);
    }
  }

  lemma PeriodGivesPrefix(s: seq<int>, k: nat)
    requires k >= 1 && HasPeriod(s, k)
    ensures forall i :: 0 <= i < |s| ==> s[i] == s[i % k]
  {
    forall i | 0 <= i < |s| ensures s[i] == s[i % k] {
      PeriodicAt(s, k, i);
    }
  }

  lemma PrefixGivesPeriod(s: seq<int>, k: nat)
    requires k >= 1 && forall i :: 0 <= i < |s| ==> s[i] == s[i % k]
    ensures HasPeriod(s, k)
  {
    forall i | k <= i < |s| ensures s[i] == s[i - k] {
      ModuloStep(i, k);
      assert s[i] == s[i % k] && s[i - k] == s[(i - k) % k];
    }
  }

  lemma ModuloStep(i: int, k: int)
    requires k >= 1 && i >= k
    ensures (i - k) % k == i % k
  {
    ModuloUnique(i - k, k, i / k - 1, i % k);
  }

  /** Euclidean division has exactly one quotient and remainder. */
  lemma ModuloUnique(a: int, k: int, q: int, m: int)
    requires k >= 1 && a == q * k + m && 0 <= m < k
    ensures a % k == m
  {
    var q0, m0 := a / k, a % k;
    assert (q - q0) * k == m0 - m;
    if q > q0 {
      MultipleAtLeast(q - q0, k);
    } else if q < q0 {
      MultipleAtLeast(q0 - q, k);
    }
  }

  lemma {:induction false} MultipleAtLeast(d: int, k: int)
    requires d >= 1 && k >= 1
    ensures d * k >= k
  {
    if d > 1 {
      MultipleAtLeast(d - 1, k);
      assert d * k == (d - 1) * k + k;
    }
  }

  lemma {:induction false} PeriodicAt(s: seq<int>, k: nat, i: nat)
    requires k >= 1 && HasPeriod(s, k) && i < |s|
    ensures s[i] == s[i % k]
  {
    if i >= k {
      ModuloStep(i, k);
      PeriodicAt(s, k, i - k);
    }
  }

  /** A constant run of four or more values is cyclical (period 1). */
  lemma ConstantIsCyclical(s: seq<int>)
    requires |s| >= 4 && forall i :: 0 <= i < |s| ==> s[i] == s[0]
    ensures Cyclical(s)
  {
    assert HasPeriod(s, 1);
  }

  /** The detector on a few sample histories. */
  lemma CyclicalSamples()
    ensures !Cyclical([1, 2, 1])
    ensures Cyclical([5, 5, 5, 5]) && Cyclical([1, 2, 1, 2]) && Cyclical([1, 2, 3, 1, 2, 3])
    ensures !Cyclical([1, 2, 3, 4])
  {
    assert HasPeriod([5, 5, 5, 5], 1);
    assert HasPeriod([1, 2, 1, 2], 2);
    assert HasPeriod([1, 2, 3, 1, 2, 3], 3);
    var t := [1, 2, 3, 4];
    assert !HasPeriod(t, 1) by { assert t[1] != t[0]; }
    assert !HasPeriod(t, 2) by { assert t[2] != t[0]; }
  }
}
