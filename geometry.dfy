/** The pattern transforms of utils.py: rotation by a right angle with
    re-anchoring at (0, 0), and the horizontal mirror. */
module Geometry {

  /** A (row offset, column offset) pair. */
  type Cell = (int, int)

  /** A pattern is an ordered list of cells. */
  type Pattern = seq<Cell>

  /** Python's `min` over a non-empty list: a member no larger than any. */
  function Min(xs: seq<int>): (m: int)
    requires xs != []
    ensures m in xs
    ensures forall i :: 0 <= i < |xs| ==> m <= xs[i]
  {
    if |xs| == 1 then xs[0]
    else
      var rest := Min(xs[1..]);
      if xs[0] <= rest then xs[0] else rest
  }

  /** Python's `max` over a non-empty list: a member no smaller than any. */
  function Max(xs: seq<int>): (m: int)
    requires xs != []
    ensures m in xs
    ensures forall i :: 0 <= i < |xs| ==> xs[i] <= m
  {
    if |xs| == 1 then xs[0]
    else
      var rest := Max(xs[1..]);
      if xs[0] >= rest then xs[0] else rest
  }

  /** Shifting every value by `a` shifts the extremes by `a`. */
  lemma ExtremesShift(xs: seq<int>, ys: seq<int>, a: int)
    requires xs != [] && |ys| == |xs|
    requires forall i :: 0 <= i < |xs| ==> ys[i] == xs[i] + a
    ensures Min(ys) == Min(xs) + a && Max(ys) == Max(xs) + a
  {
    var i :| 0 <= i < |xs| && xs[i] == Min(xs);
    var j :| 0 <= j < |xs| && xs[j] == Max(xs);
    var k :| 0 <= k < |ys| && ys[k] == Min(ys);
    var l :| 0 <= l < |ys| && ys[l] == Max(ys);
    assert Min(ys) <= ys[i] && Min(xs) <= xs[k];
    assert Max(ys) >= ys[j] && Max(xs) >= xs[l];
  }

  /** Mirroring every value about `a` swaps and mirrors the extremes. */
  lemma ExtremesMirror(xs: seq<int>, ys: seq<int>, a: int)
    requires xs != [] && |ys| == |xs|
    requires forall i :: 0 <= i < |xs| ==> ys[i] == a - xs[i]
    ensures Min(ys) == a - Max(xs) && Max(ys) == a - Min(xs)
  {
    var i :| 0 <= i < |xs| && xs[i] == Min(xs);
    var j :| 0 <= j < |xs| && xs[j] == Max(xs);
    var k :| 0 <= k < |ys| && ys[k] == Min(ys);
    var l :| 0 <= l < |ys| && ys[l] == Max(ys);
    assert Min(ys) <= ys[j] && Max(xs) >= xs[k];
    assert Max(ys) >= ys[i] && Min(xs) <= xs[l];
  }

  /** The row offsets and the column offsets of a pattern, in order. */
  function RowsOf(p: Pattern): (rs: seq<int>)
    ensures |rs| == |p| && forall i :: 0 <= i < |p| ==> rs[i] == p[i].0
  {
    seq(|p|, i requires 0 <= i < |p| => p[i].0)
  }

  function ColsOf(p: Pattern): (cs: seq<int>)
    ensures |cs| == |p| && forall i :: 0 <= i < |p| ==> cs[i] == p[i].1
  {
    seq(|p|, i requires 0 <= i < |p| => p[i].1)
  }

  /** The smallest row offset, 0 for the empty pattern (the guard
      `rotate_pattern` writes out before calling `min`). */
  function MinRow(p: Pattern): int {
    if p == [] then 0 else Min(RowsOf(p))
  }

  function MinCol(p: Pattern): int {
    if p == [] then 0 else Min(ColsOf(p))
  }

  function MaxRow(p: Pattern): int
    requires p != []
  {
    Max(RowsOf(p))
  }

  function MaxCol(p: Pattern): int
    requires p != []
  {
    Max(ColsOf(p))
  }

  /** Top-left anchored: the smallest row and column offsets are both 0. */
  predicate Anchored(p: Pattern) {
    MinRow(p) == 0 && MinCol(p) == 0
  }

  /** Translate the pattern so that it is anchored at (0, 0). */
  function Normalize(p: Pattern): (q: Pattern)
    ensures |q| == |p| && Anchored(q)
    ensures IsAnchoring(p, q)
  {
    var dr, dc := MinRow(p), MinCol(p);
    var q := seq(|p|, i requires 0 <= i < |p| => (p[i].0 - dr, p[i].1 - dc));
    if p == [] then q
    else
      ExtremesShift(RowsOf(p), RowsOf(q), -dr);
      ExtremesShift(ColsOf(p), ColsOf(q), -dc);
      q
  }

  /** The three angles `rotate_pattern` turns by. */
  predicate RightAngle(angle: int) {
    angle == 90 || angle == 180 || angle == 270
  }

  /** The coordinate map `rotate_pattern` applies before re-anchoring:
      by 90 degrees (r, c) becomes (c, -r), by 180 it becomes (-r, -c), by
      270 it becomes (-c, r). */
  function Turned(p: Pattern, angle: int): (t: Pattern)
    requires RightAngle(angle)
    ensures |t| == |p|
  {
    seq(|p|, i requires 0 <= i < |p| =>
      var (r, c) := p[i];
      if angle == 90 then (c, -r) else if angle == 180 then (-r, -c) else (-c, r))
  }

  /** `rotate_pattern`: turn, then re-anchor at (0, 0); an angle of 0, or
      any angle but 90, 180 and 270, leaves the pattern as it is. */
  function Rotate(p: Pattern, angle: int): (q: Pattern)
    ensures |q| == |p|
    ensures !RightAngle(angle) ==> q == p
    ensures RightAngle(angle) ==> Anchored(q)
  {
    if angle == 0 then p
    else if RightAngle(angle) then Normalize(Turned(p, angle))
    else p
  }

  /** `flip_pattern`: the mirror image about the largest column offset. */
  function Flip(p: Pattern): (q: Pattern)
    ensures |q| == |p|
    ensures forall i :: 0 <= i < |p| ==> q[i].0 == p[i].0
    ensures forall i :: 0 <= i < |p| ==> q[i].1 + p[i].1 == MaxCol(p)
    ensures p != [] ==> MinCol(q) == 0 && MaxCol(q) == MaxCol(p) - MinCol(p)
  {
    if p == [] then []
    else
      var q := seq(|p|, i requires 0 <= i < |p| => (p[i].0, MaxCol(p) - p[i].1));
      ExtremesMirror(ColsOf(p), ColsOf(q), MaxCol(p));
      q
  }

  // ---------------------------------------------------------------------
  // Closed forms of the three turns of a non-empty pattern

  /** `q` is `p` turned by 90 degrees and anchored: (r, c) lands on
      (c - minCol, maxRow - r). */
  predicate IsQuarterTurn(p: Pattern, q: Pattern)
    requires p != []
  {
    |q| == |p| && forall i :: 0 <= i < |p| ==> q[i].0 == p[i].1 - MinCol(p) && q[i].1 == MaxRow(p) - p[i].0
  }

  /** `q` is `p` turned by 180 degrees and anchored: (r, c) lands on
      (maxRow - r, maxCol - c). */
  predicate IsHalfTurn(p: Pattern, q: Pattern)
    requires p != []
  {
    |q| == |p| && forall i :: 0 <= i < |p| ==> q[i].0 == MaxRow(p) - p[i].0 && q[i].1 == MaxCol(p) - p[i].1
  }

  /** `q` is `p` turned by 270 degrees and anchored: (r, c) lands on
      (maxCol - c, r - minRow). */
  predicate IsThreeQuarterTurn(p: Pattern, q: Pattern)
    requires p != []
  {
    |q| == |p| && forall i :: 0 <= i < |p| ==> q[i].0 == MaxCol(p) - p[i].1 && q[i].1 == p[i].0 - MinRow(p)
  }

  /** `q` is `p` translated so that it is anchored at (0, 0). */
  predicate IsAnchoring(p: Pattern, q: Pattern) {
    |q| == |p| && forall i :: 0 <= i < |p| ==> q[i].0 == p[i].0 - MinRow(p) && q[i].1 == p[i].1 - MinCol(p)
  }

  /** A quarter turn swaps the height and the width. */
  lemma QuarterExtents(p: Pattern, q: Pattern)
    requires p != [] && IsQuarterTurn(p, q)
    ensures MinRow(q) == 0 && MinCol(q) == 0
    ensures MaxRow(q) == MaxCol(p) - MinCol(p) && MaxCol(q) == MaxRow(p) - MinRow(p)
  {
    ExtremesShift(ColsOf(p), RowsOf(q), -MinCol(p));
    ExtremesMirror(RowsOf(p), ColsOf(q), MaxRow(p));
  }

  /** A half turn keeps the height and the width. */
  lemma HalfExtents(p: Pattern, q: Pattern)
    requires p != [] && IsHalfTurn(p, q)
    ensures MinRow(q) == 0 && MinCol(q) == 0
    ensures MaxRow(q) == MaxRow(p) - MinRow(p) && MaxCol(q) == MaxCol(p) - MinCol(p)
  {
    ExtremesMirror(RowsOf(p), RowsOf(q), MaxRow(p));
    ExtremesMirror(ColsOf(p), ColsOf(q), MaxCol(p));
  }

  /** A three-quarter turn swaps the height and the width. */
  lemma ThreeQuarterExtents(p: Pattern, q: Pattern)
    requires p != [] && IsThreeQuarterTurn(p, q)
    ensures MinRow(q) == 0 && MinCol(q) == 0
    ensures MaxRow(q) == MaxCol(p) - MinCol(p) && MaxCol(q) == MaxRow(p) - MinRow(p)
  {
    ExtremesMirror(ColsOf(p), RowsOf(q), MaxCol(p));
    ExtremesShift(RowsOf(p), ColsOf(q), -MinRow(p));
  }

  /** Anchoring the coordinate map (r, c) to (c, -r) gives the quarter turn. */
  lemma QuarterFromTurn(p: Pattern, t: Pattern, q: Pattern)
    requires p != [] && |t| == |p|
    requires forall i :: 0 <= i < |p| ==> t[i].0 == p[i].1 && t[i].1 == -p[i].0
    requires IsAnchoring(t, q)
    ensures IsQuarterTurn(p, q)
  {
    ExtremesShift(ColsOf(p), RowsOf(t), 0);
    ExtremesMirror(RowsOf(p), ColsOf(t), 0);
    var c0, r1 := MinCol(p), MaxRow(p);
    forall i | 0 <= i < |p| ensures q[i].0 == p[i].1 - c0 && q[i].1 == r1 - p[i].0 {
      assert q[i].0 == t[i].0 - c0 && q[i].1 == t[i].1 + r1;
    }
  }

  /** Anchoring (r, c) to (-r, -c) gives the half turn. */
  lemma HalfFromTurn(p: Pattern, t: Pattern, q: Pattern)
    requires p != [] && |t| == |p|
    requires forall i :: 0 <= i < |p| ==> t[i].0 == -p[i].0 && t[i].1 == -p[i].1
    requires IsAnchoring(t, q)
    ensures IsHalfTurn(p, q)
  {
    ExtremesMirror(RowsOf(p), RowsOf(t), 0);
    ExtremesMirror(ColsOf(p), ColsOf(t), 0);
    var r1, c1 := MaxRow(p), MaxCol(p);
    forall i | 0 <= i < |p| ensures q[i].0 == r1 - p[i].0 && q[i].1 == c1 - p[i].1 {
      assert q[i].0 == t[i].0 + r1 && q[i].1 == t[i].1 + c1;
    }
  }

  /** Anchoring (r, c) to (-c, r) gives the three-quarter turn. */
  lemma ThreeQuarterFromTurn(p: Pattern, t: Pattern, q: Pattern)
    requires p != [] && |t| == |p|
    requires forall i :: 0 <= i < |p| ==> t[i].0 == -p[i].1 && t[i].1 == p[i].0
    requires IsAnchoring(t, q)
    ensures IsThreeQuarterTurn(p, q)
  {
    ExtremesMirror(ColsOf(p), RowsOf(t), 0);
    ExtremesShift(RowsOf(p), ColsOf(t), 0);
    var r0, c1 := MinRow(p), MaxCol(p);
    forall i | 0 <= i < |p| ensures q[i].0 == c1 - p[i].1 && q[i].1 == p[i].0 - r0 {
      assert q[i].0 == t[i].0 + c1 && q[i].1 == t[i].1 - r0;
    }
  }

  /** `rotate_pattern` by 90 degrees has the quarter-turn closed form. */
  lemma RotateQuarter(p: Pattern)
    requires p != []
    ensures IsQuarterTurn(p, Rotate(p, 90))
  {
    var t := Turned(p, 90);
    forall i | 0 <= i < |p| ensures t[i].0 == p[i].1 && t[i].1 == -p[i].0 { }
    QuarterFromTurn(p, t, Normalize(t));
  }

  /** `rotate_pattern` by 180 degrees has the half-turn closed form. */
  lemma RotateHalf(p: Pattern)
    requires p != []
    ensures IsHalfTurn(p, Rotate(p, 180))
  {
    var t := Turned(p, 180);
    forall i | 0 <= i < |p| ensures t[i].0 == -p[i].0 && t[i].1 == -p[i].1 { }
    HalfFromTurn(p, t, Normalize(t));
  }

  /** `rotate_pattern` by 270 degrees has the three-quarter-turn closed form. */
  lemma RotateThreeQuarters(p: Pattern)
    requires p != []
    ensures IsThreeQuarterTurn(p, Rotate(p, 270))
  {
    var t := Turned(p, 270);
    forall i | 0 <= i < |p| ensures t[i].0 == -p[i].1 && t[i].1 == p[i].0 { }
    ThreeQuarterFromTurn(p, t, Normalize(t));
  }

  /** A quarter turn after a quarter turn is a half turn. */
  lemma QuarterThenQuarter(p: Pattern, q1: Pattern, q2: Pattern)
    requires p != [] && IsQuarterTurn(p, q1) && IsQuarterTurn(q1, q2)
    ensures IsHalfTurn(p, q2)
  {
    QuarterExtents(p, q1);
    var c0, r1, c1 := MinCol(p), MaxRow(p), MaxCol(p);
    forall i | 0 <= i < |p| ensures q2[i].0 == r1 - p[i].0 && q2[i].1 == c1 - p[i].1 {
      assert q1[i].0 == p[i].1 - c0 && q1[i].1 == r1 - p[i].0;
      assert q2[i].0 == q1[i].1 && q2[i].1 == (c1 - c0) - q1[i].0;
    }
  }

  /** A quarter turn after a half turn is a three-quarter turn. */
  lemma HalfThenQuarter(p: Pattern, q2: Pattern, q3: Pattern)
    requires p != [] && IsHalfTurn(p, q2) && IsQuarterTurn(q2, q3)
    ensures IsThreeQuarterTurn(p, q3)
  {
    HalfExtents(p, q2);
    var r0, r1, c1 := MinRow(p), MaxRow(p), MaxCol(p);
    forall i | 0 <= i < |p| ensures q3[i].0 == c1 - p[i].1 && q3[i].1 == p[i].0 - r0 {
      assert q2[i].0 == r1 - p[i].0 && q2[i].1 == c1 - p[i].1;
      assert q3[i].0 == q2[i].1 && q3[i].1 == (r1 - r0) - q2[i].0;
    }
  }

  /** A quarter turn after a three-quarter turn re-anchors the pattern. */
  lemma ThreeQuartersThenQuarter(p: Pattern, q3: Pattern, q4: Pattern)
    requires p != [] && IsThreeQuarterTurn(p, q3) && IsQuarterTurn(q3, q4)
    ensures IsAnchoring(p, q4)
  {
    ThreeQuarterExtents(p, q3);
    var r0, c0, c1 := MinRow(p), MinCol(p), MaxCol(p);
    forall i | 0 <= i < |p| ensures q4[i].0 == p[i].0 - r0 && q4[i].1 == p[i].1 - c0 {
      assert q3[i].0 == c1 - p[i].1 && q3[i].1 == p[i].0 - r0;
      assert q4[i].0 == q3[i].1 && q4[i].1 == (c1 - c0) - q3[i].0;
    }
  }

  /** Closed forms determine the pattern they describe. */
  lemma HalfTurnUnique(p: Pattern, a: Pattern, b: Pattern)
    requires p != [] && IsHalfTurn(p, a) && IsHalfTurn(p, b)
    ensures a == b
  {
  }

  lemma AnchoringUnique(p: Pattern, a: Pattern, b: Pattern)
    requires IsAnchoring(p, a) && IsAnchoring(p, b)
    ensures a == b
  {
  }

  lemma ThreeQuarterTurnUnique(p: Pattern, a: Pattern, b: Pattern)
    requires p != [] && IsThreeQuarterTurn(p, a) && IsThreeQuarterTurn(p, b)
    ensures a == b
  {
  }

  // ---------------------------------------------------------------------
  // Rotation laws

  /** A half turn is two quarter turns. */
  lemma HalfIsTwoQuarters(p: Pattern)
    ensures Rotate(p, 180) == Rotate(Rotate(p, 90), 90)
  {
    if p != [] {
      var q1 := Rotate(p, 90);
      var q2 := Rotate(q1, 90);
      RotateQuarter(p);
      RotateQuarter(q1);
      QuarterThenQuarter(p, q1, q2);
      RotateHalf(p);
      HalfTurnUnique(p, Rotate(p, 180), q2);
    }
  }

  /** Three quarters of a turn is three quarter turns. */
  lemma ThreeQuartersIsThreeQuarterTurns(p: Pattern)
    ensures Rotate(p, 270) == Rotate(Rotate(Rotate(p, 90), 90), 90)
  {
    if p != [] {
      var q1 := Rotate(p, 90);
      var q2 := Rotate(q1, 90);
      var q3 := Rotate(q2, 90);
      RotateQuarter(p);
      RotateQuarter(q1);
      QuarterThenQuarter(p, q1, q2);
      RotateQuarter(q2);
      HalfThenQuarter(p, q2, q3);
      RotateThreeQuarters(p);
      ThreeQuarterTurnUnique(p, Rotate(p, 270), q3);
    }
  }

  /** Four quarter turns give back the pattern re-anchored at (0, 0). */
  lemma RotateFourQuarters(p: Pattern)
    ensures Rotate(Rotate(Rotate(Rotate(p, 90), 90), 90), 90) == Normalize(p)
  {
    if p != [] {
      var q1 := Rotate(p, 90);
      var q2 := Rotate(q1, 90);
      var q3 := Rotate(q2, 90);
      var q4 := Rotate(q3, 90);
      RotateQuarter(p);
      RotateQuarter(q1);
      QuarterThenQuarter(p, q1, q2);
      RotateQuarter(q2);
      HalfThenQuarter(p, q2, q3);
      RotateQuarter(q3);
      ThreeQuartersThenQuarter(p, q3, q4);
      AnchoringUnique(p, q4, Normalize(p));
    }
  }

  /** An anchored pattern is its own normal form. */
  lemma NormalizeAnchored(p: Pattern)
    requires Anchored(p)
    ensures Normalize(p) == p
  {
  }

  /** So four quarter turns of an anchored pattern return the same list,
      cell for cell and in the same order. */
  lemma RotateCycle(p: Pattern)
    requires Anchored(p)
    ensures Rotate(Rotate(Rotate(Rotate(p, 90), 90), 90), 90) == p
  {
    RotateFourQuarters(p);
    NormalizeAnchored(p);
  }

  // ---------------------------------------------------------------------
  // Mirror laws

  /** Flipping twice keeps every row and moves every column left by the
      smallest column offset: the pattern comes back anchored on the left. */
  lemma FlipTwice(p: Pattern)
    ensures var q := Flip(Flip(p));
      |q| == |p| && forall i :: 0 <= i < |p| ==> q[i] == (p[i].0, p[i].1 - MinCol(p))
  {
    if p != [] {
      var f := Flip(p);
      ExtremesMirror(ColsOf(p), ColsOf(f), MaxCol(p));
    }
  }

  /** Flipping is an involution on patterns whose smallest column is 0
      (every anchored pattern). */
  lemma FlipInvolution(p: Pattern)
    requires MinCol(p) == 0
    ensures Flip(Flip(p)) == p
  {
    FlipTwice(p);
  }

  /** Flipping keeps a pattern anchored. */
  lemma FlipKeepsAnchored(p: Pattern)
    requires Anchored(p)
    ensures Anchored(Flip(p))
  {
    if p != [] {
      var q := Flip(p);
      assert RowsOf(q) == RowsOf(p);
    }
  }
}
