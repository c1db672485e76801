/** Scoring a finished round (the "Hotovo" branch): multiply the truth and solution boards
    cell by cell; a product of +1 is a stone of the right colour in the right place, -1 a
    stone in the right place with the wrong colour. */
module Scoring {
  import opened Grids

  /** `last_score`: (correct, wrong colour, wrong position, fraction of the full score). */
  datatype Score = Score(correct: nat, wrongColour: nat, wrongPosition: nat, percentage: real)

  /** The positive part of a cell of the product: one for a stone of the right colour. */
  function PosPart(x: int): (p: int) { if x > 0 then x else 0 }

  /** The negative part of a cell of the product: one for a stone of the wrong colour. */
  function NegPart(x: int): (p: int) { if -x > 0 then -x else 0 }

  /** `correct_2`: the sum of the positive parts of the element-wise product. */
  function Correct(truth: Grid, solution: Grid): (c: nat)
    requires SameShape(truth, solution)
  {
    GridSumNonneg(Product(truth, solution), PosPart);
    GridSum(Product(truth, solution), PosPart)
  }

  /** `correct_1`: the sum of the negative parts of the element-wise product. */
  function WrongColour(truth: Grid, solution: Grid): (w: nat)
    requires SameShape(truth, solution)
  {
    GridSumNonneg(Product(truth, solution), NegPart);
    GridSum(Product(truth, solution), NegPart)
  }

  /** The score stored at src/main.rs:185-193, with the `usize` subtraction and the division. The
      subtraction is defined only when the stones found do not outnumber the stones requested,
      the division only when some stone was requested. */
  function Evaluate(truth: Grid, solution: Grid, nBlack: nat, nWhite: nat): (sc: Score)
    requires SameShape(truth, solution)
    requires Correct(truth, solution) + WrongColour(truth, solution) <= nBlack + nWhite
    requires nBlack + nWhite > 0
    ensures sc.correct == Correct(truth, solution) && sc.wrongColour == WrongColour(truth, solution)
    ensures sc.correct + sc.wrongColour + sc.wrongPosition == nBlack + nWhite
    ensures 0.0 <= sc.percentage <= 1.0
    ensures sc.percentage == 1.0 <==> sc.correct == nBlack + nWhite
    ensures sc.percentage == 0.0 <==> sc.correct == 0 && sc.wrongColour == 0
  {
    var c, w := Correct(truth, solution), WrongColour(truth, solution);
    var total := nBlack as real + nWhite as real;
    var pct := c as real / total + 0.5 * w as real / total;
    FractionBounds(c as real + 0.5 * w as real, total);
    Score(c, w, nBlack + nWhite - c - w, pct)
  }

  /** x / t lies in [0, 1] exactly when x lies in [0, t], and hits either end exactly when x does. */
  lemma FractionBounds(x: real, t: real)
    requires t > 0.0
    ensures (0.0 <= x / t <= 1.0) <==> (0.0 <= x <= t)
    ensures x / t == 1.0 <==> x == t
    ensures x / t == 0.0 <==> x == 0.0
  {
    var q := x / t;
    assert q * t == x;
    if q > 1.0 { assert q * t > t; }
    if q < 0.0 { assert q * t < 0.0; }
  }

  // ---------------------------------------------------------------------------------------

  /** On well-formed boards the two sums count cells: `correct` the cells where both boards
      hold the same colour, `wrong_color` the cells holding opposite colours. */
  lemma TallyCounts(truth: Grid, solution: Grid)
    requires SameShape(truth, solution) && CellsInRange(truth) && CellsInRange(solution)
    ensures var p := Product(truth, solution);
            && (forall i, j :: 0 <= i < |p| && 0 <= j < |p[i]| ==>
                  (p[i][j] == 1 <==> truth[i][j] != 0 && solution[i][j] == truth[i][j]) &&
                  (p[i][j] == -1 <==> truth[i][j] != 0 && solution[i][j] == -truth[i][j]))
            && Correct(truth, solution) == BlackCount(p)
            && WrongColour(truth, solution) == WhiteCount(p)
  {
    var p := Product(truth, solution);
    forall i, j | 0 <= i < |p| && 0 <= j < |p[i]|
      ensures -1 <= p[i][j] <= 1
      ensures PosPart(p[i][j]) == IsBlack(p[i][j]) && NegPart(p[i][j]) == IsWhite(p[i][j])
    {
      assert p[i][j] == truth[i][j] * solution[i][j];
    }
    GridSumPairEq(p, PosPart, p, Zero, p, IsBlack);
    GridSumPairEq(p, NegPart, p, Zero, p, IsWhite);
    GridSumZero(p, Zero);
  }

  function Zero(x: int): (z: int) { 0 }

  /** A stone is scored at most once and only where the truth has one: correct + wrong colour
      never exceeds the number of truth stones. */
  lemma TallyBound(truth: Grid, solution: Grid)
    requires SameShape(truth, solution) && CellsInRange(truth) && CellsInRange(solution)
    ensures Correct(truth, solution) + WrongColour(truth, solution) <= StoneCount(truth)
  {
    var p := Product(truth, solution);
    forall i, j | 0 <= i < |p| && 0 <= j < |p[i]|
      ensures PosPart(p[i][j]) + NegPart(p[i][j]) <= IsStone(truth[i][j])
    {
      assert p[i][j] == truth[i][j] * solution[i][j];
    }
    GridSumPairLe(p, PosPart, p, NegPart, truth, IsStone);
  }

  /** Hence the `usize` subtraction for the wrong-position count cannot underflow once the
      truth board holds no more stones than were requested. */
  lemma NoUnderflow(truth: Grid, solution: Grid, nBlack: nat, nWhite: nat)
    requires SameShape(truth, solution) && CellsInRange(truth) && CellsInRange(solution)
    requires StoneCount(truth) <= nBlack + nWhite
    ensures Correct(truth, solution) + WrongColour(truth, solution) <= nBlack + nWhite
  {
    TallyBound(truth, solution);
  }

  /** The `i8` sums cannot overflow on a board of at most 10 by 10. */
  lemma TallyFitsInI8(truth: Grid, solution: Grid, n: nat)
    requires Square(truth, n) && SameShape(truth, solution) && n <= 10
    requires CellsInRange(truth) && CellsInRange(solution)
    ensures Correct(truth, solution) <= 127 && WrongColour(truth, solution) <= 127
  {
    TallyBound(truth, solution);
    GridSumUnitBounds(truth, n, IsStone);
    SquareAtMost(n, 10);
  }

  lemma SquareAtMost(n: nat, m: nat)
    requires n <= m
    ensures n * n <= m * m
  {
    assert n * n <= n * m <= m * m;
  }

  /** Reproducing the truth exactly scores every truth stone as correct and nothing else. */
  lemma IdenticalSolution(truth: Grid)
    requires CellsInRange(truth)
    ensures SameShape(truth, truth)
    ensures Correct(truth, truth) == StoneCount(truth) && WrongColour(truth, truth) == 0
  {
    var p := Product(truth, truth);
    forall i, j | 0 <= i < |p| && 0 <= j < |p[i]|
      ensures PosPart(p[i][j]) + Zero(p[i][j]) == IsStone(truth[i][j]) && NegPart(p[i][j]) == 0
    {
      assert p[i][j] == truth[i][j] * truth[i][j];
    }
    GridSumPairEq(p, PosPart, p, Zero, truth, IsStone);
    GridSumZero(p, Zero);
    GridSumZero(p, NegPart);
  }

  /** ... so a round whose truth board holds all requested stones scores 1.0. */
  lemma IdenticalScoresFull(truth: Grid, nBlack: nat, nWhite: nat)
    requires CellsInRange(truth) && StoneCount(truth) == nBlack + nWhite > 0
    ensures SameShape(truth, truth)
    ensures && Correct(truth, truth) == nBlack + nWhite && WrongColour(truth, truth) == 0
            && Evaluate(truth, truth, nBlack, nWhite) == Score(nBlack + nWhite, 0, 0, 1.0)
  {
    IdenticalSolution(truth);
  }

  /** An empty solution scores nothing: every requested stone is in the wrong position. */
  lemma EmptySolution(truth: Grid, solution: Grid, nBlack: nat, nWhite: nat)
    requires SameShape(truth, solution) && Empty(solution) && nBlack + nWhite > 0
    ensures && Correct(truth, solution) == 0 && WrongColour(truth, solution) == 0
            && Evaluate(truth, solution, nBlack, nWhite) == Score(0, 0, nBlack + nWhite, 0.0)
  {
    var p := Product(truth, solution);
    forall i, j | 0 <= i < |p| && 0 <= j < |p[i]| ensures p[i][j] == 0 {
      assert p[i][j] == truth[i][j] * solution[i][j];
    }
    GridSumZero(p, PosPart);
    GridSumZero(p, NegPart);
  }

  /** Swapping every colour of the truth scores every truth stone as a wrong colour. */
  lemma SwappedSolution(truth: Grid)
    requires CellsInRange(truth)
    ensures SameShape(truth, Negated(truth))
    ensures Correct(truth, Negated(truth)) == 0
    ensures WrongColour(truth, Negated(truth)) == StoneCount(truth)
  {
    var s := Negated(truth);
    var p := Product(truth, s);
    forall i, j | 0 <= i < |p| && 0 <= j < |p[i]|
      ensures NegPart(p[i][j]) + Zero(p[i][j]) == IsStone(truth[i][j]) && PosPart(p[i][j]) == 0
    {
      assert p[i][j] == truth[i][j] * s[i][j];
    }
    GridSumPairEq(p, NegPart, p, Zero, truth, IsStone);
    GridSumZero(p, Zero);
    GridSumZero(p, PosPart);
  }
}
