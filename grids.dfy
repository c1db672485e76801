/** Boards of the memory game: square grids of signed cells (0 empty, 1 black, -1 white),
    and the `map(..).sum()` reductions the game applies to them. */
module Grids {

  type Grid = seq<seq<int>>

  /** A cell coordinate: the array row (first axis) and the array column (second axis).
      `spawn_board` draws array row i as the i-th screen column from the left, and array
      column j as the j-th screen row from the bottom. */
  type Coord = (int, int)

  predicate Square(g: Grid, n: nat) {
    |g| == n && forall i :: 0 <= i < n ==> |g[i]| == n
  }

  predicate SameShape(a: Grid, b: Grid) {
    |a| == |b| && forall i :: 0 <= i < |a| ==> |a[i]| == |b[i]|
  }

  predicate InBoard(c: Coord, n: nat) {
    0 <= c.0 < n && 0 <= c.1 < n
  }

  /** Every cell is empty, black or white. */
  predicate CellsInRange(g: Grid) {
    forall i, j :: 0 <= i < |g| && 0 <= j < |g[i]| ==> -1 <= g[i][j] <= 1
  }

  /** No cell holds a stone. */
  predicate Empty(g: Grid) {
    forall i, j :: 0 <= i < |g| && 0 <= j < |g[i]| ==> g[i][j] == 0
  }

  /** `ndarray::Array2::zeros([n, m])`. */
  function Zeros(n: nat, m: nat): (g: Grid)
    ensures |g| == n && forall i :: 0 <= i < n ==> |g[i]| == m
    ensures forall i, j :: 0 <= i < n && 0 <= j < m ==> g[i][j] == 0
  {
    seq(n, _ => seq(m, _ => 0))
  }

  /** The contents of a 2-D array, row by row. */
  function Cells(a: array2<int>): (g: Grid)
    reads a
    ensures |g| == a.Length0 && forall i :: 0 <= i < a.Length0 ==> |g[i]| == a.Length1
    ensures forall i, j :: 0 <= i < a.Length0 && 0 <= j < a.Length1 ==> g[i][j] == a[i, j]
  {
    seq(a.Length0, i requires 0 <= i < a.Length0 reads a =>
      seq(a.Length1, j requires 0 <= j < a.Length1 reads a => a[i, j]))
  }

  /** The grid with the one cell (i, j) replaced by v; every other cell kept. */
  function Write(g: Grid, i: nat, j: nat, v: int): (h: Grid)
    requires i < |g| && j < |g[i]|
    ensures SameShape(g, h)
    ensures h[i][j] == v
    ensures forall r, c :: 0 <= r < |g| && 0 <= c < |g[r]| && (r, c) != (i, j) ==> h[r][c] == g[r][c]
  {
    g[i := g[i][j := v]]
  }

  /** Element-wise product, as `truth * solution` on two arrays of one shape. */
  function Product(a: Grid, b: Grid): (p: Grid)
    requires SameShape(a, b)
    ensures SameShape(a, p)
    ensures forall i, j :: 0 <= i < |a| && 0 <= j < |a[i]| ==> p[i][j] == a[i][j] * b[i][j]
  {
    seq(|a|, i requires 0 <= i < |a| => seq(|a[i]|, j requires 0 <= j < |a[i]| => a[i][j] * b[i][j]))
  }

  /** The solution with every stone's colour swapped. */
  function Negated(a: Grid): (b: Grid)
    ensures SameShape(a, b)
    ensures forall i, j :: 0 <= i < |a| && 0 <= j < |a[i]| ==> b[i][j] == -a[i][j]
  {
    seq(|a|, i requires 0 <= i < |a| => seq(|a[i]|, j requires 0 <= j < |a[i]| => -a[i][j]))
  }

  /** A fresh n by n array of zeros: `ndarray::Array2::zeros([n, n])`. */
  method NewZeros(n: nat) returns (a: array2<int>)
    ensures fresh(a) && a.Length0 == n && a.Length1 == n
    ensures Cells(a) == Zeros(n, n)
    ensures CellsInRange(Cells(a)) && BlackCount(Cells(a)) == 0 && WhiteCount(Cells(a)) == 0
  {
    a := new int[n, n]((_, _) => 0);
    forall i | 0 <= i < n ensures Cells(a)[i] == Zeros(n, n)[i] { }
    ZerosHoldNoStones(n, n);
  }

  /** `a[[i, j]] = v`: the one cell changes, every other cell keeps its value. */
  method Store(a: array2<int>, i: nat, j: nat, v: int)
    requires i < a.Length0 && j < a.Length1
    modifies a
    ensures Cells(a) == Write(old(Cells(a)), i, j, v)
  {
    a[i, j] := v;
    ghost var h := Write(old(Cells(a)), i, j, v);
    forall r | 0 <= r < a.Length0 ensures Cells(a)[r] == h[r] { }
  }

  // ---------------------------------------------------------------------------------------
  // Sums of a cell map over a row and over a whole grid, as ndarray's `map(f).sum()`

  function RowSum(r: seq<int>, f: int -> int): (s: int)
  {
    if r == [] then 0 else f(r[0]) + RowSum(r[1..], f)
  }

  function GridSum(g: Grid, f: int -> int): (s: int)
  {
    if g == [] then 0 else RowSum(g[0], f) + GridSum(g[1..], f)
  }

  /** One for every black stone. */
  function IsBlack(x: int): (b: int) { if x == 1 then 1 else 0 }

  /** One for every white stone. */
  function IsWhite(x: int): (w: int) { if x == -1 then 1 else 0 }

  /** One for every occupied cell. */
  function IsStone(x: int): (s: int) { if x != 0 then 1 else 0 }

  /** The number of black stones on the board. */
  function BlackCount(g: Grid): (c: nat) { GridSumNonneg(g, IsBlack); GridSum(g, IsBlack) }

  /** The number of white stones on the board. */
  function WhiteCount(g: Grid): (c: nat) { GridSumNonneg(g, IsWhite); GridSum(g, IsWhite) }

  /** The number of stones of either colour on the board. */
  function StoneCount(g: Grid): (c: nat) { GridSumNonneg(g, IsStone); GridSum(g, IsStone) }

  // ---------------------------------------------------------------------------------------
  // Lemmas about the sums

  /** Writing one cell changes a row's sum by the difference of that cell's terms. */
  lemma {:induction false} RowSumWrite(r: seq<int>, f: int -> int, j: nat, v: int)
    requires j < |r|
    ensures RowSum(r[j := v], f) == RowSum(r, f) - f(r[j]) + f(v)
  {
    if j == 0 {
      assert r[j := v][1..] == r[1..];
    } else {
      assert r[j := v][1..] == r[1..][j - 1 := v];
      RowSumWrite(r[1..], f, j - 1, v);
    }
  }

  /** Writing one cell changes a grid's sum by the difference of that cell's terms. */
  lemma {:induction false} GridSumWrite(g: Grid, f: int -> int, i: nat, j: nat, v: int)
    requires i < |g| && j < |g[i]|
    ensures GridSum(Write(g, i, j, v), f) == GridSum(g, f) - f(g[i][j]) + f(v)
  {
    var h := Write(g, i, j, v);
    if i == 0 {
      assert h[1..] == g[1..];
      RowSumWrite(g[0], f, j, v);
    } else {
      assert h[1..] == Write(g[1..], i - 1, j, v);
      GridSumWrite(g[1..], f, i - 1, j, v);
    }
  }

  /** Pointwise `f(a) + h(b) <= k(c)` on rows of one length carries over to the sums. */
  lemma {:induction false} RowSumPairLe(a: seq<int>, f: int -> int, b: seq<int>, h: int -> int,
                                        c: seq<int>, k: int -> int)
    requires |a| == |b| == |c|
    requires forall j :: 0 <= j < |a| ==> f(a[j]) + h(b[j]) <= k(c[j])
    ensures RowSum(a, f) + RowSum(b, h) <= RowSum(c, k)
  {
    if a != [] {
      RowSumPairLe(a[1..], f, b[1..], h, c[1..], k);
    }
  }

  lemma {:induction false} RowSumPairEq(a: seq<int>, f: int -> int, b: seq<int>, h: int -> int,
                                        c: seq<int>, k: int -> int)
    requires |a| == |b| == |c|
    requires forall j :: 0 <= j < |a| ==> f(a[j]) + h(b[j]) == k(c[j])
    ensures RowSum(a, f) + RowSum(b, h) == RowSum(c, k)
  {
    if a != [] {
      RowSumPairEq(a[1..], f, b[1..], h, c[1..], k);
    }
  }

  /** Pointwise `f(a) + h(b) <= k(c)` on grids of one shape carries over to the sums. */
  lemma {:induction false} GridSumPairLe(a: Grid, f: int -> int, b: Grid, h: int -> int,
                                         c: Grid, k: int -> int)
    requires SameShape(a, b) && SameShape(a, c)
    requires forall i, j :: 0 <= i < |a| && 0 <= j < |a[i]| ==> f(a[i][j]) + h(b[i][j]) <= k(c[i][j])
    ensures GridSum(a, f) + GridSum(b, h) <= GridSum(c, k)
  {
    if a != [] {
      RowSumPairLe(a[0], f, b[0], h, c[0], k);
      GridSumPairLe(a[1..], f, b[1..], h, c[1..], k);
    }
  }

  lemma {:induction false} GridSumPairEq(a: Grid, f: int -> int, b: Grid, h: int -> int,
                                         c: Grid, k: int -> int)
    requires SameShape(a, b) && SameShape(a, c)
    requires forall i, j :: 0 <= i < |a| && 0 <= j < |a[i]| ==> f(a[i][j]) + h(b[i][j]) == k(c[i][j])
    ensures GridSum(a, f) + GridSum(b, h) == GridSum(c, k)
  {
    if a != [] {
      RowSumPairEq(a[0], f, b[0], h, c[0], k);
      GridSumPairEq(a[1..], f, b[1..], h, c[1..], k);
    }
  }

  /** A sum whose every term vanishes is zero. */
  lemma {:induction false} GridSumZero(g: Grid, f: int -> int)
    requires forall i, j :: 0 <= i < |g| && 0 <= j < |g[i]| ==> f(g[i][j]) == 0
    ensures GridSum(g, f) == 0
  {
    if g != [] {
      RowSumZero(g[0], f);
      GridSumZero(g[1..], f);
    }
  }

  lemma {:induction false} RowSumZero(r: seq<int>, f: int -> int)
    requires forall j :: 0 <= j < |r| ==> f(r[j]) == 0
    ensures RowSum(r, f) == 0
  {
    if r != [] {
      RowSumZero(r[1..], f);
    }
  }

  /** A sum of non-negative terms is non-negative. */
  lemma {:induction false} GridSumNonneg(g: Grid, f: int -> int)
    requires forall x :: f(x) >= 0
    ensures GridSum(g, f) >= 0
  {
    if g != [] {
      RowSumNonneg(g[0], f);
      GridSumNonneg(g[1..], f);
    }
  }

  lemma {:induction false} RowSumNonneg(r: seq<int>, f: int -> int)
    requires forall x :: f(x) >= 0
    ensures RowSum(r, f) >= 0
  {
    if r != [] {
      RowSumNonneg(r[1..], f);
    }
  }

  /** A sum of terms in [0, 1] lies between zero and the number of cells. */
  lemma {:induction false} RowSumUnitBounds(r: seq<int>, f: int -> int)
    requires forall j :: 0 <= j < |r| ==> 0 <= f(r[j]) <= 1
    ensures 0 <= RowSum(r, f) <= |r|
  {
    if r != [] {
      RowSumUnitBounds(r[1..], f);
    }
  }

  lemma {:induction false} GridSumUnitBounds(g: Grid, n: nat, f: int -> int)
    requires forall i :: 0 <= i < |g| ==> |g[i]| == n
    requires forall i, j :: 0 <= i < |g| && 0 <= j < |g[i]| ==> 0 <= f(g[i][j]) <= 1
    ensures 0 <= GridSum(g, f) <= |g| * n
  {
    if g != [] {
      RowSumUnitBounds(g[0], f);
      GridSumUnitBounds(g[1..], n, f);
    }
  }

  /** The stones of a well-formed grid are its black stones and its white stones. */
  lemma StonesAreBlackOrWhite(g: Grid)
    requires CellsInRange(g)
    ensures StoneCount(g) == BlackCount(g) + WhiteCount(g)
  {
    GridSumPairEq(g, IsBlack, g, IsWhite, g, IsStone);
  }

  /** An empty board holds no stone of either colour. */
  lemma ZerosHoldNoStones(n: nat, m: nat)
    ensures BlackCount(Zeros(n, m)) == 0 && WhiteCount(Zeros(n, m)) == 0 && StoneCount(Zeros(n, m)) == 0
  {
    GridSumZero(Zeros(n, m), IsBlack);
    GridSumZero(Zeros(n, m), IsWhite);
    GridSumZero(Zeros(n, m), IsStone);
  }
}
