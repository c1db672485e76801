/** The truth-board generator `sample_stone_coords`: enumerate every square of the board,
    take the distinct squares the random generator picks, colour the first `nBlack` of them
    black and the rest white. The randomness is an input: `picks` are the positions, in the
    enumeration, of the squares `choose_multiple` returned, in the order it returned them. */
module Generator {
  import opened Grids

  /** The squares (i, 0), ..., (i, n - 1) of one row, in the inner loop's order. */
  function Row(i: int, n: nat): (r: seq<Coord>)
    ensures |r| == n
    ensures forall j :: 0 <= j < n ==> r[j] == (i, j)
  {
    seq(n, j => (i, j))
  }

  /** The squares of the first `rows` rows, in the nested loops' order. */
  function SquaresUpTo(n: nat, rows: nat): (s: seq<Coord>)
    ensures |s| == rows * n
    ensures forall p :: 0 <= p < |s| ==> 0 <= s[p].0 < rows && 0 <= s[p].1 < n
  {
    if rows == 0 then [] else SquaresUpTo(n, rows - 1) + Row(rows - 1, n)
  }

  /** Every square of an n by n board, row by row. */
  function Squares(n: nat): (s: seq<Coord>)
    ensures |s| == n * n && forall p :: 0 <= p < |s| ==> InBoard(s[p], n)
  {
    SquaresUpTo(n, n)
  }

  /** Row-major (lexicographic) order on squares. */
  predicate Before(a: Coord, b: Coord) {
    a.0 < b.0 || (a.0 == b.0 && a.1 < b.1)
  }

  predicate Distinct<T(==)>(s: seq<T>) {
    forall p, q :: 0 <= p < q < |s| ==> s[p] != s[q]
  }

  /** What `choose_multiple` promises: `count` distinct positions below `len`. */
  predicate ValidPicks(picks: seq<nat>, len: nat, count: nat) {
    |picks| == count && Distinct(picks) && forall k :: 0 <= k < |picks| ==> picks[k] < len
  }

  /** The number of stones placed: the requested total, or the number of squares when that is smaller. */
  function StonesToPlace(nBlack: nat, nWhite: nat, n: nat): (k: nat)
    ensures k <= nBlack + nWhite && k <= n * n
    ensures k == nBlack + nWhite || k == n * n
    ensures k == Min(nBlack + nWhite, n * n)
  {
    if nBlack + nWhite < n * n then nBlack + nWhite else n * n
  }

  /** The colour of the k-th chosen square: black while k < nBlack, white afterwards. */
  function Colour(k: nat, nBlack: nat): (v: int) { if k < nBlack then 1 else -1 }

  /** The squares `choose_multiple` returns, given the positions it picked. */
  function Chosen(squares: seq<Coord>, picks: seq<nat>): (c: seq<Coord>)
    requires forall k :: 0 <= k < |picks| ==> picks[k] < |squares|
    ensures |c| == |picks|
    ensures forall k :: 0 <= k < |picks| ==> c[k] == squares[picks[k]]
  {
    seq(|picks|, k requires 0 <= k < |picks| => squares[picks[k]])
  }

  /** The board after the loop at src/main.rs:58-66 has written the squares `coords` in order. */
  function Placed(n: nat, coords: seq<Coord>, nBlack: nat): (g: Grid)
    requires forall k :: 0 <= k < |coords| ==> InBoard(coords[k], n)
    ensures Square(g, n)
    decreases |coords|
  {
    if coords == [] then Zeros(n, n)
    else
      var k := |coords| - 1;
      var g := Placed(n, coords[..k], nBlack);
      var c := coords[k];
      assert InBoard(c, n);
      Write(g, c.0, c.1, Colour(k, nBlack))
  }

  /** The truth board `sample_stone_coords` returns for the draw `picks`. */
  function Drawn(n: nat, nBlack: nat, picks: seq<nat>): (g: Grid)
    requires forall k :: 0 <= k < |picks| ==> picks[k] < n * n
  {
    Placed(n, Chosen(Squares(n), picks), nBlack)
  }

  // ---------------------------------------------------------------------------------------
  // The enumeration

  /** The enumeration lists every square of the board exactly once, in row-major order. */
  lemma {:induction false} SquaresUpToOrdered(n: nat, rows: nat)
    ensures forall p, q :: 0 <= p < q < |SquaresUpTo(n, rows)| ==>
              Before(SquaresUpTo(n, rows)[p], SquaresUpTo(n, rows)[q])
  {
    if rows > 0 {
      SquaresUpToOrdered(n, rows - 1);
    }
  }

  /** Every square of the board appears in the enumeration. */
  lemma {:induction false} SquaresUpToComplete(n: nat, rows: nat, c: Coord)
    requires 0 <= c.0 < rows && 0 <= c.1 < n
    ensures c in SquaresUpTo(n, rows)
  {
    if c.0 < rows - 1 {
      SquaresUpToComplete(n, rows - 1, c);
    } else {
      assert Row(rows - 1, n)[c.1] == c;
    }
  }

  lemma SquaresComplete(n: nat)
    ensures Distinct(Squares(n))
    ensures forall c :: InBoard(c, n) ==> c in Squares(n)
  {
    SquaresUpToOrdered(n, n);
    forall c | InBoard(c, n) ensures c in Squares(n) {
      SquaresUpToComplete(n, n, c);
    }
  }

  /** Distinct positions in a list without repeats name distinct squares. */
  lemma ChosenDistinct(squares: seq<Coord>, picks: seq<nat>)
    requires forall k :: 0 <= k < |picks| ==> picks[k] < |squares|
    requires Distinct(squares) && Distinct(picks)
    ensures Distinct(Chosen(squares, picks))
  {
  }

  /** Distinct positions in the enumeration name distinct squares on the board. */
  lemma ChosenFacts(n: nat, picks: seq<nat>)
    requires forall k :: 0 <= k < |picks| ==> picks[k] < n * n
    requires Distinct(picks)
    ensures Distinct(Chosen(Squares(n), picks))
  {
    SquaresComplete(n);
    ChosenDistinct(Squares(n), picks);
  }

  // ---------------------------------------------------------------------------------------
  // The placed board

  /** A square that was never chosen stays empty. */
  lemma {:induction false} PlacedOutside(n: nat, coords: seq<Coord>, nBlack: nat, c: Coord)
    requires forall k :: 0 <= k < |coords| ==> InBoard(coords[k], n)
    requires InBoard(c, n) && c !in coords
    ensures Placed(n, coords, nBlack)[c.0][c.1] == 0
  {
    if coords != [] {
      var k := |coords| - 1;
      assert c !in coords[..k];
      PlacedOutside(n, coords[..k], nBlack, c);
    }
  }

  /** The k-th chosen square holds the k-th colour. */
  lemma {:induction false} PlacedAt(n: nat, coords: seq<Coord>, nBlack: nat, k: nat)
    requires forall q :: 0 <= q < |coords| ==> InBoard(coords[q], n)
    requires Distinct(coords) && k < |coords|
    ensures Placed(n, coords, nBlack)[coords[k].0][coords[k].1] == Colour(k, nBlack)
  {
    var last := |coords| - 1;
    if k < last {
      assert coords[..last][k] == coords[k];
      PlacedAt(n, coords[..last], nBlack, k);
    }
  }

  /** Placing m distinct squares gives min(nBlack, m) black stones, the rest white,
      and nothing else on the board. */
  lemma {:induction false} PlacedCounts(n: nat, coords: seq<Coord>, nBlack: nat)
    requires forall k :: 0 <= k < |coords| ==> InBoard(coords[k], n)
    requires Distinct(coords)
    ensures CellsInRange(Placed(n, coords, nBlack))
    ensures BlackCount(Placed(n, coords, nBlack)) == Min(nBlack, |coords|)
    ensures WhiteCount(Placed(n, coords, nBlack)) == |coords| - Min(nBlack, |coords|)
    ensures StoneCount(Placed(n, coords, nBlack)) == |coords|
  {
    var g := Placed(n, coords, nBlack);
    if coords == [] {
      ZerosHoldNoStones(n, n);
    } else {
      var k := |coords| - 1;
      var prefix := coords[..k];
      var h := Placed(n, prefix, nBlack);
      assert Distinct(prefix);
      PlacedCounts(n, prefix, nBlack);
      assert coords[k] !in prefix;
      PlacedOutside(n, prefix, nBlack, coords[k]);
      GridSumWrite(h, IsBlack, coords[k].0, coords[k].1, Colour(k, nBlack));
      GridSumWrite(h, IsWhite, coords[k].0, coords[k].1, Colour(k, nBlack));
    }
    StonesAreBlackOrWhite(g);
  }

  /** The smaller of two integers, as `usize::min`. */
  function Min(a: int, b: int): (m: int)
    ensures m <= a && m <= b && (m == a || m == b)
  {
    if a < b then a else b
  }

  /** The generator's counts for a valid draw: exactly StonesToPlace(...) stones, of which
      min(nBlack, StonesToPlace(...)) are black and the rest white. */
  lemma GeneratedBoard(nBlack: nat, nWhite: nat, n: nat, picks: seq<nat>)
    requires ValidPicks(picks, n * n, StonesToPlace(nBlack, nWhite, n))
    ensures var g := Drawn(n, nBlack, picks);
            var k := StonesToPlace(nBlack, nWhite, n);
            && Square(g, n) && CellsInRange(g)
            && StoneCount(g) == k
            && BlackCount(g) == Min(nBlack, k)
            && WhiteCount(g) == k - Min(nBlack, k)
  {
    ChosenFacts(n, picks);
    PlacedCounts(n, Chosen(Squares(n), picks), nBlack);
  }

  /** Square by square: the k-th square `choose_multiple` returned holds black while k < nBlack
      and white afterwards, and every square it did not return is empty. */
  lemma DrawnSquares(n: nat, nBlack: nat, picks: seq<nat>)
    requires forall k :: 0 <= k < |picks| ==> picks[k] < n * n
    requires Distinct(picks)
    ensures var g := Drawn(n, nBlack, picks);
            var c := Chosen(Squares(n), picks);
            && Square(g, n)
            && (forall k :: 0 <= k < |c| ==> g[c[k].0][c[k].1] == Colour(k, nBlack))
            && (forall p :: InBoard(p, n) && p !in c ==> g[p.0][p.1] == 0)
  {
    var c := Chosen(Squares(n), picks);
    ChosenFacts(n, picks);
    forall k | 0 <= k < |c| ensures Drawn(n, nBlack, picks)[c[k].0][c[k].1] == Colour(k, nBlack) {
      PlacedAt(n, c, nBlack, k);
    }
    forall p | InBoard(p, n) && p !in c ensures Drawn(n, nBlack, picks)[p.0][p.1] == 0 {
      PlacedOutside(n, c, nBlack, p);
    }
  }

  /** Without a shortfall, each colour gets exactly the requested number of stones. */
  lemma NoShortfallExactCounts(nBlack: nat, nWhite: nat, n: nat, picks: seq<nat>)
    requires nBlack + nWhite <= n * n
    requires ValidPicks(picks, n * n, StonesToPlace(nBlack, nWhite, n))
    ensures var g := Drawn(n, nBlack, picks);
            BlackCount(g) == nBlack && WhiteCount(g) == nWhite
  {
    GeneratedBoard(nBlack, nWhite, n, picks);
  }

  // ---------------------------------------------------------------------------------------
  // The imperative code

  /** The nested loops at src/main.rs:50-55: push (i, j) for every row i and column j. */
  method EnumerateSquares(n: nat) returns (squares: seq<Coord>)
    ensures squares == Squares(n)
  {
    squares := [];
    var i := 0;
    while i < n
      invariant 0 <= i <= n
      invariant squares == SquaresUpTo(n, i)
    {
      var j := 0;
      while j < n
        invariant 0 <= j <= n
        invariant squares == SquaresUpTo(n, i) + Row(i, n)[..j]
      {
        assert Row(i, n)[..j + 1] == Row(i, n)[..j] + [(i, j)];
        squares := squares + [(i, j)];
        j := j + 1;
      }
      assert Row(i, n)[..n] == Row(i, n);
      i := i + 1;
    }
  }

  /** `sample_stone_coords(n_black, n_white, board_size)` with the random draw given as `picks`. */
  method SampleStoneCoords(nBlack: nat, nWhite: nat, n: nat, picks: seq<nat>) returns (ret: array2<int>)
    requires ValidPicks(picks, n * n, StonesToPlace(nBlack, nWhite, n))
    ensures fresh(ret) && ret.Length0 == n && ret.Length1 == n
    ensures Cells(ret) == Drawn(n, nBlack, picks)
    ensures CellsInRange(Cells(ret))
    ensures StoneCount(Cells(ret)) == StonesToPlace(nBlack, nWhite, n)
    ensures BlackCount(Cells(ret)) == Min(nBlack, StonesToPlace(nBlack, nWhite, n))
    ensures WhiteCount(Cells(ret)) == StonesToPlace(nBlack, nWhite, n) - Min(nBlack, StonesToPlace(nBlack, nWhite, n))
  {
    var squares := EnumerateSquares(n);
    ChosenFacts(n, picks);
    var chosen := Chosen(squares, picks);
    ret := NewZeros(n);
    var k := 0;
    while k < |chosen|
      invariant 0 <= k <= |chosen|
      invariant Cells(ret) == Placed(n, chosen[..k], nBlack)
    {
      var (i, j) := chosen[k];
      Store(ret, i, j, if k < nBlack then 1 else -1);
      assert chosen[..k + 1][..k] == chosen[..k];
      k := k + 1;
    }
    assert chosen[..k] == chosen;
    GeneratedBoard(nBlack, nWhite, n, picks);
  }
}
