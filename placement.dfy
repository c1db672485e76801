/** The placement rule of `mouse_move`: what one click does to the clicked cell of the
    solution board. A button has a sign (left 1, right -1); the click first proposes the next
    value of the cycle 0 -> sign -> -sign -> 0, then the colour caps may redirect it. */
module Placement {
  import opened Grids

  /** The proposed value (src/main.rs:296-302): an empty cell takes the button's colour, a cell of
      the button's colour flips to the other colour, any other cell is cleared. */
  function Cycle(stone: int, sign: int): (v: int)
    ensures -1 <= stone <= 1 && (sign == 1 || sign == -1) ==> -1 <= v <= 1 && v != stone
  {
    if stone == 0 then sign else if stone == sign then -sign else 0
  }

  /** Whether the board still has room for one more stone of `colour`; the counts include
      the clicked cell. */
  predicate HasRoom(colour: int, black: nat, white: nat, nBlack: nat, nWhite: nat)
  {
    if colour == 1 then black < nBlack else white < nWhite
  }

  /** The cap fall-back that the three fix-ups at src/main.rs:305-313 amount to: keep the proposed
      colour if it has room, else take the other colour if that has room, else leave the cell
      empty. */
  function Resolve(cand: int, black: nat, white: nat, nBlack: nat, nWhite: nat): (v: int)
    ensures v == cand || v == -cand || v == 0
  {
    if cand == 0 then 0
    else if HasRoom(cand, black, white, nBlack, nWhite) then cand
    else if HasRoom(-cand, black, white, nBlack, nWhite) then -cand
    else 0
  }

  /** The condition guarding the write at src/main.rs:314-316. */
  predicate WriteAllowed(v: int, black: nat, white: nat, nBlack: nat, nWhite: nat)
  {
    !((v == 1 && black >= nBlack) || (v == -1 && white >= nWhite))
  }

  /** The solution board after a click with button `sign` on cell (i, j). */
  function Toggle(g: Grid, i: nat, j: nat, sign: int, nBlack: nat, nWhite: nat): (h: Grid)
    requires i < |g| && j < |g[i]|
  {
    Write(g, i, j, Resolve(Cycle(g[i][j], sign), BlackCount(g), WhiteCount(g), nBlack, nWhite))
  }

  // ---------------------------------------------------------------------------------------

  /** One button walks a cell through a cycle of length three. */
  lemma CycleOrbit(stone: int, sign: int)
    requires -1 <= stone <= 1 && (sign == 1 || sign == -1)
    ensures Cycle(0, sign) == sign && Cycle(sign, sign) == -sign && Cycle(-sign, sign) == 0
    ensures Cycle(Cycle(Cycle(stone, sign), sign), sign) == stone
  {
  }

  /** The value written never breaks a cap, is a cell value, and follows the proposed value
      whenever its colour has room. */
  lemma ResolveFacts(cand: int, black: nat, white: nat, nBlack: nat, nWhite: nat)
    requires -1 <= cand <= 1
    ensures var v := Resolve(cand, black, white, nBlack, nWhite);
            && -1 <= v <= 1
            && (v == 1 ==> black < nBlack)
            && (v == -1 ==> white < nWhite)
            && (cand != 0 && HasRoom(cand, black, white, nBlack, nWhite) ==> v == cand)
            && (cand == 0 ==> v == 0)
            && (v == 0 ==> cand == 0 || (black >= nBlack && white >= nWhite))
  {
  }

  /** The guard at src/main.rs:314-316 can never be false after the fix-ups, so the write always
      happens. */
  lemma GuardAlwaysHolds(cand: int, black: nat, white: nat, nBlack: nat, nWhite: nat)
    requires -1 <= cand <= 1
    ensures WriteAllowed(Resolve(cand, black, white, nBlack, nWhite), black, white, nBlack, nWhite)
  {
  }

  /** A click keeps both caps and the cell range, and changes no cell but the clicked one. */
  lemma ToggleRespectsCaps(g: Grid, i: nat, j: nat, sign: int, nBlack: nat, nWhite: nat)
    requires i < |g| && j < |g[i]| && CellsInRange(g) && (sign == 1 || sign == -1)
    requires BlackCount(g) <= nBlack && WhiteCount(g) <= nWhite
    ensures var h := Toggle(g, i, j, sign, nBlack, nWhite);
            && SameShape(g, h) && CellsInRange(h)
            && BlackCount(h) <= nBlack && WhiteCount(h) <= nWhite
            && (forall r, c :: 0 <= r < |g| && 0 <= c < |g[r]| && (r, c) != (i, j) ==> h[r][c] == g[r][c])
  {
    var v := Resolve(Cycle(g[i][j], sign), BlackCount(g), WhiteCount(g), nBlack, nWhite);
    GridSumWrite(g, IsBlack, i, j, v);
    GridSumWrite(g, IsWhite, i, j, v);
    GridSumWrite(g, IsBlack, i, j, 0);
    GridSumWrite(g, IsWhite, i, j, 0);
  }

  /** When neither cap binds (counting the board without the clicked cell), three clicks of
      one button restore the board. */
  lemma ThreeClicksRestore(g: Grid, i: nat, j: nat, sign: int, nBlack: nat, nWhite: nat)
    requires i < |g| && j < |g[i]| && CellsInRange(g) && (sign == 1 || sign == -1)
    requires BlackCount(g) - IsBlack(g[i][j]) < nBlack && WhiteCount(g) - IsWhite(g[i][j]) < nWhite
    ensures var g1 := Toggle(g, i, j, sign, nBlack, nWhite);
            var g2 := Toggle(g1, i, j, sign, nBlack, nWhite);
            Toggle(g2, i, j, sign, nBlack, nWhite) == g
  {
    var g1 := ClickWithRoom(g, i, j, sign, nBlack, nWhite);
    var g2 := ClickWithRoom(g1, i, j, sign, nBlack, nWhite);
    var g3 := ClickWithRoom(g2, i, j, sign, nBlack, nWhite);
    CycleOrbit(g[i][j], sign);
    assert g3[i][j] == g[i][j];
    forall r | 0 <= r < |g| ensures g3[r] == g[r] {
      if r == i {
        assert forall c :: 0 <= c < |g[r]| ==> g3[r][c] == g[r][c];
      }
    }
  }

  /** One click on a board with room for either colour outside the clicked cell: the cell
      takes the proposed value, and the room outside the cell is unchanged. */
  lemma ClickWithRoom(g: Grid, i: nat, j: nat, sign: int, nBlack: nat, nWhite: nat) returns (h: Grid)
    requires i < |g| && j < |g[i]| && CellsInRange(g) && (sign == 1 || sign == -1)
    requires BlackCount(g) - IsBlack(g[i][j]) < nBlack && WhiteCount(g) - IsWhite(g[i][j]) < nWhite
    ensures h == Toggle(g, i, j, sign, nBlack, nWhite)
    ensures SameShape(g, h) && CellsInRange(h)
    ensures h[i][j] == Cycle(g[i][j], sign)
    ensures forall r, c :: 0 <= r < |g| && 0 <= c < |g[r]| && (r, c) != (i, j) ==> h[r][c] == g[r][c]
    ensures BlackCount(h) - IsBlack(h[i][j]) == BlackCount(g) - IsBlack(g[i][j])
    ensures WhiteCount(h) - IsWhite(h[i][j]) == WhiteCount(g) - IsWhite(g[i][j])
  {
    var v := Cycle(g[i][j], sign);
    assert Resolve(v, BlackCount(g), WhiteCount(g), nBlack, nWhite) == v;
    h := Write(g, i, j, v);
    GridSumWrite(g, IsBlack, i, j, v);
    GridSumWrite(g, IsWhite, i, j, v);
  }
}
