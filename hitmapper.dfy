/** The hit test of `mouse_move`: turn the cursor position into the cell of the solution board
    under it, or no cell. Screen arithmetic is on `real`, an idealisation of the source's `f32`.

    Two frames meet here. Cursor positions have their origin at the window's top-left corner,
    with y running down. Bevy's world coordinates, in which `spawn_board` draws the boards, have
    their origin at the window's centre, with y running up. */
module HitMapper {

  datatype Option<T> = None | Some(value: T)

  /** The `Board` resource the hit test reads: the window size, the world position of the
      centre of the board drawn last (the solution board during a round), and its side length. */
  datatype View = View(windowX: real, windowY: real, originX: real, originY: real, boardSide: real)

  /** The fractional cell coordinate of `p` along one axis, for a board of side `side` whose
      centre lies `offset` past the middle of the window along that axis. */
  function Fractional(size: nat, p: real, window: real, offset: real, side: real): (f: real)
    requires side != 0.0
  {
    size as real * (0.5 + (p - 0.5 * window - offset) / side)
  }

  /** Bounds check, floor, and flip of the second index. A hit always names a cell of the board, so the
      array access that follows is in bounds. */
  function CellIndex(size: nat, fi: real, fj: real): (r: Option<(nat, nat)>)
    ensures r.Some? <==> 0.0 <= fi < size as real && 0.0 <= fj < size as real
    ensures r.Some? ==> r.value.0 < size && r.value.1 < size
  {
    if 0.0 <= fi && fi < size as real && 0.0 <= fj && fj < size as real then
      Some((fi.Floor, size - fj.Floor - 1))
    else
      None
  }

  /** The hit test as the source computes it: the world offset `origin` is subtracted on both
      axes, on the y axis too, although cursor y runs the other way. With a board side of zero
      the `f32` quotient is infinite or not a number, so both bounds checks fail. */
  function HitTestAsWritten(size: nat, cursor: (real, real), view: View): (r: Option<(nat, nat)>)
  {
    if view.boardSide == 0.0 then None
    else
      CellIndex(size,
        Fractional(size, cursor.0, view.windowX, view.originX, view.boardSide),
        Fractional(size, cursor.1, view.windowY, view.originY, view.boardSide))
  }

  /** The hit test with the board's y offset converted to cursor coordinates (`-origin.y`).
      This is the one the game model uses. */
  function HitTest(size: nat, cursor: (real, real), view: View): (r: Option<(nat, nat)>)
  {
    if view.boardSide == 0.0 then None
    else
      CellIndex(size,
        Fractional(size, cursor.0, view.windowX, view.originX, view.boardSide),
        Fractional(size, cursor.1, view.windowY, -view.originY, view.boardSide))
  }

  /** Where a world point appears in cursor coordinates. */
  function ScreenPoint(view: View, x: real, y: real): (c: (real, real))
  {
    (0.5 * view.windowX + x, 0.5 * view.windowY - y)
  }

  /** The centre of the solution board, in cursor coordinates. */
  function BoardCentre(view: View): (c: (real, real))
  {
    ScreenPoint(view, view.originX, view.originY)
  }

  /** The padding `spawn_source` passes to `spawn_board`. */
  const Padding: real := 0.05

  /** Where `spawn_board` draws the centre of cell (i, j), in cursor coordinates: the cells are
      `board_side / (size + padding)` apart around the board's centre, i along x, j along y. */
  function DrawnCellCentre(view: View, size: nat, i: nat, j: nat): (c: (real, real))
  {
    var half := 0.5 * (size as real - 1.0);
    var square := view.boardSide / (size as real + Padding);
    ScreenPoint(view, view.originX + (i as real - half) * square,
                      view.originY + (j as real - half) * square)
  }

  /** The smaller of two lengths, as `f32::min`. */
  function RealMin(a: real, b: real): (m: real)
    ensures m <= a && m <= b && (m == a || m == b)
  {
    if a <= b then a else b
  }

  /** The `Board` resource `spawn_source` leaves behind during a round, when only the solution
      board is drawn. The layout is portrait when 0.9 of the height exceeds the width; then the
      solution board sits below the window's centre, otherwise to its right. */
  function SolutionView(windowX: real, windowY: real): (v: View)
  {
    var vertical := 0.9 * windowY > windowX;
    var side := (1.0 - Padding) *
      (if vertical then RealMin(windowX, 0.9 * 0.5 * windowY) else RealMin(0.9 * windowY, 0.5 * windowX));
    var shift := 0.5 * side * (1.0 + Padding);
    if vertical then View(windowX, windowY, 0.0, -shift, side)
    else View(windowX, windowY, shift, 0.0, side)
  }

  // ---------------------------------------------------------------------------------------

  /** A hit names a cell inside the board: array row floor(fi), from the cursor's x, and array
      column size - 1 - floor(fj), from its y. */
  lemma HitIndicesInRange(size: nat, cursor: (real, real), view: View)
    requires HitTest(size, cursor, view).Some?
    ensures var (i, j) := HitTest(size, cursor, view).value;
            i < size && j < size &&
            var fi := Fractional(size, cursor.0, view.windowX, view.originX, view.boardSide);
            var fj := Fractional(size, cursor.1, view.windowY, -view.originY, view.boardSide);
            i as real <= fi < i as real + 1.0 &&
            (size - 1 - j) as real <= fj < (size - 1 - j) as real + 1.0
  {
  }

  /** Along one axis, the board covers the half-open interval of width `side` centred on
      `0.5 * window + offset`. */
  lemma AxisCovered(size: nat, p: real, window: real, offset: real, side: real)
    requires size > 0 && side > 0.0
    ensures var f := Fractional(size, p, window, offset, side);
            var d := p - 0.5 * window - offset;
            (0.0 <= f < size as real) <==> (-0.5 * side <= d < 0.5 * side)
  {
    var d := p - 0.5 * window - offset;
    var u := d / side;
    var s := size as real;
    assert u * side == d;
    var f := Fractional(size, p, window, offset, side);
    assert f == s * (0.5 + u);
    Scale(s, 0.5 + u);
    Scale(side, 0.5 + u);
    assert side * (0.5 + u) == 0.5 * side + u * side;
  }

  /** Multiplying by a positive factor keeps the sign and the comparison with one. */
  lemma Scale(a: real, x: real)
    requires a > 0.0
    ensures a * x >= 0.0 <==> x >= 0.0
    ensures a * x < a <==> x < 1.0
  {
    if x >= 0.0 { assert a * x >= 0.0; } else { assert a * x < 0.0; }
    if x < 1.0 { assert a * (1.0 - x) > 0.0; } else { assert a * (x - 1.0) >= 0.0; }
  }

  /** A click hits a cell exactly when the cursor lies within the square of side `board_side`
      centred on the solution board's centre on screen; positions outside it give no hit. */
  lemma HitIffOnBoard(size: nat, cursor: (real, real), view: View)
    requires size > 0 && view.boardSide > 0.0
    ensures var dx := cursor.0 - BoardCentre(view).0;
            var dy := cursor.1 - BoardCentre(view).1;
            var half := 0.5 * view.boardSide;
            HitTest(size, cursor, view).Some? <==> (-half <= dx < half && -half <= dy < half)
  {
    AxisCovered(size, cursor.0, view.windowX, view.originX, view.boardSide);
    AxisCovered(size, cursor.1, view.windowY, -view.originY, view.boardSide);
  }

  /** On a board of odd size, the cursor at the board's centre hits the centre cell. */
  lemma CentreHitsCentreCell(size: nat, view: View)
    requires size % 2 == 1 && view.boardSide != 0.0
    ensures HitTest(size, BoardCentre(view), view) == Some((size / 2, size / 2))
  {
    var m := size / 2;
    var centre := BoardCentre(view);
    var f := Fractional(size, centre.0, view.windowX, view.originX, view.boardSide);
    assert centre.0 - 0.5 * view.windowX - view.originX == 0.0;
    assert f == size as real * 0.5;
    assert size == 2 * m + 1;
    assert f == m as real + 0.5;
    assert f.Floor == m;
    var g := Fractional(size, centre.1, view.windowY, -view.originY, view.boardSide);
    assert centre.1 - 0.5 * view.windowY + view.originY == 0.0;
    assert g == m as real + 0.5;
  }

  /** The drawn centre of the k-th cell along an axis lies strictly inside the k-th hit
      interval, and mirrored, strictly inside the (size - 1 - k)-th one. */
  lemma {:induction false} CellCentreFraction(size: nat, k: nat)
    requires k < size
    ensures var g := (k as real - 0.5 * (size as real - 1.0)) / (size as real + Padding);
            var n := size as real;
            && k as real < n * (0.5 + g) < k as real + 1.0
            && (size - 1 - k) as real < n * (0.5 - g) < (size - k) as real
  {
    var n, x := size as real, k as real;
    var t := n + Padding;
    var g := (x - 0.5 * (n - 1.0)) / t;
    assert g * t == x - 0.5 * (n - 1.0);
    var f := n * (0.5 + g);
    var ft, lo, hi := f * t, x * t, (x + 1.0) * t;
    assert ft == n * (0.5 * t + g * t);
    assert ft == n * x + 0.525 * n;
    assert lo == n * x + 0.05 * x;
    assert hi == n * x + 0.05 * x + n + 0.05;
    assert 0.0 <= x < n;
    assert ft - lo == 0.525 * n - 0.05 * x;
    assert hi - ft == 0.05 * x + 0.475 * n + 0.05;
    Below(x, f, t);
    Below(f, x + 1.0, t);
    assert n * (0.5 - g) == n - f;
  }

  /** Dividing a strict comparison by a positive factor. */
  lemma Below(a: real, b: real, t: real)
    requires t > 0.0 && a * t < b * t
    ensures a < b
  {
  }

  /** The cursor at the drawn centre of any cell hits exactly that cell, in either layout. */
  lemma CellCentreHitsCell(size: nat, i: nat, j: nat, view: View)
    requires i < size && j < size && view.boardSide > 0.0
    ensures HitTest(size, DrawnCellCentre(view, size, i, j), view) == Some((i, j))
  {
    var n := size as real;
    var t := n + Padding;
    var half := 0.5 * (n - 1.0);
    var square := view.boardSide / t;
    var c := DrawnCellCentre(view, size, i, j);
    CellCentreFraction(size, i);
    CellCentreFraction(size, j);
    var side := view.boardSide;
    assert square / side == 1.0 / t by {
      assert square * t == side;
    }
    var fi := Fractional(size, c.0, view.windowX, view.originX, side);
    assert c.0 - 0.5 * view.windowX - view.originX == (i as real - half) * square;
    assert fi == n * (0.5 + (i as real - half) / t) by {
      assert (i as real - half) * square / side == (i as real - half) * (square / side);
    }
    assert fi.Floor == i;
    var fj := Fractional(size, c.1, view.windowY, -view.originY, side);
    assert c.1 - 0.5 * view.windowY + view.originY == -((j as real - half) * square);
    assert fj == n * (0.5 - (j as real - half) / t) by {
      assert -((j as real - half) * square) / side == -((j as real - half) * (square / side));
    }
    assert fj.Floor == size - 1 - j;
  }

  /** In the landscape layout the solution board is centred vertically, so the hit test as the
      source writes it agrees with the corrected one everywhere. */
  lemma LandscapeAgrees(size: nat, cursor: (real, real), windowX: real, windowY: real)
    requires 0.9 * windowY <= windowX
    ensures var v := SolutionView(windowX, windowY);
            HitTestAsWritten(size, cursor, v) == HitTest(size, cursor, v)
  {
    assert SolutionView(windowX, windowY).originY == 0.0;
  }

  /** In a 400 by 1000 portrait window the hit test as written misses the centre of the drawn
      5 by 5 solution board, and instead maps the centre of the hidden truth board above it
      to the centre cell. The corrected test hits the centre cell at the solution board's centre. */
  lemma PortraitHitsTruthBoard()
    ensures var v := SolutionView(400.0, 1000.0);
            && v == View(400.0, 1000.0, 0.0, -199.5, 380.0)
            && BoardCentre(v) == (200.0, 699.5)
            && HitTestAsWritten(5, BoardCentre(v), v) == None
            && HitTestAsWritten(5, (200.0, 300.5), v) == Some((2, 2))
            && HitTest(5, BoardCentre(v), v) == Some((2, 2))
  {
    var v := SolutionView(400.0, 1000.0);
    assert v == View(400.0, 1000.0, 0.0, -199.5, 380.0);
    assert Fractional(5, 699.5, 1000.0, -199.5, 380.0) == 7.75;
    assert Fractional(5, 200.0, 400.0, 0.0, 380.0) == 2.5;
    assert Fractional(5, 300.5, 1000.0, -199.5, 380.0) == 2.5;
    assert Fractional(5, 699.5, 1000.0, 199.5, 380.0) == 2.5;
  }
}
