/** The game session `SetonGame` and the round state machine driven by the top bar of
    `egui_settings` and by `mouse_move`:

      Results --Start--> Memorizing --time up / "Už vím"--> Solving --"Hotovo"--> Results

    The configuration sliders act only in Results, clicks reach the board only in Solving.
    Each method is one user action or one frame's check; an action that the current state
    does not offer leaves the session unchanged. */
module Seton {
  import opened Grids
  import Generator
  import Placement
  import opened Scoring
  import opened HitMapper

  datatype AppState = Memorizing | Solving | Results

  /** The four sliders of the Results state. */
  datatype Slider = BoardSize | WhiteStones | BlackStones | TimeSeconds

  /** The value an egui slider over `lo..=hi` settles on when asked for `v`. */
  function Clamp(v: int, lo: nat, hi: nat): (r: nat)
    requires lo <= hi
    ensures lo <= r <= hi
    ensures lo <= v <= hi ==> r == v
    ensures v < lo ==> r == lo
    ensures v > hi ==> r == hi
  {
    if v < lo then lo else if v > hi then hi else v
  }

  /** `progress_left` of the memorising countdown, with the clock as a parameter. */
  function ProgressLeft(now: real, started: real, seconds: nat): (p: real)
    requires seconds > 0
  {
    1.0 - (now - started) / seconds as real
  }

  /** The countdown has run out exactly when `time_seconds` have passed since the start. */
  lemma TimeUpIff(now: real, started: real, seconds: nat)
    requires seconds > 0
    ensures ProgressLeft(now, started, seconds) <= 0.0 <==> now - started >= seconds as real
  {
    var t := seconds as real;
    var q := (now - started) / t;
    assert q * t == now - started;
    if q >= 1.0 { assert (q - 1.0) * t >= 0.0; }
    if now - started >= t { assert (q - 1.0) * t >= 0.0; }
  }

  /** Within the sliders' ranges the board always has room for every requested stone, so the
      generator never clamps. */
  lemma SlidersNeverOversupply(n: nat, nBlack: nat, nWhite: nat)
    requires 5 <= n && nBlack <= 10 && nWhite <= 10
    ensures Generator.StonesToPlace(nBlack, nWhite, n) == nBlack + nWhite
  {
    assert n * n >= 5 * n >= 25;
  }

  /** The solution board after one `mouse_move` with the given buttons and cursor. */
  function AfterMouse(g: Grid, size: nat, cursor: (real, real), leftPressed: bool, rightPressed: bool,
                      view: View, nBlack: nat, nWhite: nat): (h: Grid)
    requires Square(g, size)
  {
    if !(leftPressed || rightPressed) then g
    else match HitTest(size, cursor, view)
      case None => g
      case Some((i, j)) => Placement.Toggle(g, i, j, if leftPressed then 1 else -1, nBlack, nWhite)
  }

  /** What the session invariant demands of the two boards in a given state. */
  ghost predicate RoundBoards(t: Grid, s: Grid, state: AppState, n: nat, nBlack: nat, nWhite: nat)
  {
    && CellsInRange(t) && CellsInRange(s)
    && (state != Results ==>
          && BlackCount(t) == nBlack && WhiteCount(t) == nWhite
          && BlackCount(s) <= nBlack && WhiteCount(s) <= nWhite)
    && (state == Memorizing ==> Empty(s))
  }

  /** The cell update of src/main.rs:290-317 on the solution array: propose the next value of the
      cycle, apply the three cap fix-ups, then write it if the guard allows. */
  method PlaceStone(a: array2<int>, i: nat, j: nat, sign: int, nBlack: nat, nWhite: nat)
    requires i < a.Length0 && j < a.Length1 && (sign == 1 || sign == -1)
    modifies a
    ensures Cells(a) == Placement.Toggle(old(Cells(a)), i, j, sign, nBlack, nWhite)
  {
    var stone := a[i, j];
    var newStone := Placement.Cycle(stone, sign);
    var blackPlaced := BlackCount(Cells(a));
    var whitePlaced := WhiteCount(Cells(a));
    if newStone == 1 && blackPlaced >= nBlack {
      newStone := -1;
    }
    if newStone == -1 && whitePlaced >= nWhite {
      newStone := 1;
    }
    if newStone == 1 && blackPlaced >= nBlack {
      newStone := 0;
    }
    assert newStone == Placement.Resolve(Placement.Cycle(stone, sign), blackPlaced, whitePlaced, nBlack, nWhite);
    if !((newStone == 1 && blackPlaced >= nBlack) || (newStone == -1 && whitePlaced >= nWhite)) {
      Store(a, i, j, newStone);
    }
  }

  /** The button handling of `mouse_move` on the solution array: on a press, toggle the
      cell under the cursor. The caps and the cell range survive. */
  method Click(a: array2<int>, size: nat, cursor: (real, real), leftPressed: bool, rightPressed: bool,
               view: View, nBlack: nat, nWhite: nat)
    requires a.Length0 == size && a.Length1 == size && CellsInRange(Cells(a))
    requires BlackCount(Cells(a)) <= nBlack && WhiteCount(Cells(a)) <= nWhite
    modifies a
    ensures Square(old(Cells(a)), size)
    ensures Cells(a) == AfterMouse(old(Cells(a)), size, cursor, leftPressed, rightPressed, view, nBlack, nWhite)
    ensures CellsInRange(Cells(a)) && BlackCount(Cells(a)) <= nBlack && WhiteCount(Cells(a)) <= nWhite
  {
    if leftPressed || rightPressed {
      var hit := HitTest(size, cursor, view);
      if hit.Some? {
        var (i, j) := hit.value;
        ghost var before := Cells(a);
        var sign := if leftPressed then 1 else -1;
        PlaceStone(a, i, j, sign, nBlack, nWhite);
        Placement.ToggleRespectsCaps(before, i, j, sign, nBlack, nWhite);
      }
    }
  }

  class SetonGame {
    var boardSize: nat
    var timeSeconds: nat
    var timeStarted: real
    var nBlackStones: nat
    var nWhiteStones: nat
    var lastScore: Score
    var cursor: (real, real)
    /** `position[0]`, the board to memorise. */
    var truth: array2<int>
    /** `position[1]`, the board the player builds. */
    var solution: array2<int>
    var gamesPlayed: nat
    /** The Bevy `AppState`, kept with the session. */
    var state: AppState

    /** The slider ranges of src/main.rs:200-208. */
    ghost predicate ConfigInRange()
      reads this
    {
      5 <= boardSize <= 10 && 1 <= nWhiteStones <= 10 && 1 <= nBlackStones <= 10 && 1 <= timeSeconds <= 120
    }

    /** The session invariant. During a round the boards have the configured size, the truth
        holds exactly the requested stones and the solution stays within both caps; while
        memorising, the solution is empty. */
    ghost predicate Valid()
      reads this, truth, solution
    {
      && truth != solution
      && ConfigInRange()
      && truth.Length0 == solution.Length0 && truth.Length1 == solution.Length1
      && (state != Results ==> truth.Length0 == boardSize && truth.Length1 == boardSize)
      && RoundBoards(Cells(truth), Cells(solution), state, boardSize, nBlackStones, nWhiteStones)
    }

    /** `SetonGame::default()` in the initial state Results. */
    constructor ()
      ensures Valid() && state == Results
      ensures boardSize == 5 && nBlackStones == 5 && nWhiteStones == 5 && timeSeconds == 30
      ensures timeStarted == 0.0 && cursor == (0.0, 0.0) && gamesPlayed == 0
      ensures lastScore == Score(0, 0, 10, 0.0)
      ensures fresh(truth) && fresh(solution)
      ensures Cells(truth) == Zeros(5, 5) && Cells(solution) == Zeros(5, 5)
    {
      var t := NewZeros(5);
      var s := NewZeros(5);
      boardSize, timeStarted, timeSeconds := 5, 0.0, 30;
      nBlackStones, nWhiteStones := 5, 5;
      lastScore := Score(0, 0, 5 + 5, 0.0);
      cursor := (0.0, 0.0);
      truth, solution := t, s;
      gamesPlayed := 0;
      state := Results;
    }

    /** "Start" (src/main.rs:150-159): draw a new truth board, clear the solution, record the time
        and begin memorising. `picks` is the random draw. */
    method Start(picks: seq<nat>, now: real)
      requires Valid()
      requires state == Results ==>
        Generator.ValidPicks(picks, boardSize * boardSize, nBlackStones + nWhiteStones)
      modifies this`truth, this`solution, this`timeStarted, this`state
      ensures Valid()
      ensures old(state) != Results ==> unchanged(this)
      ensures old(state) == Results ==>
        && state == Memorizing && timeStarted == now
        && fresh(truth) && fresh(solution)
        && Cells(truth) == Generator.Drawn(boardSize, nBlackStones, picks)
    {
      if state == Results {
        SlidersNeverOversupply(boardSize, nBlackStones, nWhiteStones);
        timeStarted, state := now, Memorizing;
        truth := Generator.SampleStoneCoords(nBlackStones, nWhiteStones, boardSize, picks);
        solution := NewZeros(boardSize);
      }
    }

    /** One frame of the Memorizing branch (src/main.rs:160-170): move on to Solving once the
        countdown has run out or the player pressed "Už vím". */
    method Memorize(now: real, knowIt: bool)
      requires Valid()
      modifies this`state
      ensures Valid()
      ensures state == if old(state) == Memorizing && (knowIt || now - timeStarted >= timeSeconds as real)
                       then Solving else old(state)
    {
      if state == Memorizing {
        var progressLeft := ProgressLeft(now, timeStarted, timeSeconds);
        if knowIt {
          progressLeft := 0.0;
        }
        TimeUpIff(now, timeStarted, timeSeconds);
        if progressLeft <= 0.0 {
          state := Solving;
        }
      }
    }

    /** `mouse_move` (src/main.rs:277-322), which runs only in Solving (src/main.rs:115): remember the
        cursor, and on a button press toggle the solution cell under it. */
    method MouseMove(motion: Option<(real, real)>, leftPressed: bool, rightPressed: bool, view: View)
      requires Valid()
      modifies this`cursor, solution
      ensures Valid()
      ensures unchanged(truth)
      ensures old(state) != Solving ==> unchanged(this, solution)
      ensures old(state) == Solving ==>
        && cursor == (if motion.Some? then motion.value else old(cursor))
        && Square(old(Cells(solution)), boardSize)
        && Cells(solution) == AfterMouse(old(Cells(solution)), boardSize, cursor, leftPressed, rightPressed,
                                         view, nBlackStones, nWhiteStones)
    {
      if state == Solving {
        if motion.Some? {
          cursor := motion.value;
        }
        Click(solution, boardSize, cursor, leftPressed, rightPressed, view, nBlackStones, nWhiteStones);
      }
    }

    /** "Hotovo" (src/main.rs:176-196): score the round, count it, and show the results. */
    method Done()
      requires Valid()
      modifies this`lastScore, this`gamesPlayed, this`state
      ensures Valid()
      ensures old(state) != Solving ==>
        lastScore == old(lastScore) && gamesPlayed == old(gamesPlayed) && state == old(state)
      ensures old(state) == Solving ==>
        && state == Results && gamesPlayed == old(gamesPlayed) + 1
        && SameShape(Cells(truth), Cells(solution))
        && Correct(Cells(truth), Cells(solution)) + WrongColour(Cells(truth), Cells(solution))
           <= nBlackStones + nWhiteStones
        && lastScore == Evaluate(Cells(truth), Cells(solution), nBlackStones, nWhiteStones)
    {
      if state == Solving {
        var t, s := Cells(truth), Cells(solution);
        StonesAreBlackOrWhite(t);
        NoUnderflow(t, s, nBlackStones, nWhiteStones);
        lastScore := Evaluate(t, s, nBlackStones, nWhiteStones);
        gamesPlayed := gamesPlayed + 1;
        state := Results;
      }
    }

    /** A slider of src/main.rs:198-209: only in Results, and only within its range. */
    method Slide(slider: Slider, value: int)
      requires Valid()
      modifies this`boardSize, this`nWhiteStones, this`nBlackStones, this`timeSeconds
      ensures Valid()
      ensures boardSize == if old(state) == Results && slider == BoardSize then Clamp(value, 5, 10) else old(boardSize)
      ensures nWhiteStones == if old(state) == Results && slider == WhiteStones then Clamp(value, 1, 10) else old(nWhiteStones)
      ensures nBlackStones == if old(state) == Results && slider == BlackStones then Clamp(value, 1, 10) else old(nBlackStones)
      ensures timeSeconds == if old(state) == Results && slider == TimeSeconds then Clamp(value, 1, 120) else old(timeSeconds)
    {
      if state == Results {
        match slider
        case BoardSize => boardSize := Clamp(value, 5, 10);
        case WhiteStones => nWhiteStones := Clamp(value, 1, 10);
        case BlackStones => nBlackStones := Clamp(value, 1, 10);
        case TimeSeconds => timeSeconds := Clamp(value, 1, 120);
      }
    }
  }

  /** A round in which the player places nothing: Start, "Už vím", "Hotovo". Every requested
      stone counts as misplaced and the score is zero. */
  method EmptyRound(game: SetonGame, picks: seq<nat>, now: real)
    requires game.Valid() && game.state == Results
    requires Generator.ValidPicks(picks, game.boardSize * game.boardSize, game.nBlackStones + game.nWhiteStones)
    modifies game
    ensures game.Valid() && game.state == Results
    ensures game.lastScore == Score(0, 0, game.nBlackStones + game.nWhiteStones, 0.0)
  {
    game.Start(picks, now);
    game.Memorize(now, true);
    game.Done();
    EmptySolution(Cells(game.truth), Cells(game.solution), game.nBlackStones, game.nWhiteStones);
  }

  /** A round in which the player rebuilds the truth board exactly scores 1.0. */
  lemma PerfectRound(truth: Grid, nBlack: nat, nWhite: nat)
    requires CellsInRange(truth) && BlackCount(truth) == nBlack && WhiteCount(truth) == nWhite
    requires nBlack + nWhite > 0
    ensures SameShape(truth, truth)
    ensures Correct(truth, truth) + WrongColour(truth, truth) <= nBlack + nWhite
    ensures Evaluate(truth, truth, nBlack, nWhite) == Score(nBlack + nWhite, 0, 0, 1.0)
  {
    StonesAreBlackOrWhite(truth);
    IdenticalScoresFull(truth, nBlack, nWhite);
  }
}
