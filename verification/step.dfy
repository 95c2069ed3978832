/** One simulation step (breakout.c step): for each ball, clamp its predicted cell into
    the interior, scan the 3 x 3 neighbourhood for the first live brick it strikes,
    destroy that one brick, and after all balls run at most one full-clear cycle. */
module Step {
  import opened Grid
  import opened Collision

  datatype Option<T> = None | Some(value: T)

  /** One ball as the step sees it once the external integrator has run: `ball` carries
      the velocity apply_gravity produced, `finalPos` is position plus velocity times
      delta (vec2_mul, pos2_add), and `cellX`, `cellY` are the C `int` values the float
      cell mapping truncates to. */
  datatype BallInput = BallInput(ball: Ball, finalPos: Vec2, cellX: int, cellY: int)

  /** The brick-position formula of the scan, one position per (column, row). */
  type Layout = (nat, nat) -> Vec2

  /** Clamp a truncated cell coordinate into [1, dim - 2]: values at or below zero go to 1,
      values at or beyond the last cell go to dim - 2, interior values are kept. */
  function Clamp(v: int, dim: nat): (c: nat)
    requires dim >= 3
    ensures 1 <= c <= dim - 2
    ensures 1 <= v <= dim - 2 ==> c == v
    ensures v < 1 ==> c == 1
    ensures v > dim - 2 ==> c == dim - 2
  {
    var low := if v <= 0 then 1 else v;
    if low >= dim - 1 then dim - 2 else low
  }

  /** A centre whose whole 3 x 3 neighbourhood lies on the grid. */
  predicate Centre(cx: nat, cy: nat) {
    1 <= cx <= BricksPerRow - 2 && 1 <= cy <= BrickRows - 2
  }

  /** The k-th cell of the scan, columns in the outer loop and rows in the inner one. It
      lies on the grid and within one step of the centre on each axis. */
  function Candidate(cx: nat, cy: nat, k: nat): (c: (nat, nat))
    requires Centre(cx, cy) && k < 9
    ensures InGrid(c.0, c.1)
    ensures cx - 1 <= c.0 <= cx + 1 && cy - 1 <= c.1 <= cy + 1
  {
    var column := if k < 3 then 0 else if k < 6 then 1 else 2;
    (cx - 1 + column, cy - 1 + (k - 3 * column))
  }

  /** The nine scan positions visit nine different cells. */
  lemma CandidatesDistinct(cx: nat, cy: nat, k1: nat, k2: nat)
    requires Centre(cx, cy) && k1 < 9 && k2 < 9
    ensures Candidate(cx, cy, k1) == Candidate(cx, cy, k2) ==> k1 == k2
  {
  }

  /** Every clamped centre keeps its neighbourhood on the grid, whatever the truncation. */
  lemma ClampedCentre(input: BallInput)
    ensures Centre(Clamp(input.cellX, BricksPerRow), Clamp(input.cellY, BrickRows))
  {
  }

  /** The candidate at scan position k is live and the ball's inflated box enters it
      during this step. */
  predicate Strikes(s: SaveState, b: Ball, fp: Vec2, cx: nat, cy: nat, pos: Layout, k: nat)
    requires WellFormed(s) && Centre(cx, cy) && k < 9
  {
    var c := Candidate(cx, cy, k);
    && !GetBrick(s, c.0, c.1).destroyed
    && Overlaps(fp, b.r, pos(c.0, c.1))
    && !Overlaps(b.pos, b.r, pos(c.0, c.1))
  }

  datatype ScanResult = Miss | Hit(k: nat)

  /** No candidate at scan positions lo .. hi - 1 strikes. */
  predicate NoStrikeIn(s: SaveState, b: Ball, fp: Vec2, cx: nat, cy: nat, pos: Layout, lo: nat, hi: nat)
    requires WellFormed(s) && Centre(cx, cy) && hi <= 9
  {
    forall j | lo <= j < hi :: !Strikes(s, b, fp, cx, cy, pos, j)
  }

  lemma NoStrikeExtend(s: SaveState, b: Ball, fp: Vec2, cx: nat, cy: nat, pos: Layout, k: nat, hi: nat)
    requires WellFormed(s) && Centre(cx, cy) && k < hi <= 9
    requires !Strikes(s, b, fp, cx, cy, pos, k) && NoStrikeIn(s, b, fp, cx, cy, pos, k + 1, hi)
    ensures NoStrikeIn(s, b, fp, cx, cy, pos, k, hi)
  {
  }

  /** The neighbourhood loops from scan position k on: skip destroyed cells, stop at the
      first collision. The hit is the first striking candidate; a miss means none strikes.
      The bounced ball is the collision rule's result for the hit candidate. */
  function Scan(s: SaveState, b: Ball, fp: Vec2, cx: nat, cy: nat, pos: Layout, k: nat): (r: ScanResult)
    requires WellFormed(s) && Centre(cx, cy) && k <= 9
    ensures r.Hit? ==> k <= r.k < 9 && Strikes(s, b, fp, cx, cy, pos, r.k)
    ensures r.Hit? ==> NoStrikeIn(s, b, fp, cx, cy, pos, k, r.k)
    ensures r.Miss? ==> NoStrikeIn(s, b, fp, cx, cy, pos, k, 9)
    decreases 9 - k, 1
  {
    if k == 9 then Miss
    else
      var c := Candidate(cx, cy, k);
      if GetBrick(s, c.0, c.1).destroyed then ScanNext(s, b, fp, cx, cy, pos, k)
      else if ApplyBrickCollision(b, pos(c.0, c.1), fp).hit then Hit(k)
      else ScanNext(s, b, fp, cx, cy, pos, k)
  }

  /** Moving past a candidate that does not strike. */
  function ScanNext(s: SaveState, b: Ball, fp: Vec2, cx: nat, cy: nat, pos: Layout, k: nat): (r: ScanResult)
    requires WellFormed(s) && Centre(cx, cy) && k < 9 && !Strikes(s, b, fp, cx, cy, pos, k)
    ensures r.Hit? ==> k < r.k < 9 && Strikes(s, b, fp, cx, cy, pos, r.k)
    ensures r.Hit? ==> NoStrikeIn(s, b, fp, cx, cy, pos, k, r.k)
    ensures r.Miss? ==> NoStrikeIn(s, b, fp, cx, cy, pos, k, 9)
    decreases 9 - k, 0
  {
    var r := Scan(s, b, fp, cx, cy, pos, k + 1);
    NoStrikeExtend(s, b, fp, cx, cy, pos, k, if r.Hit? then r.k else 9);
    r
  }

  /** The clamped centre of a ball's neighbourhood, column and row. */
  function CentreX(input: BallInput): nat {
    Clamp(input.cellX, BricksPerRow)
  }

  function CentreY(input: BallInput): nat {
    Clamp(input.cellY, BrickRows)
  }

  /** Scan position k holds the first live brick the ball strikes: it strikes, and no
      earlier position does. */
  predicate FirstStrike(s: SaveState, input: BallInput, pos: Layout, k: nat)
    requires WellFormed(s)
  {
    && k < 9
    && Strikes(s, input.ball, input.finalPos, CentreX(input), CentreY(input), pos, k)
    && NoStrikeIn(s, input.ball, input.finalPos, CentreX(input), CentreY(input), pos, 0, k)
  }

  /** The ball strikes no live brick of its neighbourhood. */
  predicate StrikesNothing(s: SaveState, input: BallInput, pos: Layout)
    requires WellFormed(s)
  {
    NoStrikeIn(s, input.ball, input.finalPos, CentreX(input), CentreY(input), pos, 0, 9)
  }

  /** The cell at scan position k. */
  function StruckCell(input: BallInput, k: nat): nat
    requires k < 9
  {
    var c := Candidate(CentreX(input), CentreY(input), k);
    CellIndex(c.0, c.1)
  }

  /** The ball after bouncing off the brick at scan position k. */
  function Bounce(input: BallInput, pos: Layout, k: nat): Ball
    requires k < 9
  {
    var c := Candidate(CentreX(input), CentreY(input), k);
    ApplyBrickCollision(input.ball, pos(c.0, c.1), input.finalPos).ball
  }

  /** The result of one iteration of the ball loop, and the cell it destroyed, if any. */
  datatype BallStep = BallStep(state: SaveState, ball: Ball, destroyed: Option<nat>)

  /** One iteration of the ball loop. A ball that strikes nothing changes nothing. A ball
      that strikes destroys exactly the first live brick it strikes in scan order, and
      leaves with the bounce off that brick: the cell read as live, is now {true, true},
      bricks_count is one lower and no other cell changes. */
  function StepBall(s: SaveState, input: BallInput, pos: Layout): (r: BallStep)
    requires Consistent(s)
    ensures Consistent(r.state)
    ensures r.state.gameCount == s.gameCount && r.state.colorFunc == s.colorFunc
    ensures r.ball.pos == input.ball.pos && r.ball.r == input.ball.r
    ensures r.destroyed.None? <==> StrikesNothing(s, input, pos)
    ensures r.destroyed.None? ==> r.state == s && r.ball == input.ball
    ensures r.destroyed.Some? ==>
              exists k :: FirstStrike(s, input, pos, k) && r.destroyed.value == StruckCell(input, k)
                          && r.ball == Bounce(input, pos, k)
    ensures r.destroyed.Some? ==>
              && r.destroyed.value < CellCount
              && !GetCell(s, r.destroyed.value).destroyed
              && GetCell(r.state, r.destroyed.value) == Brick(true, true)
              && r.state.bricksCount + 1 == s.bricksCount
    ensures forall j: nat | j < CellCount && r.destroyed != Some(j) :: GetCell(r.state, j) == GetCell(s, j)
  {
    var cx := CentreX(input);
    var cy := CentreY(input);
    match Scan(s, input.ball, input.finalPos, cx, cy, pos, 0)
    case Miss => BallStep(s, input.ball, None)
    case Hit(k) =>
      assert FirstStrike(s, input, pos, k);
      var c := Candidate(cx, cy, k);
      var idx := CellIndex(c.0, c.1);
      assert !GetCell(s, idx).destroyed;
      DestroyLiveCell(s, idx);
      BallStep(SetCell(s, idx, Brick(true, true)).(bricksCount := SizeSub(s.bricksCount, 1)), Bounce(input, pos, k), Some(idx))
  }

  /** Writing {true, true} over a live cell of a consistent state, and decrementing the
      counter, keeps the state consistent: the counter neither wraps nor drifts from the
      live count, and no other cell changes. */
  lemma DestroyLiveCell(s: SaveState, idx: nat)
    requires Consistent(s) && idx < CellCount && !GetCell(s, idx).destroyed
    ensures var u := SetCell(s, idx, Brick(true, true)).(bricksCount := SizeSub(s.bricksCount, 1));
            && Consistent(u)
            && u.bricksCount + 1 == s.bricksCount
            && GetCell(u, idx) == Brick(true, true)
            && forall j: nat | j < CellCount && j != idx :: GetCell(u, j) == GetCell(s, j)
  {
    var t := SetCell(s, idx, Brick(true, true));
    SetGet(s, idx, Brick(true, true));
    LiveBelowDestroy(s, t, idx, CellCount);
    var u := t.(bricksCount := SizeSub(s.bricksCount, 1));
    assert u.packed == t.packed;
    LiveBelowFrame(t, u, CellCount);
  }

  /** A record of the ball loop: ball i runs on the state ball i - 1 left behind. */
  predicate Chained(s: SaveState, inputs: seq<BallInput>, pos: Layout, trace: seq<BallStep>)
    requires Consistent(s)
  {
    && |trace| == |inputs|
    && (forall i | 0 <= i < |trace| :: Consistent(trace[i].state))
    && (|trace| > 0 ==> trace[0] == StepBall(s, inputs[0], pos))
    && (forall i | 0 < i < |trace| :: trace[i] == StepBall(trace[i - 1].state, inputs[i], pos))
  }

  /** The state after the last ball of a trace. */
  function Final(s: SaveState, trace: seq<BallStep>): SaveState {
    if |trace| == 0 then s else trace[|trace| - 1].state
  }

  lemma ChainedCons(s: SaveState, inputs: seq<BallInput>, pos: Layout, first: BallStep, rest: seq<BallStep>)
    requires Consistent(s) && |inputs| > 0 && first == StepBall(s, inputs[0], pos)
    requires Chained(first.state, inputs[1..], pos, rest)
    ensures Chained(s, inputs, pos, [first] + rest)
    ensures Final(s, [first] + rest) == Final(first.state, rest)
  {
    var trace := [first] + rest;
    forall i | 0 < i < |trace|
      ensures trace[i] == StepBall(trace[i - 1].state, inputs[i], pos)
    {
      assert trace[i] == rest[i - 1] && inputs[i] == inputs[1..][i - 1];
    }
  }

  /** The ball loop of step, balls in order, each seeing the bricks the earlier ones
      left, with one StepBall record per ball. Destroyed cells stay exactly as they were,
      every changed cell is now {true, true}, and the counter drops by at most one per
      ball. */
  function ProcessBalls(s: SaveState, inputs: seq<BallInput>, pos: Layout): (r: (SaveState, seq<BallStep>))
    requires Consistent(s)
    ensures Chained(s, inputs, pos, r.1) && r.0 == Final(s, r.1)
    ensures Consistent(r.0)
    ensures r.0.gameCount == s.gameCount && r.0.colorFunc == s.colorFunc
    ensures r.0.bricksCount <= s.bricksCount <= r.0.bricksCount + |inputs|
    ensures forall j: nat | j < CellCount && GetCell(s, j).destroyed :: GetCell(r.0, j) == GetCell(s, j)
    ensures forall j: nat | j < CellCount && GetCell(r.0, j) != GetCell(s, j) :: GetCell(r.0, j) == Brick(true, true)
    decreases |inputs|
  {
    if |inputs| == 0 then (s, [])
    else
      var first := StepBall(s, inputs[0], pos);
      var rest := ProcessBalls(first.state, inputs[1..], pos);
      ChainedCons(s, inputs, pos, first, rest.1);
      (rest.0, [first] + rest.1)
  }

  /** The full-clear cycle: reset every brick, refill the counter, advance the colour
      pattern and the game counter (both wrapping). */
  function FullClear(t: SaveState): (r: SaveState)
    requires Consistent(t)
    ensures Consistent(r)
    ensures forall j: nat | j < CellCount :: GetCell(r, j) == Fresh
    ensures r.bricksCount == CellCount
    ensures r.colorFunc == (t.colorFunc + 1) % ColorFuncCount
    ensures r.gameCount == (t.gameCount + 1) % SizeModulus
  {
    var reset := ResetBricks(t);
    var r := reset.(bricksCount := CellCount,
                    colorFunc := (t.colorFunc + 1) % ColorFuncCount,
                    gameCount := (t.gameCount + 1) % SizeModulus);
    LiveBelowFrame(reset, r, CellCount);
    r
  }

  /** step: run every ball, then clear the grid once if the balls left no brick. The
      returned trace holds each ball's StepBall record, in order. The game counter moves
      exactly when the clear runs, by one. When it moves, every cell is fresh, the counter
      is full and the next colour pattern is selected. When it does not, the state is the
      one the last ball left: the colour is kept, some brick is still live, destroyed
      bricks stay as they were, every changed cell is {true, true}, and the counter dropped
      by at most one per ball. */
  function Step(s: SaveState, inputs: seq<BallInput>, pos: Layout): (r: (SaveState, seq<BallStep>))
    requires Consistent(s)
    ensures Consistent(r.0)
    ensures Chained(s, inputs, pos, r.1)
    ensures r.0.gameCount == s.gameCount <==> Final(s, r.1).bricksCount != 0
    ensures r.0.gameCount == s.gameCount || r.0.gameCount == (s.gameCount + 1) % SizeModulus
    ensures r.0.gameCount != s.gameCount ==>
              && (forall j: nat | j < CellCount :: GetCell(r.0, j) == Fresh)
              && r.0.bricksCount == CellCount
              && r.0.colorFunc == (s.colorFunc + 1) % ColorFuncCount
    ensures r.0.gameCount == s.gameCount ==>
              && r.0 == Final(s, r.1)
              && r.0.colorFunc == s.colorFunc
              && 0 < r.0.bricksCount <= s.bricksCount <= r.0.bricksCount + |inputs|
              && (forall j: nat | j < CellCount && GetCell(s, j).destroyed :: GetCell(r.0, j) == GetCell(s, j))
              && (forall j: nat | j < CellCount && GetCell(r.0, j) != GetCell(s, j) :: GetCell(r.0, j) == Brick(true, true))
  {
    var processed := ProcessBalls(s, inputs, pos);
    var r := ClearIfEmpty(processed.0);
    StepOutcome(s, |inputs|, processed.0, r);
    (r, processed.1)
  }

  /** How the tail of step relates the state before the balls ran to the final one. */
  lemma StepOutcome(s: SaveState, balls: nat, t: SaveState, r: SaveState)
    requires Consistent(s) && Consistent(t)
    requires t.gameCount == s.gameCount && t.colorFunc == s.colorFunc
    requires t.bricksCount <= s.bricksCount <= t.bricksCount + balls
    requires forall j: nat | j < CellCount && GetCell(s, j).destroyed :: GetCell(t, j) == GetCell(s, j)
    requires forall j: nat | j < CellCount && GetCell(t, j) != GetCell(s, j) :: GetCell(t, j) == Brick(true, true)
    requires r == ClearIfEmpty(t)
    ensures r.gameCount == s.gameCount <==> t.bricksCount != 0
    ensures r.gameCount == s.gameCount || r.gameCount == (s.gameCount + 1) % SizeModulus
    ensures r.gameCount != s.gameCount ==>
              && (forall j: nat | j < CellCount :: GetCell(r, j) == Fresh)
              && r.bricksCount == CellCount
              && r.colorFunc == (s.colorFunc + 1) % ColorFuncCount
    ensures r.gameCount == s.gameCount ==>
              && r == t
              && r.colorFunc == s.colorFunc
              && 0 < r.bricksCount <= s.bricksCount <= r.bricksCount + balls
              && (forall j: nat | j < CellCount && GetCell(s, j).destroyed :: GetCell(r, j) == GetCell(s, j))
              && (forall j: nat | j < CellCount && GetCell(r, j) != GetCell(s, j) :: GetCell(r, j) == Brick(true, true))
  {
    if t.bricksCount != 0 {
      assert r == t;
    }
  }

  /** The tail of step: the full-clear cycle when no brick is left, nothing otherwise.
      The game counter moves exactly when the clear runs. */
  function ClearIfEmpty(t: SaveState): (r: SaveState)
    requires Consistent(t)
    ensures Consistent(r)
    ensures r.gameCount == t.gameCount <==> t.bricksCount != 0
    ensures r.gameCount == t.gameCount ==> r == t
    ensures r.gameCount != t.gameCount ==>
              && r.gameCount == (t.gameCount + 1) % SizeModulus
              && (forall j: nat | j < CellCount :: GetCell(r, j) == Fresh)
              && r.bricksCount == CellCount
              && r.colorFunc == (t.colorFunc + 1) % ColorFuncCount
  {
    if t.bricksCount == 0 then
      CounterMoves(t.gameCount);
      FullClear(t)
    else
      t
  }

  /** Advancing a size_t counter always changes it. */
  lemma CounterMoves(g: nat)
    requires g < SizeModulus
    ensures (g + 1) % SizeModulus != g
  {
  }

  /** A scan over a grid whose bricks are all destroyed finds nothing. */
  lemma {:induction false} ScanOfDestroyedGridMisses(s: SaveState, b: Ball, fp: Vec2, cx: nat, cy: nat, pos: Layout, k: nat)
    requires WellFormed(s) && Centre(cx, cy) && k <= 9
    requires forall j: nat | j < CellCount :: GetCell(s, j).destroyed
    ensures Scan(s, b, fp, cx, cy, pos, k) == Miss
    decreases 9 - k
  {
    if k < 9 {
      var c := Candidate(cx, cy, k);
      assert GetCell(s, CellIndex(c.0, c.1)).destroyed;
      ScanOfDestroyedGridMisses(s, b, fp, cx, cy, pos, k + 1);
    }
  }

  /** Once the last brick falls, the remaining balls of the same step change no brick:
      the clear that follows is the only one, however many balls emptied the grid. */
  lemma {:induction false} EmptyGridIsInert(s: SaveState, inputs: seq<BallInput>, pos: Layout)
    requires Consistent(s) && s.bricksCount == 0
    ensures ProcessBalls(s, inputs, pos).0 == s
    decreases |inputs|
  {
    if |inputs| > 0 {
      NoLiveAllDestroyed(s, CellCount);
      var input := inputs[0];
      ScanOfDestroyedGridMisses(s, input.ball, input.finalPos,
        Clamp(input.cellX, BricksPerRow), Clamp(input.cellY, BrickRows), pos, 0);
      EmptyGridIsInert(s, inputs[1..], pos);
    }
  }
}
