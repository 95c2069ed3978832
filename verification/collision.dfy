/** The edge-crossing collision rule between one ball and one brick
    (breakout.c apply_brick_collision). Coordinates are reals: the rule only compares
    and negates, and float rounding is not represented. The y axis points up; a brick
    at `brick` spans x in [brick.x, brick.x + BrickWidth] and y in
    [brick.y - BrickHeight, brick.y]. */
module Collision {

  datatype Vec2 = Vec2(x: real, y: real)

  datatype Ball = Ball(pos: Vec2, velocity: Vec2, r: real)

  /** BRICK_WIDTH and BRICK_HEIGHT. */
  const BrickWidth: real := 1.0 / 12.0
  const BrickHeight: real := 0.7 / 25.0

  /** The ball's box inflated by radius `r` around `p` meets the brick's horizontal span. */
  predicate OverlapsX(p: Vec2, r: real, brick: Vec2) {
    brick.x <= p.x + r && p.x - r <= brick.x + BrickWidth
  }

  /** ... and its vertical span. */
  predicate OverlapsY(p: Vec2, r: real, brick: Vec2) {
    brick.y - BrickHeight <= p.y + r && p.y - r <= brick.y
  }

  predicate Overlaps(p: Vec2, r: real, brick: Vec2) {
    OverlapsX(p, r, brick) && OverlapsY(p, r, brick)
  }

  datatype Outcome = Outcome(hit: bool, ball: Ball)

  /** apply_brick_collision. A collision is reported exactly when the inflated box meets
      the brick at the predicted position but did not at the current one. A velocity
      component is negated exactly when the box was outside the brick's span on that
      axis before. Position and radius are never changed, and a miss changes nothing. */
  function ApplyBrickCollision(ball: Ball, brick: Vec2, finalPos: Vec2): (o: Outcome)
    ensures o.ball.pos == ball.pos && o.ball.r == ball.r
    ensures !o.hit ==> o.ball == ball
    ensures o.hit <==> Overlaps(finalPos, ball.r, brick) && !Overlaps(ball.pos, ball.r, brick)
    ensures o.hit ==> o.ball.velocity.y
                      == (if OverlapsY(ball.pos, ball.r, brick) then ball.velocity.y else -ball.velocity.y)
    ensures o.hit ==> o.ball.velocity.x
                      == (if OverlapsX(ball.pos, ball.r, brick) then ball.velocity.x else -ball.velocity.x)
  {
    var r := ball.r;
    var p := ball.pos;
    var v := ball.velocity;
    if finalPos.x + r < brick.x || finalPos.x - r > brick.x + BrickWidth then Outcome(false, ball)
    else if finalPos.y - r > brick.y || finalPos.y + r < brick.y - BrickHeight then Outcome(false, ball)
    else
      var top := p.y - r > brick.y && finalPos.y - r <= brick.y;
      var bottom := !top && p.y + r < brick.y - BrickHeight && finalPos.y + r >= brick.y - BrickHeight;
      var left := p.x + r < brick.x && finalPos.x + r >= brick.x;
      var right := !left && p.x - r > brick.x + BrickWidth && finalPos.x - r <= brick.x + BrickWidth;
      var vy := if top || bottom then -v.y else v.y;
      var vx := if left || right then -v.x else v.x;
      Outcome(top || bottom || left || right, ball.(velocity := Vec2(vx, vy)))
  }

  /** The rule with its two else-if guards dropped: each of the four edge tests runs on
      its own and negates its component whenever it fires. */
  function ApplyEdgesIndependently(ball: Ball, brick: Vec2, finalPos: Vec2): Outcome {
    var r := ball.r;
    var p := ball.pos;
    var v := ball.velocity;
    if finalPos.x + r < brick.x || finalPos.x - r > brick.x + BrickWidth then Outcome(false, ball)
    else if finalPos.y - r > brick.y || finalPos.y + r < brick.y - BrickHeight then Outcome(false, ball)
    else
      var top := p.y - r > brick.y && finalPos.y - r <= brick.y;
      var bottom := p.y + r < brick.y - BrickHeight && finalPos.y + r >= brick.y - BrickHeight;
      var left := p.x + r < brick.x && finalPos.x + r >= brick.x;
      var right := p.x - r > brick.x + BrickWidth && finalPos.x - r <= brick.x + BrickWidth;
      var vy := if top then -v.y else v.y;
      var vy' := if bottom then -vy else vy;
      var vx := if left then -v.x else v.x;
      var vx' := if right then -vx else vx;
      Outcome(top || bottom || left || right, ball.(velocity := Vec2(vx', vy')))
  }

  /** With a non-negative radius the top and bottom tests cannot both fire, nor the left
      and right ones, so the else-if guards change nothing: each component is negated at
      most once either way. */
  lemma ElseIfGuardsRedundant(ball: Ball, brick: Vec2, finalPos: Vec2)
    requires ball.r >= 0.0
    ensures ApplyBrickCollision(ball, brick, finalPos) == ApplyEdgesIndependently(ball, brick, finalPos)
  {
  }

  /** A ball whose box already meets the brick never bounces off it, whatever it does next. */
  lemma NoBounceFromInside(ball: Ball, brick: Vec2, finalPos: Vec2)
    requires Overlaps(ball.pos, ball.r, brick)
    ensures ApplyBrickCollision(ball, brick, finalPos) == Outcome(false, ball)
  {
  }

  /** Crossing only the top edge: the vertical velocity flips, the horizontal one stays. */
  lemma TopEdgeCrossing(ball: Ball, brick: Vec2, finalPos: Vec2)
    requires ball.pos.y - ball.r > brick.y
    requires OverlapsX(ball.pos, ball.r, brick)
    requires Overlaps(finalPos, ball.r, brick)
    ensures ApplyBrickCollision(ball, brick, finalPos)
            == Outcome(true, ball.(velocity := Vec2(ball.velocity.x, -ball.velocity.y)))
  {
  }

  /** Crossing a horizontal and a vertical edge in the same step flips both components. */
  lemma CornerCrossing(ball: Ball, brick: Vec2, finalPos: Vec2)
    requires !OverlapsX(ball.pos, ball.r, brick) && !OverlapsY(ball.pos, ball.r, brick)
    requires Overlaps(finalPos, ball.r, brick)
    ensures ApplyBrickCollision(ball, brick, finalPos)
            == Outcome(true, ball.(velocity := Vec2(-ball.velocity.x, -ball.velocity.y)))
  {
  }
}
