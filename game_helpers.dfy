/** The geometry and scoring helpers of the ostrich game (src/utils/gameHelpers.ts).
    They carry their own configuration, GAME_CONFIG, whose values differ from the
    constants of the game component (gravity 0.5, gap 150). */
module GameHelpers {

  // GAME_CONFIG
  const GRAVITY: real := 0.5
  const JUMP_FORCE: real := -10.0
  const OBSTACLE_SPEED: real := 3.0
  const OBSTACLE_GAP: int := 150
  const OBSTACLE_WIDTH: real := 60.0
  const GAME_WIDTH: int := 800
  const GAME_HEIGHT: int := 600

  /** An axis-aligned box given by its top-left corner and its extent. */
  datatype Rect = Rect(x: real, y: real, width: real, height: real)

  /** checkCollision: the two boxes overlap on both axes, edges excluded. */
  predicate CheckCollision(a: Rect, b: Rect)
    ensures CheckCollision(a, b) ==> a.width + b.width > 0.0 && a.height + b.height > 0.0
  {
    && a.x < b.x + b.width
    && a.x + a.width > b.x
    && a.y < b.y + b.height
    && a.y + a.height > b.y
  }

  /** The point (px, py) lies strictly inside the box. */
  predicate StrictlyInside(px: real, py: real, r: Rect) {
    r.x < px < r.x + r.width && r.y < py < r.y + r.height
  }

  function Max(a: real, b: real): real { if a < b then b else a }
  function Min(a: real, b: real): real { if a < b then a else b }

  /** For boxes of positive extent, checkCollision holds exactly when some point
      lies strictly inside both boxes. */
  lemma CheckCollisionMeansCommonInterior(a: Rect, b: Rect)
    requires a.width > 0.0 && a.height > 0.0 && b.width > 0.0 && b.height > 0.0
    ensures CheckCollision(a, b) <==>
            exists px: real, py: real :: StrictlyInside(px, py, a) && StrictlyInside(px, py, b)
  {
    if CheckCollision(a, b) {
      var px := (Max(a.x, b.x) + Min(a.x + a.width, b.x + b.width)) / 2.0;
      var py := (Max(a.y, b.y) + Min(a.y + a.height, b.y + b.height)) / 2.0;
      assert StrictlyInside(px, py, a) && StrictlyInside(px, py, b);
    }
  }

  /** Boxes that only share an edge do not collide. */
  lemma TouchingBoxesDoNotCollide(a: Rect, b: Rect)
    requires a.x + a.width == b.x || b.x + b.width == a.x
          || a.y + a.height == b.y || b.y + b.height == a.y
    ensures !CheckCollision(a, b)
  {
  }

  /** checkCollision does not depend on the order of its arguments. */
  lemma CheckCollisionSymmetric(a: Rect, b: Rect)
    ensures CheckCollision(a, b) == CheckCollision(b, a)
  {
  }

  /** What generateObstacle returns. */
  datatype GeneratedObstacle = GeneratedObstacle(height: int, gap: int, x: int)

  /** generateObstacle, with the value of Math.random() passed in as `r`. */
  function GenerateObstacle(r: real): (o: GeneratedObstacle)
    requires 0.0 <= r < 1.0
    ensures o.x == GAME_WIDTH && o.gap == OBSTACLE_GAP
    ensures 50 <= o.height < GAME_HEIGHT - OBSTACLE_GAP - 50
  {
    var minHeight := 50;
    var maxHeight := GAME_HEIGHT - OBSTACLE_GAP - minHeight;
    var height := (r * (maxHeight - minHeight) as real + minHeight as real).Floor;
    GeneratedObstacle(height, OBSTACLE_GAP, GAME_WIDTH)
  }

  /** Every whole height in [50, 400) is produced by some draw. */
  lemma GenerateObstacleReachesEveryHeight(h: int)
    requires 50 <= h < 400
    ensures exists r: real :: 0.0 <= r < 1.0 && GenerateObstacle(r).height == h
  {
    var r := (h - 50) as real / 350.0;
    assert (r * 350.0 + 50.0) == h as real;
    assert GenerateObstacle(r).height == h;
  }

  /** The filter inside calculateScore: the x positions whose obstacle lies
      entirely to the left of the ostrich, in their original order. */
  function PassedFilter(xs: seq<real>, ostrichX: real): (r: seq<real>)
    ensures |r| <= |xs|
    ensures forall v :: multiset(r)[v] == if v + OBSTACLE_WIDTH < ostrichX then multiset(xs)[v] else 0
  {
    if xs == [] then []
    else
      assert xs == [xs[0]] + xs[1..];
      (if xs[0] + OBSTACLE_WIDTH < ostrichX then [xs[0]] else []) + PassedFilter(xs[1..], ostrichX)
  }

  /** calculateScore: how many obstacles (given by their x positions) the ostrich
      at `ostrichX` has passed. */
  function CalculateScore(xs: seq<real>, ostrichX: real): (n: nat)
    ensures n <= |xs|
  {
    |PassedFilter(xs, ostrichX)|
  }

  /** Scoring a concatenation is the sum of scoring its parts. */
  lemma {:induction false} CalculateScoreConcat(a: seq<real>, b: seq<real>, ostrichX: real)
    ensures CalculateScore(a + b, ostrichX) == CalculateScore(a, ostrichX) + CalculateScore(b, ostrichX)
  {
    if a != [] {
      assert (a + b)[1..] == a[1..] + b;
      CalculateScoreConcat(a[1..], b, ostrichX);
    } else {
      assert a + b == b;
    }
  }

  /** Moving the ostrich to the right never lowers the score. */
  lemma {:induction false} CalculateScoreMonotoneInOstrichX(xs: seq<real>, x1: real, x2: real)
    requires x1 <= x2
    ensures CalculateScore(xs, x1) <= CalculateScore(xs, x2)
  {
    if xs != [] {
      CalculateScoreMonotoneInOstrichX(xs[1..], x1, x2);
    }
  }

  /** Moving obstacles to the left never lowers the score. */
  lemma {:induction false} CalculateScoreMonotoneUnderLeftMoves(xs: seq<real>, ys: seq<real>, ostrichX: real)
    requires |xs| == |ys|
    requires forall i | 0 <= i < |xs| :: ys[i] <= xs[i]
    ensures CalculateScore(xs, ostrichX) <= CalculateScore(ys, ostrichX)
  {
    if xs != [] {
      CalculateScoreMonotoneUnderLeftMoves(xs[1..], ys[1..], ostrichX);
    }
  }
}
