/** The game component of the ostrich game (src/components/Game.tsx): the per-tick
    simulation step run by the interval while a game is being played, and the
    handlers around it (start, jump, difficulty change, the high-score effect).
    Every Math.random() draw is an argument in [0, 1). */
module Game {
  import GameHelpers

  const GRAVITY: real := 0.8
  const JUMP_FORCE: real := -10.0
  const DEFAULT_GAME_SPEED: real := 3.0
  /** The spacing used when the difficulty key is not in the table. */
  const DEFAULT_SPACING: real := 300.0

  datatype Setting = Setting(speed: real, spacing: real)

  const DIFFICULTY_SETTINGS: map<string, Setting> :=
    map["easy" := Setting(2.0, 350.0), "medium" := Setting(3.0, 300.0), "hard" := Setting(4.0, 250.0)]

  const GAME_WIDTH: real := 800.0
  const GAME_HEIGHT: real := 600.0
  const OSTRICH_WIDTH: real := 60.0
  const OSTRICH_HEIGHT: real := 60.0
  const OBSTACLE_WIDTH: real := 60.0
  const OBSTACLE_GAP: real := 180.0
  const MIN_HEIGHT: real := 50.0
  const MAX_HEIGHT: real := GAME_HEIGHT - OBSTACLE_GAP - MIN_HEIGHT
  /** The horizon line, 70% down the screen. */
  const HORIZON_Y: real := GAME_HEIGHT * 0.7

  datatype Position = Position(x: real, y: real)

  /** A pipe pair: `y` is the top of the gap, `height` the drawn height. */
  datatype Obstacle = Obstacle(id: nat, x: real, y: real, height: real, passed: bool)

  datatype Kind = Cloud | Bush

  /** A decorative element; its id is an opaque random number. */
  datatype BackgroundElement = BackgroundElement(id: real, x: real, y: real, kind: Kind, size: real)

  datatype GameState = GameState(
    ostrichPosition: Position,
    obstacles: seq<Obstacle>,
    velocity: real,
    difficulty: string,
    backgroundElements: seq<BackgroundElement>)

  const INITIAL_STATE: GameState :=
    GameState(Position(GAME_WIDTH * 0.2, GAME_HEIGHT * 0.5), [], 0.0, "medium", [])

  /** A value Math.random() can return. */
  predicate Unit(r: real) { 0.0 <= r < 1.0 }

  /** The Math.random() values one tick draws, in the order it draws them: the new
      obstacle's gap, the cloud's chance, y, id and size, the bush's chance, id and
      size. A draw the tick does not reach is ignored. */
  datatype Draws = Draws(
    obstacleHeight: real,
    cloudChance: real, cloudY: real, cloudId: real, cloudSize: real,
    bushChance: real, bushId: real, bushSize: real)

  predicate ValidDraws(d: Draws) {
    && Unit(d.obstacleHeight)
    && Unit(d.cloudChance) && Unit(d.cloudY) && Unit(d.cloudId) && Unit(d.cloudSize)
    && Unit(d.bushChance) && Unit(d.bushId) && Unit(d.bushSize)
  }

  // ---------------------------------------------------------------------------
  // Difficulty table

  /** The obstacle speed for a difficulty key, falling back to 3. */
  function CurrentSpeed(difficulty: string): (speed: real)
    ensures speed == 2.0 <==> difficulty == "easy"
    ensures speed == 4.0 <==> difficulty == "hard"
    ensures speed == 3.0 <==> difficulty != "easy" && difficulty != "hard"
    ensures 2.0 <= speed <= 4.0
  {
    if difficulty in DIFFICULTY_SETTINGS then DIFFICULTY_SETTINGS[difficulty].speed else DEFAULT_GAME_SPEED
  }

  /** The obstacle spacing for a difficulty key, falling back to 300. */
  function CurrentSpacing(difficulty: string): (spacing: real)
    ensures spacing == 350.0 <==> difficulty == "easy"
    ensures spacing == 250.0 <==> difficulty == "hard"
    ensures spacing == 300.0 <==> difficulty != "easy" && difficulty != "hard"
    ensures 250.0 <= spacing <= 350.0
  {
    if difficulty in DIFFICULTY_SETTINGS then DIFFICULTY_SETTINGS[difficulty].spacing else DEFAULT_SPACING
  }

  // ---------------------------------------------------------------------------
  // Obstacles

  /** Move every obstacle left by `speed` and drop those no longer on screen. */
  function ShiftObstacles(obstacles: seq<Obstacle>, speed: real): (r: seq<Obstacle>)
    ensures |r| <= |obstacles|
    ensures forall o | o in r :: o.x > -OBSTACLE_WIDTH
  {
    if obstacles == [] then []
    else
      var moved := obstacles[0].(x := obstacles[0].x - speed);
      (if moved.x > -OBSTACLE_WIDTH then [moved] else []) + ShiftObstacles(obstacles[1..], speed)
  }

  /** Shifting works obstacle by obstacle and keeps their order. */
  lemma {:induction false} ShiftObstaclesAppend(a: seq<Obstacle>, b: seq<Obstacle>, speed: real)
    ensures ShiftObstacles(a + b, speed) == ShiftObstacles(a, speed) + ShiftObstacles(b, speed)
  {
    if a == [] {
      assert a + b == b;
    } else {
      assert (a + b)[1..] == a[1..] + b;
      ShiftObstaclesAppend(a[1..], b, speed);
    }
  }

  /** Every obstacle that stays on screen is kept, moved left by exactly `speed`,
      and every kept obstacle is such a moved obstacle. */
  lemma {:induction false} ShiftObstaclesKeeps(obstacles: seq<Obstacle>, speed: real)
    ensures forall i | 0 <= i < |obstacles| && obstacles[i].x - speed > -OBSTACLE_WIDTH ::
              obstacles[i].(x := obstacles[i].x - speed) in ShiftObstacles(obstacles, speed)
    ensures forall o | o in ShiftObstacles(obstacles, speed) ::
              exists i | 0 <= i < |obstacles| :: o == obstacles[i].(x := obstacles[i].x - speed)
  {
    if obstacles != [] {
      var tail := obstacles[1..];
      ShiftObstaclesKeeps(tail, speed);
      forall o | o in ShiftObstacles(obstacles, speed)
        ensures exists i | 0 <= i < |obstacles| :: o == obstacles[i].(x := obstacles[i].x - speed)
      {
        if o != obstacles[0].(x := obstacles[0].x - speed) {
          var j :| 0 <= j < |tail| && o == tail[j].(x := tail[j].x - speed);
          assert o == obstacles[j + 1].(x := obstacles[j + 1].x - speed);
        }
      }
      forall i | 0 <= i < |obstacles| && obstacles[i].x - speed > -OBSTACLE_WIDTH
        ensures obstacles[i].(x := obstacles[i].x - speed) in ShiftObstacles(obstacles, speed)
      {
        if i > 0 {
          assert obstacles[i] == tail[i - 1];
        }
      }
    }
  }

  /** Obstacles ordered by id and by position, both strictly increasing. */
  ghost predicate Ordered(obstacles: seq<Obstacle>) {
    forall i, j | 0 <= i < j < |obstacles| ::
      obstacles[i].id < obstacles[j].id && obstacles[i].x < obstacles[j].x
  }

  lemma {:induction false} ShiftObstaclesOrdered(obstacles: seq<Obstacle>, speed: real)
    requires Ordered(obstacles)
    ensures Ordered(ShiftObstacles(obstacles, speed))
  {
    if obstacles != [] {
      var tail := obstacles[1..];
      assert Ordered(tail);
      ShiftObstaclesOrdered(tail, speed);
      ShiftObstaclesKeeps(tail, speed);
      var rest := ShiftObstacles(tail, speed);
      var moved := obstacles[0].(x := obstacles[0].x - speed);
      if moved.x > -OBSTACLE_WIDTH {
        forall o | o in rest
          ensures moved.id < o.id && moved.x < o.x
        {
          var j :| 0 <= j < |tail| && o == tail[j].(x := tail[j].x - speed);
          assert tail[j] == obstacles[j + 1];
        }
        OrderedCons(moved, rest);
      } else {
        assert ShiftObstacles(obstacles, speed) == rest;
      }
    }
  }

  lemma OrderedCons(head: Obstacle, rest: seq<Obstacle>)
    requires Ordered(rest)
    requires forall o | o in rest :: head.id < o.id && head.x < o.x
    ensures Ordered([head] + rest)
  {
    var all := [head] + rest;
    forall i, j | 0 <= i < j < |all|
      ensures all[i].id < all[j].id && all[i].x < all[j].x
    {
      assert all[j] == rest[j - 1];
      if i > 0 {
        assert all[i] == rest[i - 1];
      } else {
        assert rest[j - 1] in rest;
      }
    }
  }

  /** The spawn test: no obstacle left, or the last one has moved far enough in. */
  predicate NeedsObstacle(obstacles: seq<Obstacle>, spacing: real)
    ensures obstacles == [] ==> NeedsObstacle(obstacles, spacing)
    ensures !NeedsObstacle(obstacles, spacing) ==>
              obstacles != [] && obstacles[|obstacles| - 1].x >= GAME_WIDTH - spacing
  {
    |obstacles| == 0 || obstacles[|obstacles| - 1].x < GAME_WIDTH - spacing
  }

  /** A fresh obstacle at the right edge whose gap top is drawn from `r`. */
  function NewObstacle(id: nat, r: real): (o: Obstacle)
    requires Unit(r)
    ensures o.id == id && o.x == GAME_WIDTH && !o.passed && o.height == GAME_HEIGHT
    ensures MIN_HEIGHT <= o.y < MAX_HEIGHT
  {
    Obstacle(id, GAME_WIDTH, r * (MAX_HEIGHT - MIN_HEIGHT) + MIN_HEIGHT, GAME_HEIGHT, false)
  }

  /** Append at most one obstacle; afterwards the last obstacle is at most
      `spacing` left of the right edge. */
  function SpawnObstacle(obstacles: seq<Obstacle>, spacing: real, id: nat, r: real): (r': seq<Obstacle>)
    requires Unit(r) && spacing >= 0.0
    ensures |r'| == |obstacles| + (if NeedsObstacle(obstacles, spacing) then 1 else 0)
    ensures r'[..|obstacles|] == obstacles
    ensures |r'| > 0 && r'[|r'| - 1].x >= GAME_WIDTH - spacing
  {
    if NeedsObstacle(obstacles, spacing) then obstacles + [NewObstacle(id, r)] else obstacles
  }

  // ---------------------------------------------------------------------------
  // Collision

  datatype Box = Box(left: real, right: real, top: real, bottom: real)

  function OstrichBox(x: real, top: real): Box {
    Box(x, x + OSTRICH_WIDTH, top, top + OSTRICH_HEIGHT)
  }

  /** The two half-plane tests against one obstacle. */
  predicate GapHit(b: Box, o: Obstacle)
    ensures GapHit(b, o) ==> b.right > o.x && b.left < o.x + OBSTACLE_WIDTH
    ensures GapHit(b, o) ==> b.top < o.y || b.bottom > o.y + OBSTACLE_GAP
  {
    var topPipe := b.right > o.x && b.left < o.x + OBSTACLE_WIDTH && b.top < o.y;
    var bottomPipe := b.right > o.x && b.left < o.x + OBSTACLE_WIDTH && b.bottom > o.y + OBSTACLE_GAP;
    topPipe || bottomPipe
  }

  /** `some` over the obstacles. */
  predicate HasCollision(b: Box, obstacles: seq<Obstacle>)
    ensures HasCollision(b, obstacles) ==> obstacles != []
  {
    obstacles != [] && (GapHit(b, obstacles[0]) || HasCollision(b, obstacles[1..]))
  }

  /** A collision is a hit on at least one obstacle. */
  lemma {:induction false} HasCollisionSome(b: Box, obstacles: seq<Obstacle>)
    ensures HasCollision(b, obstacles) <==> exists i | 0 <= i < |obstacles| :: GapHit(b, obstacles[i])
  {
    if obstacles != [] {
      HasCollisionSome(b, obstacles[1..]);
      if HasCollision(b, obstacles[1..]) {
        var j :| 0 <= j < |obstacles[1..]| && GapHit(b, obstacles[1..][j]);
        assert GapHit(b, obstacles[j + 1]);
      }
      if exists i | 0 <= i < |obstacles| :: GapHit(b, obstacles[i]) {
        var i :| 0 <= i < |obstacles| && GapHit(b, obstacles[i]);
        if i > 0 {
          assert GapHit(b, obstacles[1..][i - 1]);
        }
      }
    }
  }

  /** A box inside the gap never hits, wherever it is horizontally. */
  lemma InsideGapNeverHits(b: Box, o: Obstacle)
    requires o.y <= b.top && b.bottom <= o.y + OBSTACLE_GAP
    ensures !GapHit(b, o)
  {
  }

  /** For an ostrich inside the playfield the half-plane test is exactly the
      box test of the helpers against the two pipes as drawn: the top pipe from
      0 down to the gap, the bottom pipe from the gap's end to the bottom edge. */
  lemma GapHitMatchesDrawnPipes(x: real, top: real, o: Obstacle)
    requires 0.0 <= top <= GAME_HEIGHT - OSTRICH_HEIGHT
    ensures
      var ostrich := GameHelpers.Rect(x, top, OSTRICH_WIDTH, OSTRICH_HEIGHT);
      var topPipe := GameHelpers.Rect(o.x, 0.0, OBSTACLE_WIDTH, o.y);
      var bottomPipe := GameHelpers.Rect(o.x, o.y + OBSTACLE_GAP, OBSTACLE_WIDTH, GAME_HEIGHT - (o.y + OBSTACLE_GAP));
      GapHit(OstrichBox(x, top), o) <==>
        GameHelpers.CheckCollision(ostrich, topPipe) || GameHelpers.CheckCollision(ostrich, bottomPipe)
  {
  }

  // ---------------------------------------------------------------------------
  // Scoring

  /** The obstacle is counted on this tick: not yet passed and entirely left of the ostrich. */
  predicate NewlyPassing(o: Obstacle, ostrichX: real) {
    !o.passed && o.x + OBSTACLE_WIDTH < ostrichX
  }

  /** The obstacles after the scoring pass: each one left of the ostrich is passed. */
  function PassedMarked(obstacles: seq<Obstacle>, ostrichX: real): (r: seq<Obstacle>)
    ensures |r| == |obstacles|
    ensures forall i | 0 <= i < |r| ::
              r[i].(passed := obstacles[i].passed) == obstacles[i]
              && (r[i].passed <==> obstacles[i].passed || obstacles[i].x + OBSTACLE_WIDTH < ostrichX)
  {
    seq(|obstacles|, i requires 0 <= i < |obstacles| =>
      if NewlyPassing(obstacles[i], ostrichX) then obstacles[i].(passed := true) else obstacles[i])
  }

  /** How many obstacles the scoring pass marks, counted from the front. */
  function CountNewlyPassed(obstacles: seq<Obstacle>, ostrichX: real): (n: nat)
    ensures n <= |obstacles|
    decreases |obstacles|
  {
    if obstacles == [] then 0
    else
      var last := obstacles[|obstacles| - 1];
      CountNewlyPassed(obstacles[..|obstacles| - 1], ostrichX) + (if NewlyPassing(last, ostrichX) then 1 else 0)
  }

  /** The ids of the obstacles the scoring pass marks. */
  ghost function NewlyPassedIds(obstacles: seq<Obstacle>, ostrichX: real): set<nat> {
    set i | 0 <= i < |obstacles| && NewlyPassing(obstacles[i], ostrichX) :: obstacles[i].id
  }

  /** Appending one obstacle adds its id exactly when the pass marks it. */
  lemma NewlyPassedIdsSnoc(init: seq<Obstacle>, last: Obstacle, ostrichX: real)
    ensures NewlyPassedIds(init + [last], ostrichX)
         == NewlyPassedIds(init, ostrichX) + (if NewlyPassing(last, ostrichX) then {last.id} else {})
  {
    var all := init + [last];
    forall id | id in NewlyPassedIds(all, ostrichX)
      ensures id in NewlyPassedIds(init, ostrichX) + (if NewlyPassing(last, ostrichX) then {last.id} else {})
    {
      var j :| 0 <= j < |all| && NewlyPassing(all[j], ostrichX) && all[j].id == id;
      if j < |init| {
        assert all[j] == init[j];
      }
    }
    forall id | id in NewlyPassedIds(init, ostrichX)
      ensures id in NewlyPassedIds(all, ostrichX)
    {
      var j :| 0 <= j < |init| && NewlyPassing(init[j], ostrichX) && init[j].id == id;
      assert all[j] == init[j];
    }
    if NewlyPassing(last, ostrichX) {
      assert all[|init|] == last;
    }
  }

  /** With distinct ids, the score gained is the number of distinct obstacles marked. */
  lemma {:induction false} NewlyPassedIdsCount(obstacles: seq<Obstacle>, ostrichX: real)
    requires Ordered(obstacles)
    ensures |NewlyPassedIds(obstacles, ostrichX)| == CountNewlyPassed(obstacles, ostrichX)
    decreases |obstacles|
  {
    if obstacles != [] {
      var n := |obstacles| - 1;
      var init, last := obstacles[..n], obstacles[n];
      assert Ordered(init);
      NewlyPassedIdsCount(init, ostrichX);
      var before := NewlyPassedIds(init, ostrichX);
      assert last.id !in before by {
        forall id | id in before
          ensures id < last.id
        {
          var j :| 0 <= j < n && NewlyPassing(init[j], ostrichX) && init[j].id == id;
          assert obstacles[j].id < obstacles[n].id;
        }
      }
      assert NewlyPassedIds(obstacles, ostrichX)
          == before + (if NewlyPassing(last, ostrichX) then {last.id} else {}) by {
        assert obstacles == init + [last];
        NewlyPassedIdsSnoc(init, last, ostrichX);
      }
    }
  }

  /** forEach over the obstacles: mark the ones the ostrich has passed and count
      each newly marked one once. */
  method MarkPassed(obstacles: seq<Obstacle>, ostrichX: real) returns (marked: seq<Obstacle>, gained: nat)
    ensures marked == PassedMarked(obstacles, ostrichX)
    ensures gained == CountNewlyPassed(obstacles, ostrichX)
  {
    marked := obstacles;
    gained := 0;
    var i := 0;
    while i < |obstacles|
      invariant 0 <= i <= |obstacles| && |marked| == |obstacles|
      invariant forall j | 0 <= j < i :: marked[j] == PassedMarked(obstacles, ostrichX)[j]
      invariant forall j | i <= j < |obstacles| :: marked[j] == obstacles[j]
      invariant gained == CountNewlyPassed(obstacles[..i], ostrichX)
    {
      assert obstacles[..i + 1][..i] == obstacles[..i];
      if !marked[i].passed && marked[i].x + OBSTACLE_WIDTH < ostrichX {
        marked := marked[i := marked[i].(passed := true)];
        gained := gained + 1;
      }
      i := i + 1;
    }
    assert obstacles[..i] == obstacles;
  }

  // ---------------------------------------------------------------------------
  // Background

  /** generateBackgroundElement: a cloud above the horizon or a bush on it, at the
      right edge. A bush draws no y, so `yDraw` is ignored for it. */
  function GenerateBackgroundElement(kind: Kind, yDraw: real, idDraw: real, sizeDraw: real): (e: BackgroundElement)
    requires Unit(yDraw) && Unit(sizeDraw)
    ensures e.x == GAME_WIDTH && e.kind == kind && e.id == idDraw
    ensures BackgroundPlaced(e)
  {
    var baseY := if kind == Cloud then yDraw * (HORIZON_Y - 100.0) else HORIZON_Y - 10.0;
    var size := if kind == Cloud then 0.8 + sizeDraw * 0.4 else 0.6 + sizeDraw * 0.3;
    BackgroundElement(idDraw, GAME_WIDTH, baseY, kind, size)
  }

  /** Where a background element can be: a cloud with y in [0, 320) and size in
      [0.8, 1.2), a bush with y 410 and size in [0.6, 0.9). */
  predicate BackgroundPlaced(e: BackgroundElement) {
    && (e.kind == Cloud ==> 0.0 <= e.y < 320.0 && 0.8 <= e.size < 1.2)
    && (e.kind == Bush ==> e.y == 410.0 && 0.6 <= e.size < 0.9)
  }

  /** Move every element left by half the obstacle speed and drop those off screen. */
  function ShiftBackground(elements: seq<BackgroundElement>, speed: real): (r: seq<BackgroundElement>)
    ensures |r| <= |elements|
    ensures forall e | e in r :: e.x > -100.0
  {
    if elements == [] then []
    else
      var moved := elements[0].(x := elements[0].x - speed * 0.5);
      (if moved.x > -100.0 then [moved] else []) + ShiftBackground(elements[1..], speed)
  }

  /** Every kept element is an element moved left by half the speed. */
  lemma {:induction false} ShiftBackgroundOrigin(elements: seq<BackgroundElement>, speed: real)
    ensures forall e | e in ShiftBackground(elements, speed) ::
              exists i | 0 <= i < |elements| :: e == elements[i].(x := elements[i].x - speed * 0.5)
  {
    if elements != [] {
      var tail := elements[1..];
      ShiftBackgroundOrigin(tail, speed);
      forall e | e in ShiftBackground(elements, speed)
        ensures exists i | 0 <= i < |elements| :: e == elements[i].(x := elements[i].x - speed * 0.5)
      {
        if e != elements[0].(x := elements[0].x - speed * 0.5) {
          assert e in ShiftBackground(tail, speed);
          var j :| 0 <= j < |tail| && e == tail[j].(x := tail[j].x - speed * 0.5);
          assert e == elements[j + 1].(x := elements[j + 1].x - speed * 0.5);
        }
      }
    }
  }

  /** Every element whose moved x is still right of -100 is kept, moved left by
      half the speed. */
  lemma {:induction false} ShiftBackgroundKeeps(elements: seq<BackgroundElement>, speed: real)
    ensures forall i | 0 <= i < |elements| && elements[i].x - speed * 0.5 > -100.0 ::
              elements[i].(x := elements[i].x - speed * 0.5) in ShiftBackground(elements, speed)
  {
    if elements != [] {
      var tail := elements[1..];
      ShiftBackgroundKeeps(tail, speed);
      forall i | 0 <= i < |elements| && elements[i].x - speed * 0.5 > -100.0
        ensures elements[i].(x := elements[i].x - speed * 0.5) in ShiftBackground(elements, speed)
      {
        if i > 0 {
          assert elements[i] == tail[i - 1];
        }
      }
    }
  }

  /** Add a cloud with chance 0.01, then a bush with chance 0.02, after the
      elements already there. */
  function SpawnBackground(elements: seq<BackgroundElement>, d: Draws): (r: seq<BackgroundElement>)
    requires ValidDraws(d)
    ensures var cloud := d.cloudChance < 0.01;
      var bush := d.bushChance < 0.02;
      && |r| == |elements| + (if cloud then 1 else 0) + (if bush then 1 else 0)
      && r[..|elements|] == elements
      && (cloud ==> r[|elements|] == GenerateBackgroundElement(Cloud, d.cloudY, d.cloudId, d.cloudSize))
      && (bush ==> r[|r| - 1] == GenerateBackgroundElement(Bush, 0.0, d.bushId, d.bushSize))
  {
    var withCloud :=
      if d.cloudChance < 0.01
      then elements + [GenerateBackgroundElement(Cloud, d.cloudY, d.cloudId, d.cloudSize)]
      else elements;
    if d.bushChance < 0.02
    then withCloud + [GenerateBackgroundElement(Bush, 0.0, d.bushId, d.bushSize)]
    else withCloud
  }

  // ---------------------------------------------------------------------------
  // The tick

  /** What one tick does: whether the game ends, the state it leaves, whether it
      spawned an obstacle (and so used up an id), and the score gained. */
  datatype Outcome = Outcome(over: bool, next: GameState, spawned: bool, gained: nat)

  /** Whether the tick from `prev` adds an obstacle. */
  predicate Spawns(prev: GameState) {
    NeedsObstacle(ShiftObstacles(prev.obstacles, CurrentSpeed(prev.difficulty)), CurrentSpacing(prev.difficulty))
  }

  /** The obstacles after moving, culling and spawning, before scoring. */
  function MovedObstacles(prev: GameState, nextId: nat, d: Draws): seq<Obstacle>
    requires ValidDraws(d)
  {
    SpawnObstacle(ShiftObstacles(prev.obstacles, CurrentSpeed(prev.difficulty)),
                  CurrentSpacing(prev.difficulty), nextId, d.obstacleHeight)
  }

  /** The game ends on a hit or when the new top leaves [0, GAME_HEIGHT - OSTRICH_HEIGHT]. */
  predicate EndsGame(ostrichX: real, newY: real, obstacles: seq<Obstacle>)
    ensures !EndsGame(ostrichX, newY, obstacles) ==> 0.0 <= newY <= 540.0
    ensures obstacles == [] ==> (EndsGame(ostrichX, newY, obstacles) <==> newY < 0.0 || newY > 540.0)
  {
    HasCollision(OstrichBox(ostrichX, newY), obstacles) || newY > GAME_HEIGHT - OSTRICH_HEIGHT || newY < 0.0
  }

  /** The interval's state updater. */
  function TickSpec(prev: GameState, nextId: nat, d: Draws): (o: Outcome)
    requires ValidDraws(d)
    ensures o.spawned == Spawns(prev)
    ensures o.over ==> o.next == prev && o.gained == 0
    ensures !o.over ==> o.gained <= |MovedObstacles(prev, nextId, d)|
  {
    var newY := prev.ostrichPosition.y + prev.velocity;
    var speed := CurrentSpeed(prev.difficulty);
    var spawned := Spawns(prev);
    var obstacles := MovedObstacles(prev, nextId, d);
    var x := prev.ostrichPosition.x;
    if EndsGame(x, newY, obstacles) then Outcome(true, prev, spawned, 0)
    else
      Outcome(false,
        prev.(ostrichPosition := prev.ostrichPosition.(y := newY),
              velocity := prev.velocity + GRAVITY,
              obstacles := PassedMarked(obstacles, x),
              backgroundElements := SpawnBackground(ShiftBackground(prev.backgroundElements, speed), d)),
        spawned,
        CountNewlyPassed(obstacles, x))
  }

  /** A tick that does not end the game integrates position then velocity and
      leaves the ostrich's x and the difficulty alone. */
  lemma TickPhysics(prev: GameState, nextId: nat, d: Draws)
    requires ValidDraws(d)
    ensures var o := TickSpec(prev, nextId, d);
      !o.over ==>
        && o.next.ostrichPosition.y == prev.ostrichPosition.y + prev.velocity
        && o.next.velocity == prev.velocity + GRAVITY
        && o.next.ostrichPosition.x == prev.ostrichPosition.x
        && o.next.difficulty == prev.difficulty
  {
  }

  /** The game ends exactly on a hit or when the new y leaves [0, 540]; then the
      state is returned unchanged. */
  lemma TickGameOverRule(prev: GameState, nextId: nat, d: Draws)
    requires ValidDraws(d)
    ensures var o := TickSpec(prev, nextId, d);
      var newY := prev.ostrichPosition.y + prev.velocity;
      && (o.over <==>
            (exists i | 0 <= i < |MovedObstacles(prev, nextId, d)| ::
               GapHit(OstrichBox(prev.ostrichPosition.x, newY), MovedObstacles(prev, nextId, d)[i]))
            || newY > 540.0 || newY < 0.0)
      && (o.over ==> o.next == prev && o.gained == 0)
  {
    var newY := prev.ostrichPosition.y + prev.velocity;
    HasCollisionSome(OstrichBox(prev.ostrichPosition.x, newY), MovedObstacles(prev, nextId, d));
  }

  /** At most one obstacle is added per tick, at the right edge with the next id;
      afterwards the last obstacle is within `spacing` of the right edge. */
  lemma TickSpawnRule(prev: GameState, nextId: nat, d: Draws)
    requires ValidDraws(d)
    ensures var o := TickSpec(prev, nextId, d);
      var shifted := ShiftObstacles(prev.obstacles, CurrentSpeed(prev.difficulty));
      var obstacles := MovedObstacles(prev, nextId, d);
      && |obstacles| == |shifted| + (if o.spawned then 1 else 0)
      && obstacles[..|shifted|] == shifted
      && (o.spawned ==> obstacles[|shifted|] == NewObstacle(nextId, d.obstacleHeight))
      && obstacles[|obstacles| - 1].x >= GAME_WIDTH - CurrentSpacing(prev.difficulty)
      && (!o.over ==> |o.next.obstacles| == |obstacles|)
  {
  }

  /** Background elements have no say in whether the game ends, in the obstacles
      or in the score. */
  lemma {:induction false} TickBackgroundIrrelevant(prev: GameState, elements: seq<BackgroundElement>, nextId: nat, d: Draws)
    requires ValidDraws(d)
    ensures var o1 := TickSpec(prev, nextId, d);
      var o2 := TickSpec(prev.(backgroundElements := elements), nextId, d);
      && o1.over == o2.over && o1.spawned == o2.spawned && o1.gained == o2.gained
      && (!o1.over ==> o1.next.obstacles == o2.next.obstacles && o1.next.ostrichPosition == o2.next.ostrichPosition)
  {
    assert MovedObstacles(prev, nextId, d) == MovedObstacles(prev.(backgroundElements := elements), nextId, d);
  }

  // ---------------------------------------------------------------------------
  // The state invariant

  /** An obstacle between moving and scoring: on screen, with an id already
      handed out, its gap inside [MIN_HEIGHT, MAX_HEIGHT), and passed only if it
      is entirely left of the ostrich. */
  predicate InPlay(o: Obstacle, nextId: nat, ostrichX: real) {
    && o.id < nextId
    && -OBSTACLE_WIDTH < o.x <= GAME_WIDTH
    && MIN_HEIGHT <= o.y < MAX_HEIGHT
    && o.height == GAME_HEIGHT
    && (o.passed ==> o.x + OBSTACLE_WIDTH < ostrichX)
  }

  /** An obstacle as every tick leaves it: in play, and passed exactly when it is
      entirely left of the ostrich. */
  predicate WellPlaced(o: Obstacle, nextId: nat, ostrichX: real) {
    InPlay(o, nextId, ostrichX) && (o.x + OBSTACLE_WIDTH < ostrichX ==> o.passed)
  }

  /** A background element on screen, where generateBackgroundElement put it. */
  predicate BackgroundOnScreen(e: BackgroundElement) {
    -100.0 < e.x <= GAME_WIDTH && BackgroundPlaced(e)
  }

  /** The state every reachable game state satisfies. */
  ghost predicate WellFormed(s: GameState, nextId: nat) {
    && s.ostrichPosition.x == GAME_WIDTH * 0.2
    && 0.0 <= s.ostrichPosition.y <= GAME_HEIGHT - OSTRICH_HEIGHT
    && Ordered(s.obstacles)
    && (forall o | o in s.obstacles :: WellPlaced(o, nextId, s.ostrichPosition.x))
    && (forall e | e in s.backgroundElements :: BackgroundOnScreen(e))
  }

  lemma InitialStateWellFormed()
    ensures WellFormed(INITIAL_STATE, 0)
  {
  }

  /** Moving keeps obstacles in play. */
  lemma ShiftObstaclesInPlay(obstacles: seq<Obstacle>, speed: real, nextId: nat, ostrichX: real)
    requires speed > 0.0
    requires forall o | o in obstacles :: InPlay(o, nextId, ostrichX)
    ensures forall o | o in ShiftObstacles(obstacles, speed) :: InPlay(o, nextId, ostrichX) && o.x < GAME_WIDTH
  {
    ShiftObstaclesKeeps(obstacles, speed);
    forall o | o in ShiftObstacles(obstacles, speed)
      ensures InPlay(o, nextId, ostrichX) && o.x < GAME_WIDTH
    {
      var i :| 0 <= i < |obstacles| && o == obstacles[i].(x := obstacles[i].x - speed);
      assert InPlay(obstacles[i], nextId, ostrichX);
    }
  }

  /** Spawning keeps obstacles in play and ordered, counting the id it uses. */
  lemma SpawnObstacleInPlay(obstacles: seq<Obstacle>, spacing: real, nextId: nat, r: real, ostrichX: real)
    requires Unit(r) && spacing >= 0.0
    requires Ordered(obstacles)
    requires forall o | o in obstacles :: InPlay(o, nextId, ostrichX) && o.x < GAME_WIDTH
    ensures var spawned := SpawnObstacle(obstacles, spacing, nextId, r);
      var nextId' := nextId + (if NeedsObstacle(obstacles, spacing) then 1 else 0);
      && Ordered(spawned)
      && forall o | o in spawned :: InPlay(o, nextId', ostrichX)
  {
    var spawned := SpawnObstacle(obstacles, spacing, nextId, r);
    if NeedsObstacle(obstacles, spacing) {
      forall i, j | 0 <= i < j < |spawned|
        ensures spawned[i].id < spawned[j].id && spawned[i].x < spawned[j].x
      {
        if j == |obstacles| {
          assert spawned[i] in obstacles;
        }
      }
    }
  }

  /** Scoring turns in-play obstacles into well-placed ones and keeps the order. */
  lemma PassedMarkedWellPlaced(obstacles: seq<Obstacle>, nextId: nat, ostrichX: real)
    requires Ordered(obstacles)
    requires forall o | o in obstacles :: InPlay(o, nextId, ostrichX)
    ensures var marked := PassedMarked(obstacles, ostrichX);
      && Ordered(marked)
      && forall m | m in marked :: WellPlaced(m, nextId, ostrichX)
  {
    var marked := PassedMarked(obstacles, ostrichX);
    forall i, j | 0 <= i < j < |marked|
      ensures marked[i].id < marked[j].id && marked[i].x < marked[j].x
    {
      assert obstacles[i].id < obstacles[j].id && obstacles[i].x < obstacles[j].x;
    }
    forall m | m in marked
      ensures WellPlaced(m, nextId, ostrichX)
    {
      var i :| 0 <= i < |marked| && marked[i] == m;
      assert obstacles[i] in obstacles;
    }
  }

  /** Moving and spawning keep background elements on screen and in their bands. */
  lemma BackgroundStaysOnScreen(elements: seq<BackgroundElement>, speed: real, d: Draws)
    requires speed > 0.0 && ValidDraws(d)
    requires forall e | e in elements :: BackgroundOnScreen(e)
    ensures forall e | e in SpawnBackground(ShiftBackground(elements, speed), d) :: BackgroundOnScreen(e)
  {
    ShiftBackgroundOrigin(elements, speed);
    forall e | e in ShiftBackground(elements, speed)
      ensures BackgroundOnScreen(e)
    {
      var i :| 0 <= i < |elements| && e == elements[i].(x := elements[i].x - speed * 0.5);
      assert BackgroundOnScreen(elements[i]);
    }
  }

  /** The obstacles a tick leaves before scoring are ordered and in play. */
  lemma MovedObstaclesInPlay(prev: GameState, nextId: nat, d: Draws)
    requires WellFormed(prev, nextId) && ValidDraws(d)
    ensures var obstacles := MovedObstacles(prev, nextId, d);
      var nextId' := nextId + (if Spawns(prev) then 1 else 0);
      && Ordered(obstacles)
      && forall o | o in obstacles :: InPlay(o, nextId', prev.ostrichPosition.x)
  {
    var speed := CurrentSpeed(prev.difficulty);
    var x := prev.ostrichPosition.x;
    assert forall o | o in prev.obstacles :: InPlay(o, nextId, x);
    ShiftObstaclesOrdered(prev.obstacles, speed);
    ShiftObstaclesInPlay(prev.obstacles, speed, nextId, x);
    SpawnObstacleInPlay(ShiftObstacles(prev.obstacles, speed), CurrentSpacing(prev.difficulty), nextId, d.obstacleHeight, x);
  }

  /** Every tick keeps the state well formed, counting the id it uses up. */
  lemma TickPreservesWellFormed(prev: GameState, nextId: nat, d: Draws)
    requires WellFormed(prev, nextId) && ValidDraws(d)
    ensures var o := TickSpec(prev, nextId, d);
      WellFormed(o.next, nextId + (if o.spawned then 1 else 0))
  {
    var o := TickSpec(prev, nextId, d);
    var nextId' := nextId + (if o.spawned then 1 else 0);
    var x := prev.ostrichPosition.x;
    if !o.over {
      var obstacles := MovedObstacles(prev, nextId, d);
      MovedObstaclesInPlay(prev, nextId, d);
      PassedMarkedWellPlaced(obstacles, nextId', x);
      BackgroundStaysOnScreen(prev.backgroundElements, CurrentSpeed(prev.difficulty), d);
      assert o.next.obstacles == PassedMarked(obstacles, x);
      assert o.next.ostrichPosition.x == x;
      assert 0.0 <= o.next.ostrichPosition.y <= GAME_HEIGHT - OSTRICH_HEIGHT;
      assert Ordered(o.next.obstacles);
      assert forall m | m in o.next.obstacles :: WellPlaced(m, nextId', x);
      assert forall e | e in o.next.backgroundElements :: BackgroundOnScreen(e);
      assert WellFormed(o.next, nextId');
    } else {
      assert o.next == prev;
      assert forall ob | ob in prev.obstacles :: WellPlaced(ob, nextId, prev.ostrichPosition.x);
      assert forall ob | ob in prev.obstacles :: WellPlaced(ob, nextId', prev.ostrichPosition.x);
      assert WellFormed(prev, nextId');
    }
  }

  /** Before scoring, an obstacle is passed exactly when its id has already
      scored: moving keeps id and flag, and a new obstacle has a fresh id. */
  lemma MovedObstaclesScoredIds(prev: GameState, nextId: nat, d: Draws, scored: set<nat>)
    requires ValidDraws(d)
    requires forall o | o in prev.obstacles :: o.passed <==> o.id in scored
    requires forall id | id in scored :: id < nextId
    ensures forall o | o in MovedObstacles(prev, nextId, d) :: o.passed <==> o.id in scored
  {
    var speed := CurrentSpeed(prev.difficulty);
    ShiftObstaclesKeeps(prev.obstacles, speed);
    forall o | o in ShiftObstacles(prev.obstacles, speed)
      ensures o.passed <==> o.id in scored
    {
      var i :| 0 <= i < |prev.obstacles| && o == prev.obstacles[i].(x := prev.obstacles[i].x - speed);
      assert prev.obstacles[i] in prev.obstacles;
    }
  }

  /** In an ordered list no two positions share an id. */
  lemma OrderedIdsDistinct(obstacles: seq<Obstacle>, i: int, j: int)
    requires Ordered(obstacles) && 0 <= i < |obstacles| && 0 <= j < |obstacles|
    requires obstacles[i].id == obstacles[j].id
    ensures i == j
  {
  }

  /** Scoring adds the ids of the newly passed obstacles, none of which scored
      before, and afterwards an obstacle is passed exactly when its id scored. */
  lemma PassedMarkedScoredIds(obstacles: seq<Obstacle>, ostrichX: real, scored: set<nat>)
    requires Ordered(obstacles)
    requires forall o | o in obstacles :: o.passed <==> o.id in scored
    ensures NewlyPassedIds(obstacles, ostrichX) !! scored
    ensures forall m | m in PassedMarked(obstacles, ostrichX) ::
              m.passed <==> m.id in scored + NewlyPassedIds(obstacles, ostrichX)
  {
    var marked := PassedMarked(obstacles, ostrichX);
    var newIds := NewlyPassedIds(obstacles, ostrichX);
    forall m | m in marked
      ensures m.passed <==> m.id in scored + newIds
    {
      var i :| 0 <= i < |marked| && marked[i] == m;
      assert obstacles[i] in obstacles;
      if m.id in newIds {
        var j :| 0 <= j < |obstacles| && NewlyPassing(obstacles[j], ostrichX) && obstacles[j].id == m.id;
        OrderedIdsDistinct(obstacles, i, j);
      }
    }
    forall id | id in newIds
      ensures id !in scored
    {
      var j :| 0 <= j < |obstacles| && NewlyPassing(obstacles[j], ostrichX) && obstacles[j].id == id;
      assert obstacles[j] in obstacles;
    }
  }

  /** The score bookkeeping of one tick: the ids that have scored grow by exactly
      the score gained, stay below the next id, and match the passed flags. */
  lemma TickScoredIds(prev: GameState, nextId: nat, d: Draws, scored: set<nat>)
    requires WellFormed(prev, nextId) && ValidDraws(d)
    requires forall o | o in prev.obstacles :: o.passed <==> o.id in scored
    requires forall id | id in scored :: id < nextId
    ensures var o := TickSpec(prev, nextId, d);
      var scored' := scored + NewlyPassedIds(MovedObstacles(prev, nextId, d), prev.ostrichPosition.x);
      !o.over ==>
        && |scored'| == |scored| + o.gained
        && (forall id | id in scored' :: id < nextId + (if o.spawned then 1 else 0))
        && (forall m | m in o.next.obstacles :: m.passed <==> m.id in scored')
  {
    var o := TickSpec(prev, nextId, d);
    var x := prev.ostrichPosition.x;
    var obstacles := MovedObstacles(prev, nextId, d);
    var newIds := NewlyPassedIds(obstacles, x);
    if !o.over {
      assert o.next.obstacles == PassedMarked(obstacles, x) && o.gained == CountNewlyPassed(obstacles, x);
      var nextId' := nextId + (if o.spawned then 1 else 0);
      MovedObstaclesInPlay(prev, nextId, d);
      assert newIds !! scored
          && forall m | m in PassedMarked(obstacles, x) :: m.passed <==> m.id in scored + newIds
      by {
        MovedObstaclesScoredIds(prev, nextId, d, scored);
        PassedMarkedScoredIds(obstacles, x, scored);
      }
      assert |newIds| == o.gained by {
        NewlyPassedIdsCount(obstacles, x);
      }
      assert |scored + newIds| == |scored| + |newIds|;
      assert o.spawned == Spawns(prev);
      forall id | id in scored + newIds
        ensures id < nextId'
      {
        if id in newIds {
          var j :| 0 <= j < |obstacles| && NewlyPassing(obstacles[j], x) && obstacles[j].id == id;
          assert obstacles[j] in obstacles;
        }
      }
    }
  }

  /** Passed flags never revert: a tick marks, it does not unmark. */
  lemma PassedNeverReverts(obstacles: seq<Obstacle>, ostrichX: real)
    ensures forall i | 0 <= i < |obstacles| && obstacles[i].passed :: PassedMarked(obstacles, ostrichX)[i].passed
    ensures forall i | 0 <= i < |obstacles| && obstacles[i].passed :: !NewlyPassing(obstacles[i], ostrichX)
  {
  }

  /** In a well-formed state the passed obstacles still on screen are exactly
      those the helpers' calculateScore counts. */
  lemma {:induction false} PassedAgreesWithCalculateScore(obstacles: seq<Obstacle>, ostrichX: real)
    requires forall o | o in obstacles :: o.passed <==> o.x + OBSTACLE_WIDTH < ostrichX
    ensures CountPassed(obstacles) == GameHelpers.CalculateScore(Xs(obstacles), ostrichX)
  {
    if obstacles != [] {
      PassedAgreesWithCalculateScore(obstacles[1..], ostrichX);
      assert Xs(obstacles)[1..] == Xs(obstacles[1..]);
    }
  }

  function Xs(obstacles: seq<Obstacle>): seq<real> {
    seq(|obstacles|, i requires 0 <= i < |obstacles| => obstacles[i].x)
  }

  function CountPassed(obstacles: seq<Obstacle>): nat {
    if obstacles == [] then 0 else (if obstacles[0].passed then 1 else 0) + CountPassed(obstacles[1..])
  }

  /** A set of ids all below `n` has at most `n` members. */
  lemma {:induction false} IdsBelowBound(ids: set<nat>, n: nat)
    requires forall id | id in ids :: id < n
    ensures |ids| <= n
    decreases n
  {
    if n > 0 {
      IdsBelowBound(ids - {n - 1}, n - 1);
    } else {
      assert ids == {};
    }
  }

  /** The high-score effect: at game over a higher score replaces the high score. */
  function NewHighScore(gameOver: bool, score: nat, highScore: nat): (h: nat)
    ensures h >= highScore
    ensures gameOver ==> h >= score
    ensures h == highScore || (gameOver && h == score)
  {
    if gameOver && score > highScore then score else highScore
  }

  // ---------------------------------------------------------------------------
  // The component's state

  /** The bookkeeping of a run: a well-formed state, the passed flags recording
      exactly the scored ids, every scored id already handed out, and the score
      counting the scored ids. */
  ghost predicate Consistent(s: GameState, nextId: nat, scored: set<nat>, score: nat) {
    && WellFormed(s, nextId)
    && (forall o | o in s.obstacles :: o.passed <==> o.id in scored)
    && (forall id | id in scored :: id < nextId)
    && score == |scored|
  }

  /** A tick keeps the bookkeeping: the ids newly passed this tick are added to
      the scored ids exactly when the game goes on. */
  lemma TickKeepsConsistent(prev: GameState, nextId: nat, d: Draws, scored: set<nat>, score: nat)
    requires Consistent(prev, nextId, scored, score) && ValidDraws(d)
    ensures var o := TickSpec(prev, nextId, d);
      var nextId' := nextId + (if o.spawned then 1 else 0);
      && (o.over ==> o.next == prev && Consistent(prev, nextId', scored, score))
      && (!o.over ==> Consistent(o.next, nextId',
                                 scored + NewlyPassedIds(MovedObstacles(prev, nextId, d), prev.ostrichPosition.x),
                                 score + o.gained))
  {
    TickPreservesWellFormed(prev, nextId, d);
    TickScoredIds(prev, nextId, d, scored);
  }

  /** The updater handed to setGameState, computed step by step: move and cull
      the obstacles, spawn one when the last is far enough in, test for the end
      of the run, then mark the passed obstacles and move the scenery. */
  method Update(prev: GameState, nextId: nat, d: Draws) returns (o: Outcome)
    requires ValidDraws(d)
    ensures o == TickSpec(prev, nextId, d)
  {
    var newY := prev.ostrichPosition.y + prev.velocity;
    var newVelocity := prev.velocity + GRAVITY;
    var currentSpeed := CurrentSpeed(prev.difficulty);
    var currentSpacing := CurrentSpacing(prev.difficulty);
    var newObstacles := ShiftObstacles(prev.obstacles, currentSpeed);
    var spawned := false;
    if NeedsObstacle(newObstacles, currentSpacing) {
      newObstacles := newObstacles + [NewObstacle(nextId, d.obstacleHeight)];
      spawned := true;
    }
    assert newObstacles == MovedObstacles(prev, nextId, d);
    var hasCollision := HasCollision(OstrichBox(prev.ostrichPosition.x, newY), newObstacles);
    if hasCollision || newY > GAME_HEIGHT - OSTRICH_HEIGHT || newY < 0.0 {
      return Outcome(true, prev, spawned, 0);
    }
    var marked, gained := MarkPassed(newObstacles, prev.ostrichPosition.x);
    var newBackgroundElements := SpawnBackground(ShiftBackground(prev.backgroundElements, currentSpeed), d);
    o := Outcome(false,
      prev.(ostrichPosition := prev.ostrichPosition.(y := newY),
            velocity := newVelocity,
            obstacles := marked,
            backgroundElements := newBackgroundElements),
      spawned, gained);
  }

  class Game {
    var isPlaying: bool
    var score: nat
    var highScore: nat
    var gameOver: bool
    var state: GameState
    var nextObstacleId: nat
    /** The ids of all obstacles that have ever scored in this run. */
    ghost var passedIds: set<nat>

    ghost predicate Valid()
      reads this
    {
      && Consistent(state, nextObstacleId, passedIds, score)
      && (gameOver ==> !isPlaying && highScore >= score)
    }

    /** The component's initial state (the stored high score is not loaded). */
    constructor ()
      ensures Valid()
      ensures !isPlaying && !gameOver && score == 0 && highScore == 0
      ensures state == INITIAL_STATE && nextObstacleId == 0
    {
      isPlaying := false;
      score := 0;
      highScore := 0;
      gameOver := false;
      state := INITIAL_STATE;
      nextObstacleId := 0;
      passedIds := {};
    }

    /** Each obstacle scores at most once over a run, so the score never exceeds
        the number of obstacles spawned. */
    lemma ScoreAtMostObstaclesSpawned()
      requires Valid()
      ensures score <= nextObstacleId
    {
      IdsBelowBound(passedIds, nextObstacleId);
    }

    /** startGame: a new run from INITIAL_STATE, which also resets the difficulty
        to "medium". */
    method Start()
      requires Valid()
      modifies this
      ensures Valid()
      ensures isPlaying && !gameOver && score == 0 && nextObstacleId == 0
      ensures state == INITIAL_STATE && state.difficulty == "medium"
      ensures highScore == old(highScore)
    {
      isPlaying := true;
      score := 0;
      gameOver := false;
      state := INITIAL_STATE;
      nextObstacleId := 0;
      passedIds := {};
    }

    /** handleJump: while playing, set the velocity to JUMP_FORCE and nothing else. */
    method Jump()
      requires Valid()
      modifies this`state
      ensures Valid()
      ensures state == if isPlaying then old(state).(velocity := JUMP_FORCE) else old(state)
    {
      if !isPlaying {
        return;
      }
      state := state.(velocity := JUMP_FORCE);
    }

    /** The settings' difficulty change. */
    method SetDifficulty(difficulty: string)
      requires Valid()
      modifies this`state
      ensures Valid()
      ensures state == old(state).(difficulty := difficulty)
    {
      state := state.(difficulty := difficulty);
    }

    /** The writes that follow one run of the updater: the obstacle-id ref
        advances if an obstacle was spawned, and either the run ends (isPlaying
        and gameOver, then the high-score effect) or the new state and score are
        stored. `newIds` are the ids the updater marked as passed. */
    method Commit(o: Outcome, ghost newIds: set<nat>)
      requires Valid() && isPlaying
      requires var nextId' := nextObstacleId + (if o.spawned then 1 else 0);
        && (o.over ==> o.next == state && Consistent(state, nextId', passedIds, score))
        && (!o.over ==> Consistent(o.next, nextId', passedIds + newIds, score + o.gained))
      modifies this
      ensures Valid()
      ensures nextObstacleId == old(nextObstacleId) + (if o.spawned then 1 else 0)
      ensures state == o.next && isPlaying == !o.over && gameOver == o.over
      ensures score == old(score) + (if o.over then 0 else o.gained)
      ensures highScore == (if o.over then NewHighScore(true, old(score), old(highScore)) else old(highScore))
    {
      if o.spawned {
        nextObstacleId := nextObstacleId + 1;
      }
      if o.over {
        isPlaying := false;
        gameOver := true;
        highScore := NewHighScore(gameOver, score, highScore);
        return;
      }
      score := score + o.gained;
      passedIds := passedIds + newIds;
      state := o.next;
    }

    /** One run of the interval's updater, followed by the high-score effect when
        the game ends. No interval runs while not playing. */
    method Tick(d: Draws)
      requires Valid() && ValidDraws(d)
      modifies this
      ensures Valid()
      ensures !old(isPlaying) ==> unchanged(this)
      ensures old(isPlaying) ==>
        var o := TickSpec(old(state), old(nextObstacleId), d);
        && nextObstacleId == old(nextObstacleId) + (if o.spawned then 1 else 0)
        && state == o.next
        && isPlaying == !o.over && gameOver == o.over
        && score == old(score) + o.gained
        && highScore == (if o.over then NewHighScore(true, old(score), old(highScore)) else old(highScore))
    {
      if !isPlaying {
        return;
      }
      var o := Update(state, nextObstacleId, d);
      TickKeepsConsistent(state, nextObstacleId, d, passedIds, score);
      Commit(o, NewlyPassedIds(MovedObstacles(state, nextObstacleId, d), state.ostrichPosition.x));
    }
  }
}
