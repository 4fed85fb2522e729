/**
 * The state-changing rules of the runner game in
 * frontend/src/pages/Game.tsx: the jump, the physics step and the item
 * passes of `gameLoop`, the spawners, `startGame` and `handleSubmitScore`.
 *
 * The component keeps its game in refs (`playerRef`, `obstaclesRef`,
 * `scoreRef`, ...) that its callbacks update in place; here they are the
 * fields of a `GamePage` object, and each callback is a method whose new
 * state is a function of the old one (`Tick`, `Started`, ...). The lemmas
 * at the end state what those functions promise over a frame.
 */
module Game {
  import opened Options
  import opened GameRules

  datatype GameState = Menu | Playing | GameOver

  /** The canvas's size in pixels. */
  datatype Canvas = Canvas(width: nat, height: nat)

  /** The arguments `handleSubmitScore` passes to the score mutation. */
  datatype Submission = Submission(playerName: string, score: nat)

  /** The `y` at which the player stands on the ground line. */
  function GroundPlayerY(c: Canvas, p: Player): real {
    c.height as real - GroundHeight - p.height + PlayerGroundOffset
  }

  // ---------------------------------------------------------------- jumping and falling

  /** `jump()` takes off: the game is on, there is a canvas, and the player stands within 2 of the ground. */
  predicate CanJump(state: GameState, canvas: Option<Canvas>, p: Player) {
    && state == Playing && canvas.Some? && !p.isJumping
    && -2.0 < p.y - GroundPlayerY(canvas.value, p) < 2.0
  }

  /** The player after `jump()`. */
  function Jumped(state: GameState, canvas: Option<Canvas>, p: Player): (q: Player)
    ensures q != p ==> CanJump(state, canvas, p)
    ensures CanJump(state, canvas, p) ==> q.velocityY == JumpStrength && q.isJumping
    ensures q.x == p.x && q.y == p.y && q.width == p.width && q.height == p.height
  {
    if CanJump(state, canvas, p) then p.(velocityY := JumpStrength, isJumping := true) else p
  }

  /**
   * The physics step of `gameLoop`: gravity, then the move, then the clamp
   * to the ground line, which also ends a jump.
   */
  function Fall(p: Player, ground: real): (q: Player)
    ensures q.y <= ground
    ensures q.x == p.x && q.width == p.width && q.height == p.height
    ensures q.y == ground ==> q.velocityY == 0.0 && !q.isJumping
    ensures q.y < ground ==> q.y == p.y + p.velocityY + Gravity && q.velocityY == p.velocityY + Gravity && q.isJumping == p.isJumping
  {
    var moved := p.(velocityY := p.velocityY + Gravity, y := p.y + (p.velocityY + Gravity));
    if moved.y >= ground then moved.(y := ground, velocityY := 0.0, isJumping := false) else moved
  }

  /** The sprite counters of `gameLoop`: every eighth frame the running sprite flips. */
  function Animated(count: nat, sprite: nat): (r: (nat, nat))
    ensures r.0 < AnimationFrameDuration || r.0 == count + 1
    ensures r.0 == 0 ==> r.1 == (sprite + 1) % 2
    ensures r.0 != 0 ==> r.1 == sprite
  {
    if count + 1 >= AnimationFrameDuration then (0, (sprite + 1) % 2) else (count + 1, sprite)
  }

  // ---------------------------------------------------------------- spawning

  /** The cactus `spawnObstacle` adds: at the right edge, standing on the ground. */
  function NewObstacle(c: Canvas): Obstacle {
    Obstacle(c.width as real, c.height as real - GroundHeight - CactusHeight + CactusGroundOffset, CactusWidth, CactusHeight)
  }

  /** The three heights a coin can float at. */
  function CoinLanes(c: Canvas): (ys: seq<real>)
    ensures |ys| == 3
  {
    var groundY := c.height as real - GroundHeight;
    [groundY - CoinSize - 10.0 * ScaleFactor, groundY - CoinSize - 80.0 * ScaleFactor, groundY - CoinSize - 150.0 * ScaleFactor]
  }

  /** The coin `spawnCoin` adds in lane `lane` (the source draws the lane at random). */
  function NewCoin(c: Canvas, lane: nat): Coin
    requires lane < 3
  {
    Coin(c.width as real, CoinLanes(c)[lane], CoinSize, CoinSize, false)
  }

  /** The list is empty, or its last item is more than `gap` left of the right edge. */
  predicate RoomAfter(lastX: Option<real>, c: Canvas, gap: real) {
    lastX.None? || lastX.value < c.width as real - gap
  }

  function LastObstacleX(os: seq<Obstacle>): Option<real> {
    if os == [] then None else Some(os[|os| - 1].x)
  }

  function LastCoinX(cs: seq<Coin>): Option<real> {
    if cs == [] then None else Some(cs[|cs| - 1].x)
  }

  /** The obstacle list after `spawnObstacle`. */
  function ObstaclesAfterSpawn(os: seq<Obstacle>, c: Canvas): (r: seq<Obstacle>)
    ensures RoomAfter(LastObstacleX(os), c, ObstacleGap) ==> r == os + [NewObstacle(c)]
    ensures !RoomAfter(LastObstacleX(os), c, ObstacleGap) ==> r == os
    ensures os != [] && |r| > |os| ==> r[|r| - 1].x - r[|r| - 2].x > ObstacleGap
  {
    if RoomAfter(LastObstacleX(os), c, ObstacleGap) then os + [NewObstacle(c)] else os
  }

  /** The coin list after `spawnCoin` with lane `lane`. */
  function CoinsAfterSpawn(cs: seq<Coin>, c: Canvas, lane: nat): (r: seq<Coin>)
    requires lane < 3
    ensures RoomAfter(LastCoinX(cs), c, CoinGap) ==> r == cs + [NewCoin(c, lane)]
    ensures !RoomAfter(LastCoinX(cs), c, CoinGap) ==> r == cs
    ensures cs != [] && |r| > |cs| ==> r[|r| - 1].x - r[|r| - 2].x > CoinGap
  {
    if RoomAfter(LastCoinX(cs), c, CoinGap) then cs + [NewCoin(c, lane)] else cs
  }

  // ---------------------------------------------------------------- dropping what left the canvas

  /** The items of `xs` that `keep` accepts, in their order: what the backward `splice` loops leave. */
  function KeepIf<T>(xs: seq<T>, keep: T -> bool): (r: seq<T>)
    ensures |r| <= |xs|
  {
    if xs == [] then [] else (if keep(xs[0]) then [xs[0]] else []) + KeepIf(xs[1..], keep)
  }

  /** The positions of the items of `xs` that `keep` accepts, in increasing order. */
  function KeptAt<T>(xs: seq<T>, keep: T -> bool): (ix: seq<nat>)
    ensures |ix| == |KeepIf(xs, keep)|
  {
    if xs == [] then []
    else (if keep(xs[0]) then [0] else []) + Shifted(KeptAt(xs[1..], keep))
  }

  function Shifted(ix: seq<nat>): (r: seq<nat>)
    ensures |r| == |ix| && forall k :: 0 <= k < |ix| ==> r[k] == ix[k] + 1
  {
    seq(|ix|, k requires 0 <= k < |ix| => ix[k] + 1)
  }

  /**
   * The kept items are the accepted items of `xs` in their original order:
   * they sit at strictly increasing positions of `xs`, each accepted, and
   * no accepted item is lost.
   */
  lemma KeepIfKeepsOrder<T>(xs: seq<T>, keep: T -> bool)
    ensures var ix := KeptAt(xs, keep);
      && (forall k :: 0 <= k < |ix| ==> ix[k] < |xs| && keep(xs[ix[k]]) && KeepIf(xs, keep)[k] == xs[ix[k]])
      && (forall k, l :: 0 <= k < l < |ix| ==> ix[k] < ix[l])
      && (forall i :: 0 <= i < |xs| && keep(xs[i]) ==> i in ix)
  {
    KeptAtSound(xs, keep);
    KeptAtIncreasing(xs, keep);
    KeptAtComplete(xs, keep);
  }

  lemma {:induction false} KeptAtSound<T>(xs: seq<T>, keep: T -> bool)
    ensures var ix := KeptAt(xs, keep);
      forall k :: 0 <= k < |ix| ==> ix[k] < |xs| && keep(xs[ix[k]]) && KeepIf(xs, keep)[k] == xs[ix[k]]
  {
    if xs != [] {
      KeptAtSound(xs[1..], keep);
      var n := if keep(xs[0]) then 1 else 0;
      KeptAtSplit(xs, keep, n);
      hide KeepIf, KeptAt;
      SoundAfterHead(xs, keep, n, KeptAt(xs, keep), KeepIf(xs, keep),
        KeptAt(xs[1..], keep), KeepIf(xs[1..], keep));
    }
  }

  /** One step of `KeepIf` and `KeptAt`: the head's entry, if kept, then the tail's, shifted by one. */
  lemma KeptAtSplit<T>(xs: seq<T>, keep: T -> bool, n: nat)
    requires xs != [] && n == (if keep(xs[0]) then 1 else 0)
    ensures |KeptAt(xs, keep)| == |KeepIf(xs, keep)| == n + |KeepIf(xs[1..], keep)|
    ensures |KeptAt(xs[1..], keep)| == |KeepIf(xs[1..], keep)|
    ensures forall k :: n <= k < |KeptAt(xs, keep)| ==>
      KeptAt(xs, keep)[k] == KeptAt(xs[1..], keep)[k - n] + 1 && KeepIf(xs, keep)[k] == KeepIf(xs[1..], keep)[k - n]
    ensures n == 1 ==> KeptAt(xs, keep)[0] == 0 && KeepIf(xs, keep)[0] == xs[0]
  {
    var ix, r := KeptAt(xs, keep), KeepIf(xs, keep);
    var rest, rt := KeptAt(xs[1..], keep), KeepIf(xs[1..], keep);
    var head: seq<T> := if n == 1 then [xs[0]] else [];
    assert ix == (if n == 1 then [0] else []) + Shifted(rest);
    assert r == head + rt;
    forall k | n <= k < |ix|
      ensures ix[k] == rest[k - n] + 1 && r[k] == rt[k - n]
    {
      hide KeptAt, KeepIf;
    }
  }

  /** Soundness of the positions carries over from the tail to the whole list. */
  lemma SoundAfterHead<T>(xs: seq<T>, keep: T -> bool, n: nat, ix: seq<nat>, r: seq<T>, rest: seq<nat>, rt: seq<T>)
    requires xs != [] && n == (if keep(xs[0]) then 1 else 0)
    requires |ix| == |r| == n + |rt| && |rest| == |rt|
    requires forall k :: 0 <= k < |rest| ==> rest[k] < |xs[1..]| && keep(xs[1..][rest[k]]) && rt[k] == xs[1..][rest[k]]
    requires forall k :: n <= k < |ix| ==> ix[k] == rest[k - n] + 1 && r[k] == rt[k - n]
    requires n == 1 ==> ix[0] == 0 && r[0] == xs[0]
    ensures forall k :: 0 <= k < |ix| ==> ix[k] < |xs| && keep(xs[ix[k]]) && r[k] == xs[ix[k]]
  {
    forall k | 0 <= k < |ix|
      ensures ix[k] < |xs| && keep(xs[ix[k]]) && r[k] == xs[ix[k]]
    {
      if k >= n {
        assert xs[ix[k]] == xs[1..][rest[k - n]];
      }
    }
  }

  /** The positions increase strictly. */
  predicate Increasing(ix: seq<nat>) {
    forall k, l :: 0 <= k < l < |ix| ==> ix[k] < ix[l]
  }

  lemma {:induction false} KeptAtIncreasing<T>(xs: seq<T>, keep: T -> bool)
    ensures Increasing(KeptAt(xs, keep))
  {
    hide KeepIf;
    if xs != [] {
      KeptAtIncreasing(xs[1..], keep);
      var sh := Shifted(KeptAt(xs[1..], keep));
      ShiftedIncreasing(KeptAt(xs[1..], keep));
      if keep(xs[0]) {
        assert KeptAt(xs, keep) == [0] + sh;
        ZeroFirstIncreasing(sh);
      } else {
        assert KeptAt(xs, keep) == sh;
      }
    }
  }

  lemma ShiftedIncreasing(ix: seq<nat>)
    requires Increasing(ix)
    ensures Increasing(Shifted(ix))
  {
    var sh := Shifted(ix);
    forall k, l | 0 <= k < l < |sh|
      ensures sh[k] < sh[l]
    {
      assert ix[k] < ix[l];
    }
  }

  lemma ZeroFirstIncreasing(sh: seq<nat>)
    requires Increasing(sh) && forall k :: 0 <= k < |sh| ==> sh[k] > 0
    ensures Increasing([0] + sh)
  {
    var ix := [0] + sh;
    forall k, l | 0 <= k < l < |ix|
      ensures ix[k] < ix[l]
    {
      assert ix[l] == sh[l - 1];
      if k > 0 {
        assert ix[k] == sh[k - 1];
      }
    }
  }

  lemma {:induction false} KeptAtComplete<T>(xs: seq<T>, keep: T -> bool)
    ensures var ix := KeptAt(xs, keep);
      forall i :: 0 <= i < |xs| && keep(xs[i]) ==> i in ix
  {
    hide KeepIf;
    if xs != [] {
      var tail := xs[1..];
      KeptAtComplete(tail, keep);
      var rest := KeptAt(tail, keep);
      var pre: seq<nat> := if keep(xs[0]) then [0] else [];
      assert KeptAt(xs, keep) == pre + Shifted(rest);
      forall i | 0 <= i < |xs| && keep(xs[i])
        ensures i in pre + Shifted(rest)
      {
        if i > 0 {
          assert tail[i - 1] == xs[i];
          ShiftedHas(rest, i - 1);
        }
      }
    }
  }

  lemma ShiftedHas(ix: seq<nat>, i: nat)
    requires i in ix
    ensures i + 1 in Shifted(ix)
  {
    var m :| 0 <= m < |ix| && ix[m] == i;
    assert Shifted(ix)[m] == i + 1;
  }

  // ---------------------------------------------------------------- the coin pass

  datatype CoinOutcome = CoinOutcome(coin: Coin, counted: bool)

  /**
   * One coin in the coin loop of `gameLoop`: an uncollected coin moves left
   * and, if the player touches it, becomes collected and is counted; a
   * collected coin stays where it is and is never counted again.
   */
  function CoinStep(p: Player, speed: real, c: Coin): (o: CoinOutcome)
    ensures c.collected ==> o == CoinOutcome(c, false)
    ensures o.counted <==> !c.collected && CheckCoinCollision(p, c.(x := c.x - speed))
    ensures o.coin.collected == (c.collected || o.counted)
  {
    if c.collected then CoinOutcome(c, false)
    else
      var moved := c.(x := c.x - speed);
      if CheckCoinCollision(p, moved) then CoinOutcome(moved.(collected := true), true) else CoinOutcome(moved, false)
  }

  /** Every coin after its step, in order. */
  function AdvancedCoins(p: Player, speed: real, cs: seq<Coin>): (r: seq<Coin>)
    ensures |r| == |cs|
  {
    if cs == [] then [] else [CoinStep(p, speed, cs[0]).coin] + AdvancedCoins(p, speed, cs[1..])
  }

  /** How many coins the pass counts. */
  function NewlyCollected(p: Player, speed: real, cs: seq<Coin>): (n: nat)
    ensures n <= |cs|
  {
    if cs == [] then 0 else (if CoinStep(p, speed, cs[0]).counted then 1 else 0) + NewlyCollected(p, speed, cs[1..])
  }

  /** The coin is kept: its right edge is not left of the canvas. */
  predicate CoinOnScreen(c: Coin) {
    !(c.x + c.width < 0.0)
  }

  /** The coins still on the canvas, in order. */
  function OnScreenCoins(cs: seq<Coin>): seq<Coin> {
    KeepIf(cs, CoinOnScreen)
  }

  /** The coin pass over `cs[i..]` is the step of `cs[i]` followed by the pass over the rest. */
  lemma CoinPassStep(p: Player, speed: real, cs: seq<Coin>, i: nat)
    requires i < |cs|
    ensures var o := CoinStep(p, speed, cs[i]);
      && OnScreenCoins(AdvancedCoins(p, speed, cs[i..]))
         == (if CoinOnScreen(o.coin) then [o.coin] else []) + OnScreenCoins(AdvancedCoins(p, speed, cs[i + 1..]))
      && NewlyCollected(p, speed, cs[i..]) == (if o.counted then 1 else 0) + NewlyCollected(p, speed, cs[i + 1..])
  {
    assert cs[i..][1..] == cs[i + 1..];
    var adv := AdvancedCoins(p, speed, cs[i..]);
    assert adv[0] == CoinStep(p, speed, cs[i]).coin && adv[1..] == AdvancedCoins(p, speed, cs[i + 1..]);
  }

  function Uncollected(cs: seq<Coin>): (n: nat)
    ensures n <= |cs|
  {
    if cs == [] then 0 else (if cs[0].collected then 0 else 1) + Uncollected(cs[1..])
  }

  // ---------------------------------------------------------------- the obstacle pass

  function Moved(speed: real, o: Obstacle): Obstacle {
    o.(x := o.x - speed)
  }

  function AdvancedObstacles(speed: real, os: seq<Obstacle>): (r: seq<Obstacle>)
    ensures |r| == |os|
  {
    if os == [] then [] else [Moved(speed, os[0])] + AdvancedObstacles(speed, os[1..])
  }

  /** The obstacle pass over `os[i..]` is the move of `os[i]` followed by the pass over the rest. */
  lemma ObstaclePassStep(speed: real, os: seq<Obstacle>, i: nat)
    requires i < |os|
    ensures var o := Moved(speed, os[i]);
      OnScreenObstacles(AdvancedObstacles(speed, os[i..]))
        == (if ObstacleOnScreen(o) then [o] else []) + OnScreenObstacles(AdvancedObstacles(speed, os[i + 1..]))
  {
    assert os[i..][1..] == os[i + 1..];
    var adv := AdvancedObstacles(speed, os[i..]);
    assert adv[0] == Moved(speed, os[i]) && adv[1..] == AdvancedObstacles(speed, os[i + 1..]);
  }

  /** The obstacle is kept: its right edge is not left of the canvas. */
  predicate ObstacleOnScreen(o: Obstacle) {
    !(o.x + o.width < 0.0)
  }

  /** The obstacles still on the canvas, in order. */
  function OnScreenObstacles(os: seq<Obstacle>): seq<Obstacle> {
    KeepIf(os, ObstacleOnScreen)
  }

  /** The moved obstacle of `os` at `k` hits the player. */
  predicate HitAt(p: Player, speed: real, os: seq<Obstacle>, k: nat)
    requires k < |os|
  {
    CheckCollision(p, Moved(speed, os[k]))
  }

  /** The highest index below `n` whose moved obstacle hits the player, if any. */
  function HitBelow(p: Player, speed: real, os: seq<Obstacle>, n: nat): (j: Option<nat>)
    requires n <= |os|
    ensures j.Some? ==> j.value < n && HitAt(p, speed, os, j.value)
    ensures j.Some? ==> forall k :: j.value < k < n ==> !HitAt(p, speed, os, k)
    ensures j.None? ==> forall k :: 0 <= k < n ==> !HitAt(p, speed, os, k)
  {
    if n == 0 then None
    else if HitAt(p, speed, os, n - 1) then Some(n - 1)
    else HitBelow(p, speed, os, n - 1)
  }

  /**
   * The obstacle loop runs from the last obstacle back: the first hit it
   * meets is the one with the highest index.
   */
  function LastHit(p: Player, speed: real, os: seq<Obstacle>): (j: Option<nat>)
    ensures j.Some? ==> j.value < |os| && HitAt(p, speed, os, j.value)
    ensures j.Some? ==> forall k :: j.value < k < |os| ==> !HitAt(p, speed, os, k)
    ensures j.None? ==> forall k :: 0 <= k < |os| ==> !HitAt(p, speed, os, k)
  {
    HitBelow(p, speed, os, |os|)
  }

  /** A hit with no hit after it is the one `LastHit` finds. */
  lemma LastHitIsFirstFromTheBack(p: Player, speed: real, os: seq<Obstacle>, j: nat)
    requires j < |os| && HitAt(p, speed, os, j)
    requires forall k :: j < k < |os| ==> !HitAt(p, speed, os, k)
    ensures LastHit(p, speed, os) == Some(j)
  {
    hide HitAt;
  }

  /** With no hit at all, `LastHit` finds none. */
  lemma LastHitNone(p: Player, speed: real, os: seq<Obstacle>)
    requires forall k :: 0 <= k < |os| ==> !HitAt(p, speed, os, k)
    ensures LastHit(p, speed, os) == None
  {
    hide HitAt;
  }

  datatype ObstacleOutcome = ObstacleOutcome(obstacles: seq<Obstacle>, hit: bool)

  /**
   * The obstacle loop of `gameLoop`: each obstacle, from the last back,
   * moves left; the first that hits the player stops the loop where it is
   * (the obstacles before it do not move this frame); one that has left the
   * canvas is dropped.
   */
  function ObstaclesPass(p: Player, speed: real, os: seq<Obstacle>): (r: ObstacleOutcome)
    ensures r.hit <==> exists k :: 0 <= k < |os| && HitAt(p, speed, os, k)
  {
    match LastHit(p, speed, os)
    case None => ObstacleOutcome(OnScreenObstacles(AdvancedObstacles(speed, os)), false)
    case Some(j) => ObstacleOutcome(os[..j] + [Moved(speed, os[j])] + OnScreenObstacles(AdvancedObstacles(speed, os[j + 1..])), true)
  }

  // ---------------------------------------------------------------- a frame

  /** The refs the game loop reads and writes. */
  datatype World = World(
    state: GameState,
    player: Player,
    obstacles: seq<Obstacle>,
    coins: seq<Coin>,
    score: nat,
    coinsCollected: nat,
    gameSpeed: real,
    frameCount: nat,
    animationFrameCount: nat,
    spriteIndex: nat,
    showNameDialog: bool)

  /** The physics step, the sprite counters and the frame counter. */
  function Physics(w: World, c: Canvas): World {
    var anim := Animated(w.animationFrameCount, w.spriteIndex);
    w.(player := Fall(w.player, GroundPlayerY(c, w.player)), animationFrameCount := anim.0, spriteIndex := anim.1,
       frameCount := w.frameCount + 1)
  }

  /** The spawners: an obstacle on every 120th frame, a coin on every 90th. */
  function Spawned(w: World, c: Canvas, lane: nat): World
    requires lane < 3
  {
    w.(obstacles := if w.frameCount % 120 == 0 then ObstaclesAfterSpawn(w.obstacles, c) else w.obstacles,
       coins := if w.frameCount % 90 == 0 then CoinsAfterSpawn(w.coins, c, lane) else w.coins)
  }

  /** The coin pass and the coins it counts. */
  function CoinsMoved(w: World): World {
    w.(coins := OnScreenCoins(AdvancedCoins(w.player, w.gameSpeed, w.coins)),
       coinsCollected := w.coinsCollected + NewlyCollected(w.player, w.gameSpeed, w.coins))
  }

  /**
   * The obstacle pass. A hit ends the game and opens the name dialog; the
   * frame then scores nothing and the speed stays.
   */
  function ObstaclesMoved(w: World): World {
    var pass := ObstaclesPass(w.player, w.gameSpeed, w.obstacles);
    if pass.hit then w.(obstacles := pass.obstacles, state := GameOver, showNameDialog := true)
    else w.(obstacles := pass.obstacles, score := w.score + 1, gameSpeed := w.gameSpeed + SpeedIncrement)
  }

  /**
   * One call of `gameLoop`: nothing without a canvas or outside play;
   * otherwise physics, the spawners, the coin pass, then the obstacle pass,
   * all with the speed the frame started with.
   */
  function Tick(w: World, canvas: Option<Canvas>, lane: nat): World
    requires lane < 3
  {
    if canvas.None? || w.state != Playing then w
    else ObstaclesMoved(CoinsMoved(Spawned(Physics(w, canvas.value), canvas.value, lane)))
  }

  /** The refs `startGame` resets before it runs the first frame. */
  function Started(w: World, c: Canvas): World {
    w.(state := Playing, score := 0, coinsCollected := 0, gameSpeed := InitialSpeed, frameCount := 0,
       obstacles := [], coins := [], animationFrameCount := 0, spriteIndex := 0,
       player := w.player.(x := PlayerStartX, y := GroundPlayerY(c, w.player), velocityY := 0.0, isJumping := false))
  }

  /** The score shown on the canvas, in the header and in the name dialog, and submitted. */
  function FinalScore(w: World): nat {
    Score(w.score, w.coinsCollected)
  }

  // ---------------------------------------------------------------- the component

  class GamePage {
    var canvas: Option<Canvas>
    var state: GameState
    var player: Player
    var obstacles: seq<Obstacle>
    var coins: seq<Coin>
    /** `scoreRef`: the frames survived, not the points. */
    var score: nat
    var coinsCollected: nat
    var gameSpeed: real
    var frameCount: nat
    var animationFrameCount: nat
    var spriteIndex: nat
    var showNameDialog: bool
    var playerName: string
    /** Every score handed to the backend's `submitScore`, in order. */
    var submitted: seq<Submission>

    function Snapshot(): World
      reads this
    {
      World(state, player, obstacles, coins, score, coinsCollected, gameSpeed, frameCount,
            animationFrameCount, spriteIndex, showNameDialog)
    }

    /** The refs' initial values: the menu, the player at the start column, nothing on the field. */
    constructor (c: Option<Canvas>)
      ensures canvas == c && state == Menu && obstacles == [] && coins == []
      ensures player == Player(PlayerStartX, 0.0, PlayerWidth, PlayerHeight, 0.0, false)
      ensures score == 0 && coinsCollected == 0 && gameSpeed == InitialSpeed && frameCount == 0
      ensures animationFrameCount == 0 && spriteIndex == 0
      ensures !showNameDialog && playerName == [] && submitted == []
    {
      canvas := c;
      state := Menu;
      player := Player(PlayerStartX, 0.0, PlayerWidth, PlayerHeight, 0.0, false);
      obstacles := [];
      coins := [];
      score := 0;
      coinsCollected := 0;
      gameSpeed := InitialSpeed;
      frameCount := 0;
      animationFrameCount := 0;
      spriteIndex := 0;
      showNameDialog := false;
      playerName := [];
      submitted := [];
    }

    /** `jump()`. */
    method Jump()
      modifies this`player
      ensures player == Jumped(state, canvas, old(player))
    {
      if state != Playing {
        return;
      }
      if canvas.None? {
        return;
      }
      var groundY := canvas.value.height as real - GroundHeight - player.height + PlayerGroundOffset;
      var dy := player.y - groundY;
      var distance := if dy < 0.0 then -dy else dy;
      if !player.isJumping && distance < 2.0 {
        player := player.(velocityY := JumpStrength, isJumping := true);
      }
    }

    /** `spawnObstacle(canvas)`. */
    method SpawnObstacle(c: Canvas)
      modifies this`obstacles
      ensures obstacles == ObstaclesAfterSpawn(old(obstacles), c)
    {
      if |obstacles| == 0 || obstacles[|obstacles| - 1].x < c.width as real - 400.0 {
        obstacles := obstacles + [Obstacle(c.width as real, c.height as real - GroundHeight - CactusHeight + CactusGroundOffset, CactusWidth, CactusHeight)];
      }
    }

    /** `spawnCoin(canvas)`, the random lane given as `lane`. */
    method SpawnCoin(c: Canvas, lane: nat)
      requires lane < 3
      modifies this`coins
      ensures coins == CoinsAfterSpawn(old(coins), c, lane)
    {
      if |coins| == 0 || coins[|coins| - 1].x < c.width as real - 250.0 {
        var groundY := c.height as real - GroundHeight;
        var yPositions := [groundY - CoinSize - 10.0 * ScaleFactor, groundY - CoinSize - 80.0 * ScaleFactor, groundY - CoinSize - 150.0 * ScaleFactor];
        coins := coins + [Coin(c.width as real, yPositions[lane], CoinSize, CoinSize, false)];
      }
    }

    /** The coin loop of `gameLoop`, from the last coin back, splicing out coins that left the canvas. */
    method UpdateCoins()
      modifies this`coins, this`coinsCollected
      ensures coins == OnScreenCoins(AdvancedCoins(player, gameSpeed, old(coins)))
      ensures coinsCollected == old(coinsCollected) + NewlyCollected(player, gameSpeed, old(coins))
    {
      hide CheckCoinCollision, KeepIf, AdvancedCoins, NewlyCollected;
      ghost var cs := coins;
      var i := |coins|;
      assert cs[i..] == [];
      while i > 0
        invariant 0 <= i <= |cs|
        invariant coins == cs[..i] + OnScreenCoins(AdvancedCoins(player, gameSpeed, cs[i..]))
        invariant coinsCollected == old(coinsCollected) + NewlyCollected(player, gameSpeed, cs[i..])
      {
        i := i - 1;
        CoinPassStep(player, gameSpeed, cs, i);
        ghost var rest := OnScreenCoins(AdvancedCoins(player, gameSpeed, cs[i + 1..]));
        assert coins == cs[..i] + [cs[i]] + rest by {
          assert cs[..i + 1] == cs[..i] + [cs[i]];
        }
        var coin := coins[i];
        if !coin.collected {
          coin := coin.(x := coin.x - gameSpeed);
          if CheckCoinCollision(player, coin) {
            coin := coin.(collected := true);
            coinsCollected := coinsCollected + 1;
          }
          coins := coins[i := coin];
        }
        assert coin == CoinStep(player, gameSpeed, cs[i]).coin;
        assert coins == cs[..i] + [coin] + rest;
        if coin.x + coin.width < 0.0 {
          coins := coins[..i] + coins[i + 1..];
          assert coins == cs[..i] + rest;
        }
      }
      assert cs[0..] == cs;
    }

    /**
     * The obstacle loop of `gameLoop`, from the last obstacle back; it
     * stops at the first hit and reports it.
     */
    method UpdateObstacles() returns (hit: bool)
      modifies this`obstacles
      ensures ObstacleOutcome(obstacles, hit) == ObstaclesPass(player, gameSpeed, old(obstacles))
    {
      hide CheckCollision, KeepIf, AdvancedObstacles;
      ghost var os := obstacles;
      var i := |obstacles|;
      assert os[i..] == [];
      while i > 0
        invariant 0 <= i <= |os|
        invariant obstacles == os[..i] + OnScreenObstacles(AdvancedObstacles(gameSpeed, os[i..]))
        invariant forall k :: i <= k < |os| ==> !HitAt(player, gameSpeed, os, k)
      {
        i := i - 1;
        ObstaclePassStep(gameSpeed, os, i);
        ghost var rest := OnScreenObstacles(AdvancedObstacles(gameSpeed, os[i + 1..]));
        assert obstacles == os[..i] + [os[i]] + rest by {
          assert os[..i + 1] == os[..i] + [os[i]];
        }
        var obstacle := obstacles[i];
        obstacle := obstacle.(x := obstacle.x - gameSpeed);
        obstacles := obstacles[i := obstacle];
        assert obstacles == os[..i] + [obstacle] + rest;
        if CheckCollision(player, obstacle) {
          assert HitAt(player, gameSpeed, os, i);
          LastHitIsFirstFromTheBack(player, gameSpeed, os, i);
          return true;
        }
        if obstacle.x + obstacle.width < 0.0 {
          obstacles := obstacles[..i] + obstacles[i + 1..];
          assert obstacles == os[..i] + rest;
        }
      }
      assert os[0..] == os;
      LastHitNone(player, gameSpeed, os);
      return false;
    }

    /** The physics section of `gameLoop`: gravity, the move, the clamp to the ground line. */
    method ApplyGravity(c: Canvas)
      modifies this`player
      ensures player == Fall(old(player), GroundPlayerY(c, old(player)))
    {
      var groundPlayerY := c.height as real - GroundHeight - player.height + PlayerGroundOffset;
      player := player.(velocityY := player.velocityY + Gravity);
      player := player.(y := player.y + player.velocityY);
      if player.y >= groundPlayerY {
        player := player.(y := groundPlayerY, velocityY := 0.0, isJumping := false);
      }
    }

    /** The sprite section of `gameLoop`. */
    method AdvanceSprite()
      modifies this`animationFrameCount, this`spriteIndex
      ensures (animationFrameCount, spriteIndex) == Animated(old(animationFrameCount), old(spriteIndex))
    {
      animationFrameCount := animationFrameCount + 1;
      if animationFrameCount >= AnimationFrameDuration {
        animationFrameCount := 0;
        spriteIndex := (spriteIndex + 1) % 2;
      }
    }

    /**
     * The first half of `gameLoop`: physics, sprite counters, the frame
     * counter and the spawners.
     */
    method AdvanceFrame(c: Canvas, lane: nat)
      requires lane < 3
      modifies this`player, this`animationFrameCount, this`spriteIndex, this`frameCount, this`obstacles, this`coins
      ensures Snapshot() == Spawned(Physics(old(Snapshot()), c), c, lane)
    {
      hide ObstaclesAfterSpawn, CoinsAfterSpawn;
      ghost var w0 := Snapshot();
      ApplyGravity(c);
      AdvanceSprite();
      frameCount := frameCount + 1;
      ghost var w1 := Snapshot();
      assert w1 == Physics(w0, c);
      if frameCount % 120 == 0 {
        SpawnObstacle(c);
      }
      if frameCount % 90 == 0 {
        SpawnCoin(c, lane);
      }
    }

    /** `gameLoop()`, the coin lane drawn for a spawn given as `lane`. */
    method GameLoop(lane: nat)
      requires lane < 3
      modifies this
      ensures Snapshot() == Tick(old(Snapshot()), canvas, lane)
      ensures canvas == old(canvas) && playerName == old(playerName) && submitted == old(submitted)
    {
      // The passes' own definitions play no part here: only their names are composed.
      hide ObstaclesPass, LastHit, HitBelow, HitAt, KeepIf, AdvancedObstacles, AdvancedCoins, NewlyCollected, CoinStep;
      hide CheckCollision, CheckCoinCollision, ObstaclesAfterSpawn, CoinsAfterSpawn, Physics, Spawned;
      if canvas.None? || state != Playing {
        return;
      }
      var c := canvas.value;
      AdvanceFrame(c, lane);
      ghost var w2 := Snapshot();
      UpdateCoins();
      ghost var w3 := Snapshot();
      assert w3 == CoinsMoved(w2);
      var hit := UpdateObstacles();
      if hit {
        state := GameOver;
        showNameDialog := true;
      } else {
        score := score + 1;
        gameSpeed := gameSpeed + SpeedIncrement;
      }
    }

    /** The resets at the head of `startGame`: a fresh run with the player standing on the ground. */
    method ResetRun(c: Canvas)
      modifies this`state, this`score, this`coinsCollected, this`gameSpeed, this`frameCount
      modifies this`obstacles, this`coins, this`animationFrameCount, this`spriteIndex, this`player
      ensures Snapshot() == Started(old(Snapshot()), c)
    {
      state := Playing;
      score := 0;
      coinsCollected := 0;
      gameSpeed := InitialSpeed;
      frameCount := 0;
      obstacles := [];
      coins := [];
      animationFrameCount := 0;
      spriteIndex := 0;
      player := player.(x := PlayerStartX, y := c.height as real - GroundHeight - player.height + PlayerGroundOffset,
                        velocityY := 0.0, isJumping := false);
    }

    /** `startGame()`: nothing without a canvas; otherwise the resets, then the first frame. */
    method StartGame(lane: nat)
      requires lane < 3
      modifies this
      ensures canvas.None? ==> Snapshot() == old(Snapshot())
      ensures canvas.Some? ==> Snapshot() == Tick(Started(old(Snapshot()), canvas.value), canvas, lane)
      ensures canvas == old(canvas) && playerName == old(playerName) && submitted == old(submitted)
    {
      hide Tick, Started;
      if canvas.None? {
        return;
      }
      ResetRun(canvas.value);
      GameLoop(lane);
    }

    /** `handleSubmitScore()`: a name that is not blank is submitted trimmed, with the final score. */
    method HandleSubmitScore()
      modifies this`submitted, this`showNameDialog, this`playerName
      ensures Trim(old(playerName)) != [] ==>
        && submitted == old(submitted) + [Submission(Trim(old(playerName)), Score(score, coinsCollected))]
        && !showNameDialog && playerName == []
      ensures Trim(old(playerName)) == [] ==>
        submitted == old(submitted) && showNameDialog == old(showNameDialog) && playerName == old(playerName)
    {
      var trimmed := TrimEnd(TrimStart(playerName));
      if trimmed != [] {
        var finalScore := score / 10 + coinsCollected * 10;
        submitted := submitted + [Submission(trimmed, finalScore)];
        showNameDialog := false;
        playerName := [];
      }
    }

    /** The canvas's click and touch handlers: a jump while the game is on. */
    method OnTap()
      modifies this`player
      ensures player == Jumped(state, canvas, old(player))
      ensures state != Playing ==> player == old(player)
    {
      if state == Playing {
        Jump();
      }
    }

    /** The space-bar handler: in the menu it starts the game, otherwise it jumps. */
    method OnSpaceKey(lane: nat)
      requires lane < 3
      modifies this
      ensures old(state) == Menu && canvas.None? ==> Snapshot() == old(Snapshot())
      ensures old(state) == Menu && canvas.Some? ==> Snapshot() == Tick(Started(old(Snapshot()), canvas.value), canvas, lane)
      ensures old(state) != Menu ==> Snapshot() == old(Snapshot()).(player := Jumped(old(state), canvas, old(player)))
      ensures canvas == old(canvas) && playerName == old(playerName) && submitted == old(submitted)
    {
      if state == Menu {
        StartGame(lane);
      } else {
        Jump();
      }
    }
  }

  // ---------------------------------------------------------------- what a frame promises

  /** A frame never leaves the player below the ground line; landing stops the fall and ends the jump. */
  lemma TickKeepsPlayerAboveGround(w: World, c: Canvas, lane: nat)
    requires lane < 3 && w.state == Playing
    ensures var p := Tick(w, Some(c), lane).player;
      && p.y <= GroundPlayerY(c, w.player)
      && (p.y == GroundPlayerY(c, w.player) ==> p.velocityY == 0.0 && !p.isJumping)
      && p.height == w.player.height
  {
  }

  /** A take-off from the ground is followed by a rise of 11.4 in the next frame, still in the air. */
  lemma {:induction false} JumpThenRise(w: World, c: Canvas, lane: nat)
    requires lane < 3 && CanJump(w.state, Some(c), w.player)
    ensures var p := Tick(w.(player := Jumped(w.state, Some(c), w.player)), Some(c), lane).player;
      p.y == w.player.y - 11.4 && p.velocityY == -11.4 && p.isJumping
  {
    var q := Jumped(w.state, Some(c), w.player);
    var g := GroundPlayerY(c, w.player);
    assert q.y + q.velocityY + Gravity < g;
    assert Fall(q, GroundPlayerY(c, q)).y == w.player.y - 11.4;
  }

  /** A frame never lowers the score: the frame and coin counters only grow. */
  lemma TickScoreGrows(w: World, canvas: Option<Canvas>, lane: nat)
    requires lane < 3
    ensures var w' := Tick(w, canvas, lane);
      && w.score <= w'.score <= w.score + 1
      && w.coinsCollected <= w'.coinsCollected
      && FinalScore(w) <= FinalScore(w')
  {
    var w' := Tick(w, canvas, lane);
    ScoreMonotone(w.score, w.coinsCollected, w'.score, w'.coinsCollected);
  }

  /**
   * The coin pass counts each coin at most once: the coins it counts plus
   * the uncollected coins it keeps are at most the uncollected coins it
   * started with.
   */
  lemma {:induction false} CoinsCountedOnce(p: Player, speed: real, cs: seq<Coin>)
    ensures NewlyCollected(p, speed, cs) + Uncollected(OnScreenCoins(AdvancedCoins(p, speed, cs))) <= Uncollected(cs)
  {
    hide CheckCoinCollision;
    if cs != [] {
      CoinsCountedOnce(p, speed, cs[1..]);
      CoinPassStep(p, speed, cs, 0);
      assert cs[0..] == cs && cs[1..] == cs[0 + 1..];
      var o := CoinStep(p, speed, cs[0]);
      var head := if CoinOnScreen(o.coin) then [o.coin] else [];
      UncollectedAppend(head, OnScreenCoins(AdvancedCoins(p, speed, cs[1..])));
    }
  }

  /** Spawning adds at most one uncollected coin. */
  lemma SpawnAddsOneCoin(cs: seq<Coin>, c: Canvas, lane: nat)
    requires lane < 3
    ensures Uncollected(CoinsAfterSpawn(cs, c, lane)) <= Uncollected(cs) + 1
  {
    if RoomAfter(LastCoinX(cs), c, CoinGap) {
      UncollectedAppend(cs, [NewCoin(c, lane)]);
    }
  }

  lemma {:induction false} UncollectedAppend(xs: seq<Coin>, ys: seq<Coin>)
    ensures Uncollected(xs + ys) == Uncollected(xs) + Uncollected(ys)
  {
    if xs == [] {
      assert xs + ys == ys;
    } else {
      assert (xs + ys)[1..] == xs[1..] + ys;
      UncollectedAppend(xs[1..], ys);
    }
  }

  /**
   * Over a frame, the coin counter plus the uncollected coins on the field
   * grows by at most the one coin a spawn can add: a coin is counted once,
   * when it is collected, and never again.
   */
  lemma TickCountsCoinsOnce(w: World, canvas: Option<Canvas>, lane: nat)
    requires lane < 3
    ensures var w' := Tick(w, canvas, lane);
      w'.coinsCollected + Uncollected(w'.coins) <= w.coinsCollected + Uncollected(w.coins) + 1
  {
    if canvas.Some? && w.state == Playing {
      var c := canvas.value;
      var w1 := Physics(w, c);
      var w2 := Spawned(w1, c, lane);
      var w3 := CoinsMoved(w2);
      assert w1.coins == w.coins && w1.coinsCollected == w.coinsCollected;
      SpawnedCoins(w1, c, lane);
      CoinsMovedCounts(w2);
      assert Tick(w, canvas, lane).coins == w3.coins && Tick(w, canvas, lane).coinsCollected == w3.coinsCollected;
    }
  }

  /** The spawners add at most one uncollected coin and count none. */
  lemma SpawnedCoins(w: World, c: Canvas, lane: nat)
    requires lane < 3
    ensures var w' := Spawned(w, c, lane);
      w'.coinsCollected == w.coinsCollected && Uncollected(w'.coins) <= Uncollected(w.coins) + 1
  {
    SpawnAddsOneCoin(w.coins, c, lane);
  }

  /** The coin pass moves coins from uncollected to counted, never counting one twice. */
  lemma CoinsMovedCounts(w: World)
    ensures var w' := CoinsMoved(w);
      w'.coinsCollected + Uncollected(w'.coins) <= w.coinsCollected + Uncollected(w.coins)
  {
    CoinsCountedOnce(w.player, w.gameSpeed, w.coins);
  }

  /**
   * A frame ends the game exactly when a moved obstacle hits the fallen
   * player; the game-over frame scores nothing and opens the name dialog,
   * and frames after game over change nothing.
   */
  lemma TickEndsGameOnHit(w: World, c: Canvas, lane: nat)
    requires lane < 3 && w.state == Playing
    ensures var w' := Tick(w, Some(c), lane);
      var p := Fall(w.player, GroundPlayerY(c, w.player));
      var os := if (w.frameCount + 1) % 120 == 0 then ObstaclesAfterSpawn(w.obstacles, c) else w.obstacles;
      && (w'.state == GameOver <==> exists k :: 0 <= k < |os| && HitAt(p, w.gameSpeed, os, k))
      && (w'.state == GameOver ==> w'.score == w.score && w'.showNameDialog && Tick(w', Some(c), lane) == w')
      && (w'.state == Playing ==> w'.score == w.score + 1)
  {
    hide CheckCollision, CheckCoinCollision;
  }

  /**
   * `startGame` begins a fresh run: after its first frame the game is on,
   * one frame is scored, no coin is counted, nothing has spawned yet and
   * the player stands on the ground at the start column, at rest.
   */
  lemma {:induction false} StartThenFirstFrame(w: World, c: Canvas, lane: nat)
    requires lane < 3
    ensures var w' := Tick(Started(w, c), Some(c), lane);
      && w'.state == Playing && w'.score == 1 && w'.coinsCollected == 0 && FinalScore(w') == 0
      && w'.obstacles == [] && w'.coins == [] && w'.frameCount == 1
      && w'.gameSpeed == InitialSpeed + SpeedIncrement
      && w'.player.x == PlayerStartX && w'.player.y == GroundPlayerY(c, w.player)
      && w'.player.velocityY == 0.0 && !w'.player.isJumping
  {
    var s := Started(w, c);
    assert s.player.y + s.player.velocityY + Gravity >= GroundPlayerY(c, s.player);
    assert 1 % 120 != 0 && 1 % 90 != 0;
    assert LastHit(Fall(s.player, GroundPlayerY(c, s.player)), s.gameSpeed, []) == None;
  }

  /** A score is submitted only under a name with something other than white space. */
  lemma SubmittedNameNotBlank(name: string)
    ensures Trim(name) != [] <==> !AllSpace(name)
  {
    TrimEmptyIffSpace(name);
  }
}
