/**
 * The match as a value: the two ships, their projectile slots and the
 * game-over flag, with one function per phase of a frame and the result
 * decision. The imperative methods in module Game are proved to compute
 * exactly these functions; the lemmas here state what the phases promise.
 */
module Duel {
  import opened Board
  import opened Shots

  /**
   * One player's keys in a frame: the four movement keys as held
   * (IsKeyDown) and the fire key as newly pressed (IsKeyPressed).
   */
  datatype Keys = Keys(up: bool, down: bool, left: bool, right: bool, fire: bool)

  /** A ship's fields (struct Ship), its projectile array as a sequence. */
  datatype ShipState = ShipState(x: int, y: int, hp: int, vx: int, vy: int, shots: seq<Projectile>)

  /** Ship A (players[0]), ship B (players[1]) and the gameOver flag. */
  datatype World = World(a: ShipState, b: ShipState, over: bool)

  /** What the end-of-match banner announces. */
  datatype Verdict = Tie | Winner(index: nat)

  // ------------------------------------------------------------------
  //  Initial state
  // ------------------------------------------------------------------

  /** A ship as InitShip leaves it. */
  function StartingShip(x: int, y: int): ShipState {
    ShipState(x, y, START_HP, 0, 0, seq(MAX_PROJECTILES, _ => IDLE))
  }

  /** The match as InitGame leaves it. */
  function Initial(): World {
    World(StartingShip(2, 2), StartingShip(MAP_WIDTH - 2, MAP_HEIGHT - 2), false)
  }

  // ------------------------------------------------------------------
  //  The invariant of a running or finished match
  // ------------------------------------------------------------------

  ghost predicate ShipOk(s: ShipState) {
    |s.shots| == MAX_PROJECTILES
    && !Blocked(s.x, s.y)
    && s.hp <= START_HP
    && forall k :: 0 <= k < |s.shots| && s.shots[k].active ==> !Blocked(s.shots[k].x, s.shots[k].y)
  }

  /**
   * Ships and active projectiles sit on open cells, health never exceeds
   * its start, and the match is over exactly when some ship is at 0 or below.
   */
  ghost predicate Inv(w: World) {
    ShipOk(w.a) && ShipOk(w.b) && (w.over <==> w.a.hp <= 0 || w.b.hp <= 0)
  }

  lemma InitialInv()
    ensures Inv(Initial()) && !Initial().over
    ensures Initial().a.x == 2 && Initial().a.y == 2
    ensures Initial().b.x == 18 && Initial().b.y == 8
    ensures ActiveCount(Initial().a.shots) == 0 && ActiveCount(Initial().b.shots) == 0
  {
    ActiveCountExtremes(Initial().a.shots);
    ActiveCountExtremes(Initial().b.shots);
  }

  // ------------------------------------------------------------------
  //  Phase 1: input
  // ------------------------------------------------------------------

  /**
   * One velocity component from its two opposing keys, given as (checked
   * first, checked second): the key checked second wins when both are held.
   */
  function Velocity(neg: bool, pos: bool): (v: int)
    ensures v == -MAX_SPEED || v == 0 || v == MAX_SPEED
    ensures v == MAX_SPEED <==> pos
    ensures v == -MAX_SPEED <==> neg && !pos
    ensures v == 0 <==> !neg && !pos
  {
    if pos then MAX_SPEED else if neg then -MAX_SPEED else 0
  }

  /** A ship after its keys are read: velocity reset and set, then maybe a shot. */
  function Steered(s: ShipState, k: Keys): ShipState {
    var vx := Velocity(k.left, k.right);
    var vy := Velocity(k.up, k.down);
    s.(vx := vx, vy := vy,
       shots := if k.fire then Launch(s.shots, s.x, s.y, vx, vy) else s.shots)
  }

  function AfterInput(w: World, ka: Keys, kb: Keys): World {
    w.(a := Steered(w.a, ka), b := Steered(w.b, kb))
  }

  // ------------------------------------------------------------------
  //  Phase 2: ship movement
  // ------------------------------------------------------------------

  /** A ship after its move attempt: blocked costs a point, otherwise it moves. */
  function Moved(s: ShipState): ShipState {
    if Blocked(s.x + s.vx, s.y + s.vy) then s.(hp := s.hp - 1)
    else s.(x := s.x + s.vx, y := s.y + s.vy)
  }

  /** The move attempt is blocked and the lost point leaves the ship at 0 or below. */
  predicate Sinks(s: ShipState) {
    Blocked(s.x + s.vx, s.y + s.vy) && s.hp - 1 <= 0
  }

  function AfterShips(w: World): World {
    World(Moved(w.a), Moved(w.b), w.over || Sinks(w.a) || Sinks(w.b))
  }

  /**
   * A blocked move leaves the ship in place one point down; any other move
   * reaches the target with health unchanged. So an open cell leads to an
   * open cell.
   */
  lemma MovedOutcome(s: ShipState)
    ensures var r := Moved(s);
      (Blocked(s.x + s.vx, s.y + s.vy) && r.x == s.x && r.y == s.y && r.hp == s.hp - 1)
      || (!Blocked(s.x + s.vx, s.y + s.vy) && r.x == s.x + s.vx && r.y == s.y + s.vy && r.hp == s.hp)
    ensures Moved(s).shots == s.shots && Moved(s).vx == s.vx && Moved(s).vy == s.vy
    ensures !Blocked(s.x, s.y) ==> !Blocked(Moved(s).x, Moved(s).y)
  {
  }

  /**
   * Worked cases: an open target cell is entered with health kept, a wall
   * costs a point in place, and a still ship fires straight up.
   */
  lemma MoveScenarios()
    ensures Moved(ShipState(2, 2, 3, 1, 0, [])) == ShipState(3, 2, 3, 1, 0, [])
    ensures Moved(ShipState(1, 1, 3, -1, 0, [])) == ShipState(1, 1, 2, -1, 0, [])
    ensures Launch([IDLE], 4, 4, 0, 0) == [Projectile(4, 4, 0, -1, true)]
  {
  }

  // ------------------------------------------------------------------
  //  Phase 3: projectile flight
  // ------------------------------------------------------------------

  function AfterProjectiles(w: World): World {
    w.(a := w.a.(shots := AdvanceAll(w.a.shots)), b := w.b.(shots := AdvanceAll(w.b.shots)))
  }

  // ------------------------------------------------------------------
  //  Phase 4: hit resolution
  // ------------------------------------------------------------------

  function AfterHits(w: World): World {
    if w.a.hp <= 0 && w.b.hp <= 0 then w.(over := true)
    else
      var onB := Resolve(w.a.shots, 0, w.b.x, w.b.y, w.b.hp);
      var a1 := w.a.(shots := onB.shots);
      var b1 := w.b.(hp := onB.hp);
      if onB.sunk then World(a1, b1, true)
      else
        var onA := Resolve(w.b.shots, 0, w.a.x, w.a.y, w.a.hp);
        World(a1.(hp := onA.hp), b1.(shots := onA.shots), w.over || onA.sunk)
  }

  /** When both ships are already down, hit resolution only ends the match. */
  lemma HitsBothDown(w: World)
    requires w.a.hp <= 0 && w.b.hp <= 0
    ensures AfterHits(w) == w.(over := true)
  {
  }

  /**
   * Every point a ship loses in hit resolution pairs with one active
   * projectile of the other ship, on the loser's cell, being switched off;
   * nothing but health, projectile activity and the flag changes.
   */
  lemma HitsPairing(w: World)
    ensures var r := AfterHits(w);
      w.b.hp - r.b.hp == ActiveCount(w.a.shots) - ActiveCount(r.a.shots)
      && w.a.hp - r.a.hp == ActiveCount(w.b.shots) - ActiveCount(r.b.shots)
    ensures var r := AfterHits(w);
      |r.a.shots| == |w.a.shots|
      && (forall k :: 0 <= k < |w.a.shots| ==>
            r.a.shots[k] == w.a.shots[k]
            || (Strikes(w.a.shots[k], w.b.x, w.b.y) && r.a.shots[k] == w.a.shots[k].(active := false)))
    ensures var r := AfterHits(w);
      |r.b.shots| == |w.b.shots|
      && (forall k :: 0 <= k < |w.b.shots| ==>
            r.b.shots[k] == w.b.shots[k]
            || (Strikes(w.b.shots[k], w.a.x, w.a.y) && r.b.shots[k] == w.b.shots[k].(active := false)))
    ensures var r := AfterHits(w);
      r.a.(hp := w.a.hp, shots := w.a.shots) == w.a && r.b.(hp := w.b.hp, shots := w.b.shots) == w.b
  {
    if !(w.a.hp <= 0 && w.b.hp <= 0) {
      var onB := Resolve(w.a.shots, 0, w.b.x, w.b.y, w.b.hp);
      ResolvePairs(w.a.shots, 0, w.b.x, w.b.y, w.b.hp);
      ResolveCount(w.a.shots, 0, w.b.x, w.b.y, w.b.hp);
      if !onB.sunk {
        var onA := Resolve(w.b.shots, 0, w.a.x, w.a.y, w.a.hp);
        ResolvePairs(w.b.shots, 0, w.a.x, w.a.y, w.a.hp);
        ResolveCount(w.b.shots, 0, w.a.x, w.a.y, w.a.hp);
      }
    }
  }

  /**
   * Resolution stops at the first hit that sinks a ship: if B goes down,
   * B's projectiles are not looked at and A keeps its health. A sunk ship
   * ends at exactly 0 when it entered with health left, and one point below
   * its entry health when it was already down (after a collision earlier in
   * the same frame).
   */
  lemma HitsShortCircuit(w: World)
    requires !(w.a.hp <= 0 && w.b.hp <= 0)
    ensures var r := AfterHits(w);
      r.b.hp < w.b.hp && r.b.hp <= 0 ==>
        r.b.hp == (if w.b.hp > 0 then 0 else w.b.hp - 1) && r.over
        && r.a.hp == w.a.hp && r.b.shots == w.b.shots
    ensures var r := AfterHits(w);
      r.a.hp < w.a.hp && r.a.hp <= 0 ==>
        r.a.hp == (if w.a.hp > 0 then 0 else w.a.hp - 1) && r.over
  {
    var onB := Resolve(w.a.shots, 0, w.b.x, w.b.y, w.b.hp);
    ResolveStops(w.a.shots, 0, w.b.x, w.b.y, w.b.hp);
    if !onB.sunk {
      var onA := Resolve(w.b.shots, 0, w.a.x, w.a.y, w.a.hp);
      ResolveStops(w.b.shots, 0, w.a.x, w.a.y, w.a.hp);
    }
  }

  // ------------------------------------------------------------------
  //  The frame
  // ------------------------------------------------------------------

  /** One pass of the main loop: the four phases run only while the match is on. */
  function AfterFrame(w: World, ka: Keys, kb: Keys): World {
    if w.over then w
    else AfterHits(AfterProjectiles(AfterShips(AfterInput(w, ka, kb))))
  }

  /**
   * Worked case: the phases after the one that sets the flag still run in
   * the same frame. Ship A steers into the left wall with one point left
   * while its projectile flies onto ship B, which also has one point left,
   * so the frame ends with both ships at 0 and the banner shows a tie.
   */
  lemma CollisionAndHitTie()
    ensures var shotA := Projectile(5, 4, 0, 1, true);
      var w := World(ShipState(1, 1, 1, 0, 0, [shotA, IDLE, IDLE, IDLE, IDLE]),
                     ShipState(5, 5, 1, 0, 0, [IDLE, IDLE, IDLE, IDLE, IDLE]), false);
      var r := AfterFrame(w, Keys(false, false, true, false, false), Keys(false, false, false, false, false));
      r.a.hp == 0 && r.b.hp == 0 && r.over && Decide(r.a.hp, r.b.hp) == Tie
  {
  }

  /** Health never goes up and the game-over flag is never cleared, phase by phase. */
  lemma PhasesMonotone(w: World, ka: Keys, kb: Keys)
    ensures Monotone(w, AfterInput(w, ka, kb))
    ensures Monotone(w, AfterShips(w))
    ensures Monotone(w, AfterProjectiles(w))
    ensures Monotone(w, AfterHits(w))
  {
    if !(w.a.hp <= 0 && w.b.hp <= 0) {
      var onB := Resolve(w.a.shots, 0, w.b.x, w.b.y, w.b.hp);
      ResolveStops(w.a.shots, 0, w.b.x, w.b.y, w.b.hp);
      if !onB.sunk {
        var onA := Resolve(w.b.shots, 0, w.a.x, w.a.y, w.a.hp);
        ResolveStops(w.b.shots, 0, w.a.x, w.a.y, w.a.hp);
      }
    }
  }

  predicate Monotone(w: World, w': World) {
    w'.a.hp <= w.a.hp && w'.b.hp <= w.b.hp && (w.over ==> w'.over)
  }

  lemma FrameMonotone(w: World, ka: Keys, kb: Keys)
    ensures Monotone(w, AfterFrame(w, ka, kb))
    ensures w.over ==> AfterFrame(w, ka, kb) == w
  {
    if !w.over {
      var w1 := AfterInput(w, ka, kb);
      var w2 := AfterShips(w1);
      var w3 := AfterProjectiles(w2);
      PhasesMonotone(w, ka, kb);
      PhasesMonotone(w1, ka, kb);
      PhasesMonotone(w2, ka, kb);
      PhasesMonotone(w3, ka, kb);
    }
  }

  // ------------------------------------------------------------------
  //  Each phase keeps the invariant
  // ------------------------------------------------------------------

  lemma SteeredOk(s: ShipState, k: Keys)
    requires ShipOk(s)
    ensures ShipOk(Steered(s, k))
  {
    if k.fire {
      LaunchPlacement(s.shots, s.x, s.y, Velocity(k.left, k.right), Velocity(k.up, k.down));
    }
  }

  lemma InputKeepsInv(w: World, ka: Keys, kb: Keys)
    requires Inv(w)
    ensures Inv(AfterInput(w, ka, kb))
  {
    SteeredOk(w.a, ka);
    SteeredOk(w.b, kb);
  }

  lemma ShipsKeepInv(w: World)
    requires Inv(w)
    ensures Inv(AfterShips(w))
  {
    MovedOutcome(w.a);
    MovedOutcome(w.b);
  }

  lemma ProjectilesKeepInv(w: World)
    requires Inv(w)
    ensures Inv(AfterProjectiles(w))
  {
    AdvanceAllKeepsOpen(w.a.shots);
    AdvanceAllKeepsOpen(w.b.shots);
  }

  lemma HitsKeepInv(w: World)
    requires Inv(w)
    ensures Inv(AfterHits(w))
  {
    HitsPairing(w);
    var r := AfterHits(w);
    if !(w.a.hp <= 0 && w.b.hp <= 0) {
      var onB := Resolve(w.a.shots, 0, w.b.x, w.b.y, w.b.hp);
      ResolveStops(w.a.shots, 0, w.b.x, w.b.y, w.b.hp);
      if !onB.sunk {
        var onA := Resolve(w.b.shots, 0, w.a.x, w.a.y, w.a.hp);
        ResolveStops(w.b.shots, 0, w.a.x, w.a.y, w.a.hp);
      }
    }
    assert forall k :: 0 <= k < |r.a.shots| && r.a.shots[k].active ==> r.a.shots[k] == w.a.shots[k];
    assert forall k :: 0 <= k < |r.b.shots| && r.b.shots[k].active ==> r.b.shots[k] == w.b.shots[k];
  }

  /** Every frame keeps ships and active projectiles on open cells and the flag honest. */
  lemma FrameKeepsInv(w: World, ka: Keys, kb: Keys)
    requires Inv(w)
    ensures Inv(AfterFrame(w, ka, kb))
  {
    if !w.over {
      var w1 := AfterInput(w, ka, kb);
      var w2 := AfterShips(w1);
      var w3 := AfterProjectiles(w2);
      InputKeepsInv(w, ka, kb);
      ShipsKeepInv(w1);
      ProjectilesKeepInv(w2);
      HitsKeepInv(w3);
    }
  }

  /**
   * In any valid match at most MAX_PROJECTILES projectiles of a ship are in
   * flight. This follows from the fixed slot array alone.
   */
  lemma ActiveBound(w: World)
    requires Inv(w)
    ensures ActiveCount(w.a.shots) <= MAX_PROJECTILES && ActiveCount(w.b.shots) <= MAX_PROJECTILES
  {
  }

  // ------------------------------------------------------------------
  //  The result
  // ------------------------------------------------------------------

  /** The banner shown once the match is over, from the two health values. */
  function Decide(hpA: int, hpB: int): (v: Verdict)
    ensures v.Winner? ==> v.index < MAX_PLAYERS
  {
    if hpA <= 0 && hpB <= 0 then Tie
    else Winner(if hpB > hpA then 1 else 0)
  }

  /**
   * In a finished match the verdict is a tie exactly when both ships are
   * down; otherwise the named winner is the ship still afloat and the other
   * is down.
   */
  lemma WinnerSurvives(w: World)
    requires Inv(w) && w.over
    ensures Decide(w.a.hp, w.b.hp) == Tie <==> w.a.hp <= 0 && w.b.hp <= 0
    ensures Decide(w.a.hp, w.b.hp) == Winner(0) <==> w.a.hp > 0 && w.b.hp <= 0
    ensures Decide(w.a.hp, w.b.hp) == Winner(1) <==> w.b.hp > 0 && w.a.hp <= 0
  {
  }
}
