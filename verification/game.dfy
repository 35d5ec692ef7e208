/**
 * The game state as the C program keeps it: a map array written once,
 * two ships whose fields are updated in place, each with a fixed array of
 * projectile slots, and the gameOver flag. Every phase is a method whose
 * postcondition equates the new state with the matching Duel function of
 * the old one.
 */
module Game {
  import opened Board
  import opened Shots
  import opened Duel

  /** struct Ship: position, health, this frame's velocity and its projectile slots. */
  class Ship {
    var x: int
    var y: int
    var hp: int
    var vx: int
    var vy: int
    const shots: array<Projectile>

    function Value(): ShipState
      reads this, shots
    {
      ShipState(x, y, hp, vx, vy, shots[..])
    }

    /** InitShip: the ship at its start cell with full health, still, every slot cleared. */
    constructor InitShip(startX: int, startY: int)
      ensures Value() == StartingShip(startX, startY)
      ensures fresh(shots)
    {
      x, y := startX, startY;
      hp := START_HP;
      vx, vy := 0, 0;
      shots := new Projectile[MAX_PROJECTILES];
      new;
      for i := 0 to MAX_PROJECTILES
        invariant forall k :: 0 <= k < i ==> shots[k] == IDLE
        modifies shots
      {
        InitProjectile(i);
      }
      assert shots[..] == seq(MAX_PROJECTILES, _ => IDLE);
    }

    /** InitProjectile on slot i: clears that slot and no other. */
    method InitProjectile(i: nat)
      requires i < shots.Length
      modifies shots
      ensures shots[..] == old(shots[..])[i := IDLE]
    {
      shots[i] := IDLE;
    }

    /**
     * One player's share of HandleInput: velocity reset to 0, then each held
     * key overrides the opposing one checked before it (S over W, D over A),
     * then a fire press launches a projectile.
     */
    method Steer(k: Keys)
      modifies this, shots
      ensures Value() == Steered(old(Value()), k)
    {
      vx, vy := 0, 0;
      if k.up { vy := -MAX_SPEED; }
      if k.down { vy := MAX_SPEED; }
      if k.left { vx := -MAX_SPEED; }
      if k.right { vx := MAX_SPEED; }
      if k.fire { Fire(); }
    }

    /**
     * One ship's step of UpdateShips: a target cell off the map, on a wall
     * or on an obstacle costs one point and the ship stays (`collided`);
     * otherwise the ship moves there.
     */
    method Move(grid: array2<char>) returns (collided: bool)
      requires grid.Length0 == MAP_HEIGHT && grid.Length1 == MAP_WIDTH
      requires forall r, c :: 0 <= r < MAP_HEIGHT && 0 <= c < MAP_WIDTH ==> grid[r, c] == MapCell(r, c)
      modifies this`x, this`y, this`hp
      ensures collided == Blocked(old(x) + vx, old(y) + vy)
      ensures Value() == Moved(old(Value()))
    {
      var nx := x + vx;
      var ny := y + vy;
      collided := nx < 0 || nx >= MAP_WIDTH || ny < 0 || ny >= MAP_HEIGHT
        || grid[ny, nx] == WALL || grid[ny, nx] == OBSTACLE;
      if collided {
        hp := hp - 1;
      } else {
        x := nx;
        y := ny;
      }
    }

    /**
     * One ship's share of UpdateProjectiles: each active projectile steps by
     * its direction, or is switched off where it stands when the next cell is
     * off the map, a wall or an obstacle.
     */
    method AdvanceShots(grid: array2<char>)
      requires grid.Length0 == MAP_HEIGHT && grid.Length1 == MAP_WIDTH
      requires forall r, c :: 0 <= r < MAP_HEIGHT && 0 <= c < MAP_WIDTH ==> grid[r, c] == MapCell(r, c)
      modifies shots
      ensures shots[..] == AdvanceAll(old(shots[..]))
    {
      for j := 0 to shots.Length
        invariant forall m :: 0 <= m < j ==> shots[m] == Advance(old(shots[m]))
        invariant forall m :: j <= m < shots.Length ==> shots[m] == old(shots[m])
      {
        var p := shots[j];
        if p.active {
          var nx := p.x + p.dx;
          var ny := p.y + p.dy;
          if nx < 0 || nx >= MAP_WIDTH || ny < 0 || ny >= MAP_HEIGHT
            || grid[ny, nx] == WALL || grid[ny, nx] == OBSTACLE
          {
            shots[j] := p.(active := false);
          } else {
            shots[j] := p.(x := nx, y := ny);
          }
        }
      }
      assert shots[..] == AdvanceAll(old(shots[..]));
    }

    /**
     * The fire path of HandleInput: scan for the lowest inactive slot and
     * fill it from the ship's position and velocity; a full array drops the
     * request.
     */
    method Fire()
      modifies shots
      ensures shots[..] == Launch(old(shots[..]), x, y, vx, vy)
    {
      for i := 0 to shots.Length
        invariant forall k :: 0 <= k < i ==> shots[k].active
        invariant shots[..] == old(shots[..])
      {
        if !shots[i].active {
          var dx, dy := vx, vy;
          if dx == 0 && dy == 0 {
            dy := -1;
          }
          shots[i] := Projectile(x, y, dx, dy, true);
          return;
        }
      }
    }

    /**
     * One hit loop of CheckHits: this ship's projectiles, lowest slot first,
     * against `target`. A projectile on the target's cell is switched off and
     * costs the target one point; the loop stops with `sunk` at the first hit
     * that leaves the target at 0 or below.
     */
    method Strike(target: Ship) returns (sunk: bool)
      requires target != this && target.shots != shots
      modifies shots, target`hp
      ensures var v := Resolve(old(shots[..]), 0, target.x, target.y, old(target.hp));
        shots[..] == v.shots && target.hp == v.hp && sunk == v.sunk
    {
      ghost var v := Resolve(shots[..], 0, target.x, target.y, target.hp);
      for i := 0 to shots.Length
        invariant Resolve(shots[..], i, target.x, target.y, target.hp) == v
      {
        var p := shots[i];
        if p.active && p.x == target.x && p.y == target.y {
          target.hp := target.hp - 1;
          shots[i] := p.(active := false);
          if target.hp <= 0 {
            return true;
          }
        }
      }
      return false;
    }
  }

  /** struct GameState: the map, the two players' ships and the gameOver flag. */
  class GameState {
    const grid: array2<char>
    const ships: seq<Ship>
    var gameOver: bool

    /** The fixed shape of the state, and the map as InitMap wrote it. */
    ghost predicate Wellformed()
      reads grid
    {
      grid.Length0 == MAP_HEIGHT && grid.Length1 == MAP_WIDTH
      && (forall r, c :: 0 <= r < MAP_HEIGHT && 0 <= c < MAP_WIDTH ==> grid[r, c] == MapCell(r, c))
      && |ships| == MAX_PLAYERS
      && ships[0] != ships[1] && ships[0].shots != ships[1].shots
      && ships[0].shots.Length == MAX_PROJECTILES && ships[1].shots.Length == MAX_PROJECTILES
    }

    ghost function View(): World
      requires |ships| == MAX_PLAYERS
      reads this, ships[0], ships[1], ships[0].shots, ships[1].shots
    {
      World(ships[0].Value(), ships[1].Value(), gameOver)
    }

    ghost predicate Valid()
      reads this, grid, ships, set s | s in ships :: s.shots
    {
      Wellformed() && Inv(View())
    }

    /** InitGame: the bordered map with its obstacles, ship A at (2, 2), ship B at (18, 8). */
    constructor InitGame()
      ensures Valid() && View() == Initial()
      ensures fresh(grid) && fresh(ships[0]) && fresh(ships[1])
      ensures fresh(ships[0].shots) && fresh(ships[1].shots)
    {
      grid := new char[MAP_HEIGHT, MAP_WIDTH];
      var shipA := new Ship.InitShip(2, 2);
      var shipB := new Ship.InitShip(MAP_WIDTH - 2, MAP_HEIGHT - 2);
      ships := [shipA, shipB];
      gameOver := false;
      new;
      InitMap();
      InitialInv();
    }

    /** InitMap: walls on the outer ring, three obstacles, open water elsewhere. */
    method InitMap()
      requires grid.Length0 == MAP_HEIGHT && grid.Length1 == MAP_WIDTH
      modifies grid
      ensures forall r, c :: 0 <= r < MAP_HEIGHT && 0 <= c < MAP_WIDTH ==> grid[r, c] == MapCell(r, c)
      ensures forall r, c :: 0 <= r < MAP_HEIGHT && 0 <= c < MAP_WIDTH && IsBorder(r, c) ==> grid[r, c] == WALL
      ensures grid[3, 5] == OBSTACLE && grid[5, 8] == OBSTACLE && grid[6, 10] == OBSTACLE
      ensures forall r, c ::
                0 <= r < MAP_HEIGHT && 0 <= c < MAP_WIDTH && !IsBorder(r, c) && !IsObstacle(r, c)
                ==> grid[r, c] == WATER
    {
      for r := 0 to MAP_HEIGHT
        invariant forall r', c :: 0 <= r' < r && 0 <= c < MAP_WIDTH ==>
          grid[r', c] == (if IsBorder(r', c) then WALL else WATER)
      {
        for c := 0 to MAP_WIDTH
          invariant forall r', c' :: 0 <= r' < r && 0 <= c' < MAP_WIDTH ==>
            grid[r', c'] == (if IsBorder(r', c') then WALL else WATER)
          invariant forall c' :: 0 <= c' < c ==> grid[r, c'] == (if IsBorder(r, c') then WALL else WATER)
        {
          if r == 0 || r == MAP_HEIGHT - 1 || c == 0 || c == MAP_WIDTH - 1 {
            grid[r, c] := WALL;
          } else {
            grid[r, c] := WATER;
          }
        }
      }
      grid[3, 5] := OBSTACLE;
      grid[5, 8] := OBSTACLE;
      grid[6, 10] := OBSTACLE;
    }

    /**
     * HandleInput, with the keys given as parameters: each ship's velocity
     * is reset and set from its held keys, then a fire press fills its
     * lowest free slot; player 1 is handled before player 2.
     */
    method HandleInput(ka: Keys, kb: Keys)
      requires Valid()
      modifies ships[0], ships[1], ships[0].shots, ships[1].shots
      ensures Valid()
      ensures View() == AfterInput(old(View()), ka, kb)
    {
      ghost var w0 := View();
      ships[0].Steer(ka);
      ships[1].Steer(kb);
      assert View() == AfterInput(w0, ka, kb);
      InputKeepsInv(w0, ka, kb);
    }

    /**
     * UpdateShips: each ship tries its target cell; off the map, a wall or
     * an obstacle costs one point (ending the match at 0 or below) and the
     * ship stays, otherwise it moves.
     */
    method UpdateShips()
      requires Valid()
      modifies this, ships[0], ships[1]
      ensures Valid()
      ensures View() == AfterShips(old(View()))
    {
      ghost var w0 := View();
      for i := 0 to MAX_PLAYERS
        invariant ships[0].Value() == if i > 0 then Moved(w0.a) else w0.a
        invariant ships[1].Value() == if i > 1 then Moved(w0.b) else w0.b
        invariant gameOver == (w0.over || (i > 0 && Sinks(w0.a)) || (i > 1 && Sinks(w0.b)))
      {
        var ship := ships[i];
        var collided := ship.Move(grid);
        if collided && ship.hp <= 0 {
          gameOver := true;
        }
      }
      assert View() == AfterShips(w0);
      ShipsKeepInv(w0);
    }

    /**
     * UpdateProjectiles: every active projectile steps by its direction, or
     * is switched off when the next cell is off the map, a wall or an obstacle.
     */
    method UpdateProjectiles()
      requires Valid()
      modifies ships[0].shots, ships[1].shots
      ensures Valid()
      ensures View() == AfterProjectiles(old(View()))
    {
      ghost var w0 := View();
      for i := 0 to MAX_PLAYERS
        invariant ships[0].shots[..] == if i > 0 then AdvanceAll(w0.a.shots) else w0.a.shots
        invariant ships[1].shots[..] == if i > 1 then AdvanceAll(w0.b.shots) else w0.b.shots
      {
        ships[i].AdvanceShots(grid);
      }
      assert View() == AfterProjectiles(w0);
      ProjectilesKeepInv(w0);
    }

    /**
     * CheckHits: with both ships down only the flag is set; otherwise A's
     * projectiles are checked against B and then B's against A, and the
     * first hit that leaves its victim at 0 or below sets the flag and ends
     * the check.
     */
    method CheckHits()
      requires Valid()
      modifies this, ships[0], ships[1], ships[0].shots, ships[1].shots
      ensures Valid()
      ensures View() == AfterHits(old(View()))
    {
      ghost var w0 := View();
      var shipA, shipB := ships[0], ships[1];

      if shipA.hp <= 0 && shipB.hp <= 0 {
        gameOver := true;
        HitsKeepInv(w0);
        return;
      }

      var sunk := shipA.Strike(shipB);
      if sunk {
        gameOver := true;
        assert View() == AfterHits(w0);
        HitsKeepInv(w0);
        return;
      }

      sunk := shipB.Strike(shipA);
      if sunk {
        gameOver := true;
      }
      assert View() == AfterHits(w0);
      HitsKeepInv(w0);
    }

    /**
     * One pass of the main loop's update half: the four phases run only
     * while the match is not over.
     */
    method Frame(ka: Keys, kb: Keys)
      requires Valid()
      modifies this, ships[0], ships[1], ships[0].shots, ships[1].shots
      ensures Valid()
      ensures View() == AfterFrame(old(View()), ka, kb)
      ensures old(gameOver) ==> View() == old(View())
      ensures old(gameOver) ==> gameOver
      ensures ships[0].hp <= old(ships[0].hp) && ships[1].hp <= old(ships[1].hp)
    {
      ghost var w0 := View();
      if !gameOver {
        HandleInput(ka, kb);
        UpdateShips();
        UpdateProjectiles();
        CheckHits();
      }
      FrameMonotone(w0, ka, kb);
    }

    /**
     * The winner-or-tie decision of the main loop, read once the match is
     * over: a tie exactly when both ships are down, otherwise the index of
     * the ship still afloat.
     */
    function Result(): (v: Verdict)
      requires Valid() && gameOver
      reads this, grid, ships, set s | s in ships :: s.shots
      ensures v == Tie <==> ships[0].hp <= 0 && ships[1].hp <= 0
      ensures v.Winner? ==>
                v.index < MAX_PLAYERS && ships[v.index].hp > 0 && ships[1 - v.index].hp <= 0
    {
      WinnerSurvives(View());
      Decide(ships[0].hp, ships[1].hp)
    }
  }
}
