# Monomaxia: the match state machine in Dafny

Monomaxia is a two-player top-down duel on a 20×10 grid (`monomaxia.c`).
Ship A starts at (2, 2) and ship B at (18, 8). Each ship has 3 health points
and five projectile slots. Every frame, while the match is not over, the game
reads the keys (velocity and fire), moves the ships, advances the
projectiles and resolves hits. A ship loses a point when it runs into the
border or an obstacle, or when an enemy projectile stands on its cell. The
`gameOver` flag is set as soon as a ship is at 0 or below, but the phases
of the current frame still run after the one that set it: a ship that runs
into a wall and drops to 0 can still be hit, or still sink the other ship,
in the same frame. Only the next frame is skipped (`monomaxia.c:112-125`).
This is how a collision and a hit can end in a tie. The banner then
announces a tie when both ships are down, and otherwise the ship with more
health.

The project has four modules:

- `Board` (board.dfy): the constants (`MAP_WIDTH`, `MAP_HEIGHT`,
  `MAX_PROJECTILES`, `MAX_SPEED`, `START_HP`). It also holds the cell each
  map position holds after `InitMap` (`MapCell`), and the shared "target
  cell refused" test (`Blocked`).
- `Shots` (shots.dfy): projectile slots as values. It covers the
  lowest-free-slot search, firing (`Launch`), one frame of flight (`Advance`,
  `AdvanceAll`) and one hit loop of `CheckHits` (`Resolve`), with the lemmas
  that say what each promises.
- `Duel` (duel.dfy): the whole match as a value (`World`). There is one
  function per phase (`AfterInput`, `AfterShips`, `AfterProjectiles`,
  `AfterHits`), the frame (`AfterFrame`) and the result (`Decide`). The match
  invariant `Inv` says:
  - both ships and every active projectile are on in-bounds open cells;
  - health is at most 3;
  - each ship has 5 slots;
  - `gameOver` holds exactly when some ship is at 0 or below.

  `Duel` also proves that every phase keeps this invariant, that health
  never rises, that the flag is never cleared, and who wins.
- `Game` (game.dfy): the state as the C program keeps it. The `GameState`
  class holds an `array2<char>` map that `InitMap` writes with nested loops,
  a `gameOver` flag, and two `Ship` objects. Each `Ship` has `x`, `y`, `hp`,
  `vx` and `vy` fields updated in place and an `array<Projectile>` of five
  slots. Every phase is a method whose postcondition equates the new state
  (`View()`) with the matching `Duel` function of the old state, and keeps
  `Valid()` (the shape of the state, the map contents and `Inv`).

The keys are parameters (`Keys`). The four movement keys are passed as
"held" (`IsKeyDown`) and the fire key as "newly pressed" (`IsKeyPressed`).
The result is a `Verdict`, either `Tie` or `Winner(index)`, rather than a
player name.

Three behaviours of the code are easy to misread, and the model follows
the code in each:

- **Opposing keys.** When both keys of a pair are held, they do not cancel.
  The key checked second wins: S over W, D over A, DOWN over UP, RIGHT over
  LEFT (`monomaxia.c:346-353`, `Velocity`).
- **Diagonal moves.** Both velocity components can be set in one frame, so
  a ship moves diagonally in one combined step (`monomaxia.c:421-441`).
- **The hit phase's first check.** The comment at `monomaxia.c:486` says "if
  either" ship is at 0 HP, but the code (and this model) tests that both
  are (`monomaxia.c:487`).

Parts of four C functions are split into `Ship` methods so that each proof
stays small:

- `Ship.Steer` and `Ship.Fire` are one player's part of `HandleInput`.
- `Ship.Move` is one iteration of the `UpdateShips` loop. It reports a
  collision, and `GameState.UpdateShips` then sets `gameOver` if the ship is
  at 0 or below.
- `Ship.AdvanceShots` is the inner slot loop of `UpdateProjectiles`.
- `Ship.Strike` is one hit loop of `CheckHits`. Its `sunk` result stands
  for the `gameOver = true; return;` inside the loop, which
  `GameState.CheckHits` performs.

## Model

| member | source | states |
|---|---|---|
| `Board.MapCell` | monomaxia.c:182-198 | the character `InitMap` leaves in `map[r][c]`: 'X' at the three obstacle cells (written last), '#' on the rest of the border ring, '.' everywhere else |
| `Board.Blocked` | monomaxia.c:426-429 | the collision test shared by ships and projectiles (the same test is at lines 459-462): a target cell is refused when it is off the map or holds '#' or 'X' |
| `Board.OpenCells` | monomaxia.c:184-197 | a cell is open (not blocked) exactly when it is on the map, off the border ring and not one of the three obstacles; an open cell holds '.' |
| `Game.GameState.InitMap` | monomaxia.c:182-198 | after the nested loops and the three obstacle writes, every border cell (row 0, row 9, column 0, column 19) is '#', cells [3][5], [5][8], [6][10] are 'X', every other cell is '.' |
| `Duel.StartingShip` | monomaxia.c:200-212 | a ship as `InitShip` leaves it: at its start cell, 3 points, velocity (0, 0), five cleared slots |
| `Duel.Initial` | monomaxia.c:163-177 | the match as `InitGame` leaves it: ship A at (2, 2), ship B at (18, 8), flag false |
| `Game.Ship.InitShip` | monomaxia.c:200-212 | the ship is at the given start with hp 3 and velocity (0, 0), and all five slots are the cleared slot |
| `Game.Ship.InitProjectile` | monomaxia.c:214-221 | slot i becomes inactive at (-1, -1) with direction (0, 0); no other slot changes |
| `Game.GameState.InitGame` | monomaxia.c:163-177 | the new state satisfies the match invariant and equals `Initial()`: ship A at (2, 2), ship B at (18, 8), both with 3 points and no projectiles, `gameOver` false |
| `Duel.InitialInv` | monomaxia.c:165-176 | the initial match satisfies the invariant (both start cells are open), is not over, and has no active projectile |
| `Duel.Steered` | monomaxia.c:339-376 | one player's part of the input phase: velocity reset, set from the held keys in the C order, then a fire press fills the lowest free slot (`Launch`); position, health and other slots are untouched |
| `Duel.AfterInput` | monomaxia.c:337-410 | the input phase: ship A steered by its keys, ship B by its own, the flag unchanged |
| `Duel.Velocity` | monomaxia.c:340-353 | a velocity component is always -1, 0 or 1; it is +1 exactly when the key checked second is held, -1 exactly when only the first one is, and 0 when neither is |
| `Game.Ship.Steer` | monomaxia.c:339-355 | the ship's velocity is reset and then set from its keys, and a fire press fires; nothing else about the ship changes (`Steered`) |
| `Shots.FirstFree` | monomaxia.c:358-362 | the index where the fire scan stops: every slot below it is active, and it is either an inactive slot or the slot count when all are active |
| `Shots.Aim` | monomaxia.c:363-366 | a new projectile's direction is the ship's velocity when that is non-zero, and (0, -1) (straight up) when the ship stands still; it is never (0, 0) |
| `Shots.Launch` | monomaxia.c:358-375 | firing keeps the number of slots |
| `Game.Ship.Fire` | monomaxia.c:355-376 | the scan-and-break loop leaves the slots equal to `Launch` of the old slots at the ship's position and velocity |
| `Shots.LaunchFillsLowestFree` | monomaxia.c:358-375 | with a free slot, exactly the lowest-index inactive slot is filled with the ship's position, its aim and active = true; every other slot is unchanged; the active count rises by one |
| `Shots.LaunchWhenFull` | monomaxia.c:358-375 | with all slots active, a fire request changes nothing |
| `Shots.LaunchPlacement` | monomaxia.c:368-372 | after firing, every active slot was already active or sits on the firing ship's cell |
| `Shots.ActiveCount` | monomaxia.c:36 | the active count is never more than the number of slots |
| `Shots.ActiveCountExtremes` | monomaxia.c:36 | the active count is 0 exactly when no slot is active, and equals the slot count exactly when every slot is active |
| `Shots.ActiveCountUpdate` | monomaxia.c:372 | overwriting one slot changes the active count by exactly that slot's change of activity |
| `Shots.ActiveCountMonotone` | monomaxia.c:465 | switching slots off and activating none never raises the active count |
| `Duel.ActiveBound` | monomaxia.c:60 | in any valid match at most five projectiles per ship are active; this follows from the fixed five-slot array alone, not from any phase |
| `Game.GameState.HandleInput` | monomaxia.c:337-410 | each ship's velocity and slots become `Steered` of the old ones under its own keys, and the invariant is kept |
| `Duel.InputKeepsInv` | monomaxia.c:337-410 | the input phase keeps the match invariant: a new projectile starts on its ship's open cell |
| `Duel.Moved` | monomaxia.c:422-441 | one ship's move attempt: a blocked target cell costs one point in place, an open one is entered |
| `Duel.Sinks` | monomaxia.c:426-434 | the move attempt is blocked and the lost point leaves the ship at 0 or below, which is when the flag is set |
| `Duel.AfterShips` | monomaxia.c:417-443 | the movement phase: both ships `Moved`, the flag set if it was set or either ship `Sinks` |
| `Duel.MovedOutcome` | monomaxia.c:422-441 | a blocked target leaves the ship in place with exactly one point less; an open target is entered with health unchanged; velocity and slots are untouched; a ship on an open cell stays on an open cell |
| `Duel.MoveScenarios` | monomaxia.c:417-443 | from (2, 2) with velocity (1, 0) the ship reaches (3, 2) at full health; from (1, 1) with velocity (-1, 0) it stays and loses a point; a still ship fires upward |
| `Game.Ship.Move` | monomaxia.c:421-441 | `collided` is true exactly when the target cell is off the map, a wall or an obstacle, read from the map array; the ship becomes `Moved` of its old state |
| `Game.GameState.UpdateShips` | monomaxia.c:417-443 | each ship becomes `Moved` of its old state, and `gameOver` becomes true exactly when it was true or a blocked move left a ship at 0 or below |
| `Duel.ShipsKeepInv` | monomaxia.c:417-443 | the movement phase keeps ships on open cells and keeps `gameOver` true exactly when some ship is at 0 or below |
| `Shots.Advance` | monomaxia.c:455-471 | one frame of flight for one slot: an inactive slot is untouched, an active one with a blocked target is switched off where it stands, any other moves by (dx, dy) |
| `Shots.AdvanceStep` | monomaxia.c:455-471 | an inactive slot is untouched; an active one either moves by exactly (dx, dy) onto an open cell or is switched off without moving |
| `Shots.AdvanceAll` | monomaxia.c:452-473 | flight keeps the number of slots |
| `Shots.AdvanceAllKeepsOpen` | monomaxia.c:448-475 | flight never activates a slot, leaves every active projectile on an in-bounds open cell and never raises the active count |
| `Game.Ship.AdvanceShots` | monomaxia.c:452-473 | the in-place slot loop leaves the slots equal to `AdvanceAll` of the old slots, reading the map array for the blocked test |
| `Duel.AfterProjectiles` | monomaxia.c:448-475 | the flight phase: every slot of both ships advanced, nothing else changed |
| `Game.GameState.UpdateProjectiles` | monomaxia.c:448-475 | every slot of both ships becomes `Advance` of its old value; positions, health and the flag are unchanged |
| `Duel.ProjectilesKeepInv` | monomaxia.c:448-475 | the flight phase keeps the match invariant |
| `Shots.Resolve` | monomaxia.c:494-507 | one hit loop of `CheckHits` from slot i on: each slot active on the victim's cell is switched off and costs one point, and the loop stops (sunk) at the first point that leaves the victim at 0 or below |
| `Shots.ResolvePairs` | monomaxia.c:494-507 | a hit loop changes only slots that stood active on the target's cell, and each of those only by switching it off |
| `Shots.ResolveCount` | monomaxia.c:497-500 | the target loses exactly as many points as the loop switched slots off |
| `Shots.ResolveStops` | monomaxia.c:497-505 | the loop stops at the first hit that leaves the target at 0 or below (so a target with health left ends at exactly 0); if it does not stop, the target lost nothing or is still afloat, and no attacking slot is left on its cell |
| `Game.Ship.Strike` | monomaxia.c:494-507 | the in-place hit loop leaves the attacker's slots, the target's health and the stop flag equal to `Resolve` of the old values |
| `Duel.AfterHits` | monomaxia.c:481-524 | the hit phase: both ships down on entry sets only the flag; otherwise A's projectiles against B, then, unless B sank, B's projectiles against A |
| `Game.GameState.CheckHits` | monomaxia.c:481-524 | the state becomes `AfterHits` of the old one (both ships down: only the flag changes; else A's shots against B, and if B did not sink, B's shots against A), and the invariant is kept |
| `Duel.HitsBothDown` | monomaxia.c:486-491 | when both ships are at 0 or below on entry, only `gameOver` changes, to true |
| `Duel.HitsPairing` | monomaxia.c:494-523 | each point a ship loses pairs with one projectile of the other ship that stood active on its cell and is now switched off; positions and velocities do not change |
| `Duel.HitsShortCircuit` | monomaxia.c:497-520 | when B loses its last point in this phase the flag is set, B ends at 0 if it entered with health left and one below its entry health if it entered already down, and A's health and B's projectiles are not touched; the same health and flag outcome holds when A sinks |
| `Duel.HitsKeepInv` | monomaxia.c:481-524 | the hit phase keeps the match invariant, in particular `gameOver` holds exactly when some ship is at 0 or below |
| `Duel.AfterFrame` | monomaxia.c:112-125 | one pass of the main loop: a finished match is left alone, otherwise input, movement, flight and hits run in that order, even after one of them sets the flag |
| `Duel.CollisionAndHitTie` | monomaxia.c:112-125 | a worked frame: A hits the left wall at 1 point while its projectile reaches B at 1 point; the frame ends with both at 0, the flag set and a tie |
| `Duel.PhasesMonotone` | monomaxia.c:432-434 | in every phase health never goes up and a set `gameOver` stays set |
| `Duel.FrameMonotone` | monomaxia.c:112-125 | over a frame health never goes up and `gameOver` is never cleared; a frame of a finished match changes nothing |
| `Duel.FrameKeepsInv` | monomaxia.c:112-125 | every frame keeps ships and active projectiles on open cells, health at most 3 and the flag in step with health |
| `Game.GameState.Frame` | monomaxia.c:112-125 | the four phases run in order only while `gameOver` is false; the state becomes `AfterFrame` of the old one, stays valid, is unchanged once over, and neither ship's health rises |
| `Duel.Decide` | monomaxia.c:138-146 | a winner index is 0 or 1 |
| `Duel.WinnerSurvives` | monomaxia.c:138-146 | in a finished valid match the verdict is a tie exactly when both ships are down, and names ship 0 (resp. 1) exactly when that ship is afloat and the other is down |
| `Game.GameState.Result` | monomaxia.c:135-151 | once `gameOver` is set, the banner is a tie exactly when both ships are at 0 or below; otherwise the named winner has health left and the other ship does not |

## Left out

- Drawing (`DrawGame`, `DrawBayBackground`, `BeginDrawing`, `EndDrawing`, `ClearBackground`, `DrawText`): calls into the raylib graphics library, with floating-point radii and alpha.
- The window and frame pacing (`InitWindow`, `SetTargetFPS`, `WindowShouldClose`, `CloseWindow`): library I/O. `GameState.Frame` models one pass of the loop body; the loop itself is not modelled.
- The key queries `IsKeyDown` and `IsKeyPressed`: library input. Their answers are the `Keys` parameters, so edge-triggering of the fire key is up to the caller.
- Player names, `strcpy`, `snprintf` and `memset`: string formatting only. The winner is an index, and `InitGame` allocates fresh, fully initialised objects instead of zeroing memory.
- C `int` width: all values are unbounded integers. Positions stay on the 20×10 map and health stays between -1 and 3, so no overflow can occur in the source.
