/**
 * The fixed battlefield: its dimensions, the game's hardcoded limits and
 * the contents of every map cell as InitMap writes them.
 *
 * Coordinates follow the C program: `x` is the column (0 .. MAP_WIDTH-1),
 * `y` the row (0 .. MAP_HEIGHT-1), and the map is indexed as map[row][column].
 */
module Board {

  const MAP_WIDTH: nat := 20
  const MAP_HEIGHT: nat := 10
  const MAX_PLAYERS: nat := 2
  const MAX_PROJECTILES: nat := 5
  const MAX_SPEED: int := 1
  const START_HP: int := 3

  const WALL: char := '#'
  const OBSTACLE: char := 'X'
  const WATER: char := '.'

  predicate InBounds(x: int, y: int) {
    0 <= x < MAP_WIDTH && 0 <= y < MAP_HEIGHT
  }

  /** The outer ring of the map. */
  predicate IsBorder(r: int, c: int) {
    r == 0 || r == MAP_HEIGHT - 1 || c == 0 || c == MAP_WIDTH - 1
  }

  /** The three hardcoded obstacle cells, as (row, column). */
  predicate IsObstacle(r: int, c: int) {
    (r == 3 && c == 5) || (r == 5 && c == 8) || (r == 6 && c == 10)
  }

  /** The character InitMap leaves in map[r][c]: the obstacles are written last. */
  function MapCell(r: int, c: int): char
    requires 0 <= r < MAP_HEIGHT && 0 <= c < MAP_WIDTH
  {
    if IsObstacle(r, c) then OBSTACLE
    else if IsBorder(r, c) then WALL
    else WATER
  }

  /**
   * The test shared by ship movement and projectile flight: a target cell
   * is refused when it is off the map or holds a wall or an obstacle.
   */
  predicate Blocked(x: int, y: int) {
    !InBounds(x, y) || MapCell(y, x) == WALL || MapCell(y, x) == OBSTACLE
  }

  /** A cell a ship may occupy is exactly an interior cell that is not an obstacle. */
  lemma OpenCells(x: int, y: int)
    ensures !Blocked(x, y) <==> InBounds(x, y) && !IsBorder(y, x) && !IsObstacle(y, x)
    ensures !Blocked(x, y) ==> MapCell(y, x) == WATER
  {
  }
}
