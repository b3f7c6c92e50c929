/** The server's fixed configuration (constants.js), plus the literals the
    server and the combat code write inline. Coordinates are reals. */
module Constants {

  const PLAYER_SPEED: real := 3.0
  const PLAYER_HEALTH: int := 100
  const ZOMBIE_HEALTH: int := 100
  const ZOMBIE_DAMAGE: int := 1
  const BULLET_DAMAGE: int := 20
  const ZOMBIES_PER_WAVE: nat := 5
  const MAP_WIDTH: real := 800.0
  const MAP_HEIGHT: real := 600.0

  /** Side of the square that stands for the tree inside a dirt patch. */
  const TREE_COLLISION_SIZE: real := 40.0
  /** Side of a player's collision square, used by spawning and movement. */
  const PLAYER_SIZE: real := 50.0
  /** Bites and bullet hits happen strictly closer than this. */
  const CONTACT_RANGE: real := 20.0
}
