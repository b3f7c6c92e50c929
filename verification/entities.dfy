/**
 * The entities of one lobby. Players, zombies and lobbies live in JavaScript
 * objects keyed by id; they are sequences here, in the objects' iteration
 * (insertion) order, each element carrying its key.
 */
module Entities {
  import opened Wrappers
  import opened Seqs
  import opened Geometry
  import opened Constants

  /** A connection id; a lobby's id is its admin's connection id. */
  type SocketId = string
  /** `Date.now() + Math.random()`: only its uniqueness matters. */
  type ZombieId = real

  /** `state` and `weapon` hold whatever the client last sent; the client
      sends "idle"/"shoot"/"reload" and "pistol"/"rifle". */
  datatype Player = Player(id: SocketId, name: string, x: real, y: real, health: int,
                           angle: real, state: string, weapon: string, animationFrame: int)
  {
    function At(): Pos { Pos(x, y) }
  }

  datatype Zombie = Zombie(id: ZombieId, x: real, y: real, health: int, lobbyId: SocketId)
  {
    function At(): Pos { Pos(x, y) }
  }

  /** A bullet as the client sent it, tagged with the shooter's id. */
  datatype Bullet = Bullet(x: real, y: real, speedX: real, speedY: real, ownerId: SocketId)
  {
    function At(): Pos { Pos(x, y) }
  }

  /** Discrete events queued during a tick and sent once after it. */
  datatype Event = ZombieBite(playerId: SocketId) | ZombieHit(zombieId: ZombieId)

  datatype Lobby = Lobby(id: SocketId, name: string, players: seq<Player>, zombies: seq<Zombie>,
                         bullets: seq<Bullet>, admin: SocketId, wave: nat, zombiesRemaining: int,
                         gameStarted: bool, events: seq<Event>, dirtPatches: seq<Patch>)

  /** The key test of the `players` object: the player stored under `id`. */
  function HasId(id: SocketId): Player -> bool
  {
    (p: Player) => p.id == id
  }

  function PlayerIndex(ps: seq<Player>, id: SocketId): Option<nat>
  {
    FirstIndex(ps, HasId(id))
  }

  function Positions(ps: seq<Player>): (pts: seq<Pos>)
    ensures |pts| == |ps|
    ensures forall j :: 0 <= j < |ps| ==> pts[j] == ps[j].At()
  {
    seq(|ps|, j requires 0 <= j < |ps| => ps[j].At())
  }

  function PlayerNames(ps: seq<Player>): set<string>
  {
    set p | p in ps :: p.name
  }

  ghost function ZombieIds(zs: seq<Zombie>): set<ZombieId>
  {
    set z | z in zs :: z.id
  }

  ghost predicate DistinctPlayerIds(ps: seq<Player>)
  {
    DistinctBy(ps, (p: Player) => p.id)
  }

  ghost predicate DistinctPlayerNames(ps: seq<Player>)
  {
    DistinctBy(ps, (p: Player) => p.name)
  }

  ghost predicate DistinctZombieIds(zs: seq<Zombie>)
  {
    DistinctBy(zs, (z: Zombie) => z.id)
  }

  /** Same players in the same order, differing at most in health. */
  ghost predicate OnlyHealthChanged(before: seq<Player>, after: seq<Player>)
  {
    |after| == |before| && forall j :: 0 <= j < |before| ==> after[j].(health := before[j].health) == before[j]
  }

  lemma OnlyHealthChangedTransitive(a: seq<Player>, b: seq<Player>, c: seq<Player>)
    requires OnlyHealthChanged(a, b) && OnlyHealthChanged(b, c)
    ensures OnlyHealthChanged(a, c)
  {
    forall j | 0 <= j < |a| ensures c[j].(health := a[j].health) == a[j] {
      assert b[j].(health := a[j].health) == a[j];
      assert c[j].(health := b[j].health) == b[j];
    }
  }

  /** A change of health alone keeps ids, names and frames as they were. */
  lemma HealthChangeKeepsPlayers(before: seq<Player>, after: seq<Player>)
    requires OnlyHealthChanged(before, after)
    ensures forall j :: 0 <= j < |after| ==>
              after[j].id == before[j].id && after[j].name == before[j].name
              && after[j].animationFrame == before[j].animationFrame
    ensures DistinctPlayerIds(before) ==> DistinctPlayerIds(after)
    ensures DistinctPlayerNames(before) ==> DistinctPlayerNames(after)
  {
    forall j | 0 <= j < |after|
      ensures after[j].id == before[j].id && after[j].name == before[j].name
           && after[j].animationFrame == before[j].animationFrame
    {
      assert after[j].(health := before[j].health) == before[j];
    }
  }

  /** Inside [0, MAP_WIDTH) × [0, MAP_HEIGHT): where a zombie spawns. */
  predicate InMap(p: Pos)
  {
    0.0 <= p.x < MAP_WIDTH && 0.0 <= p.y < MAP_HEIGHT
  }

  /** Inside the closed box [0, MAP_WIDTH] × [0, MAP_HEIGHT]: where a bullet survives. */
  predicate InMapClosed(p: Pos)
  {
    0.0 <= p.x <= MAP_WIDTH && 0.0 <= p.y <= MAP_HEIGHT
  }

  /** What every lobby keeps true between handlers and ticks. */
  ghost predicate LobbyInvariant(l: Lobby)
  {
    && DistinctPlayerIds(l.players)
    && DistinctPlayerNames(l.players)
    && DistinctZombieIds(l.zombies)
    && l.zombiesRemaining == |l.zombies|
    && (!l.gameStarted ==> l.zombies == [])
    && (forall j :: 0 <= j < |l.players| ==> l.players[j].animationFrame >= 0)
  }
}
