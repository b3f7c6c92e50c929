/**
 * The server's lobby registry (`lobbies`, keyed by lobby id in insertion
 * order), the messages the handlers send, and the player placement of
 * `assignRandomCoordinates`.
 */
module Lobbies {
  import opened Wrappers
  import opened Seqs
  import opened Constants
  import opened Geometry
  import opened Entities

  /** `lobbies`: one entry per lobby id, in insertion order. */
  type Registry = seq<Lobby>

  ghost predicate DistinctLobbyIds(reg: Registry)
  {
    DistinctBy(reg, (l: Lobby) => l.id)
  }

  ghost predicate DistinctLobbyNames(reg: Registry)
  {
    DistinctBy(reg, (l: Lobby) => l.name)
  }

  /** What the handlers and the tick keep true of the registry: one entry
      per id, lobby names unique, each lobby keyed by its admin's socket id,
      and every lobby internally consistent. */
  ghost predicate RegistryInvariant(reg: Registry)
  {
    && DistinctLobbyIds(reg)
    && DistinctLobbyNames(reg)
    && forall i :: 0 <= i < |reg| ==> reg[i].admin == reg[i].id && LobbyInvariant(reg[i])
  }

  /** `delete lobbies[id]` keeps the registry invariant. */
  lemma RemoveLobbyKeepsInvariant(reg: Registry, k: nat)
    requires k < |reg| && RegistryInvariant(reg)
    ensures RegistryInvariant(RemoveAt(reg, k))
  {
    var r := RemoveAt(reg, k);
    RemoveAtKeepsDistinct(reg, k, (l: Lobby) => l.id);
    RemoveAtKeepsDistinct(reg, k, (l: Lobby) => l.name);
    forall i | 0 <= i < |r| ensures r[i].admin == r[i].id && LobbyInvariant(r[i]) {
      assert r[i] == reg[if i < k then i else i + 1];
    }
  }

  /** Writing a consistent lobby back under the same id, name and admin
      keeps the registry invariant. */
  lemma RewriteLobbyKeepsInvariant(reg: Registry, k: nat, l: Lobby)
    requires k < |reg| && RegistryInvariant(reg)
    requires l.id == reg[k].id && l.name == reg[k].name && l.admin == reg[k].admin
    requires LobbyInvariant(l)
    ensures RegistryInvariant(reg[k := l])
  {
    UpdateKeepsDistinct(reg, k, l, (x: Lobby) => x.id);
    UpdateKeepsDistinct(reg, k, l, (x: Lobby) => x.name);
  }

  /** `lobbies[lobbyId]`. */
  function LobbyIndex(reg: Registry, id: SocketId): Option<nat>
  {
    FirstIndex(reg, KeyedBy(id))
  }

  /** The key test of the `lobbies` object: the lobby stored under `id`. */
  function KeyedBy(id: SocketId): Lobby -> bool
  {
    (l: Lobby) => l.id == id
  }

  /** The loop the per-player handlers open with: the first lobby, in
      iteration order, that has the socket among its players. */
  function LobbyOfPlayer(reg: Registry, sender: SocketId): Option<nat>
  {
    FirstIndex(reg, (l: Lobby) => PlayerIndex(l.players, sender).Some?)
  }

  function LobbyNames(reg: Registry): set<string>
  {
    set l | l in reg :: l.name
  }

  /** Who a message goes to: one socket, a Socket.IO room (named by lobby
      id), or every connected socket. */
  datatype Audience = Socket(socket: SocketId) | Room(lobby: SocketId) | Everyone

  /** The payload of each outbound message, named after its event. */
  datatype Message =
    | LobbyDirectory(lobbies: Registry)                 // 'lobbies'
    | LobbyCreated(lobby: Lobby, originalName: string)  // 'lobbyCreated'
    | CreateLobbyError(text: string)                    // 'createLobbyError'
    | JoinLobbyError(text: string)                      // 'joinLobbyError'
    | JoinRequest(playerId: SocketId, playerName: string, lobbyId: SocketId)
    | JoinApproved(lobby: Lobby, playerName: string)
    | UpdateLobby(lobby: Lobby)
    | GameStarted(lobby: Lobby)
    | LobbyClosed
    | GameOver(outcome: string)                         // always 'lose'
    | WaveCompleted(wave: nat)                          // 'waveComplete'
    | PlayerDied
    | Discrete(event: Event)                            // a queued lobby event, under its own type

  datatype Emit = Emit(to: Audience, msg: Message)

  /** A handler's effect: the new registry and what it sends, in order. */
  datatype Reply = Reply(lobbies: Registry, emits: seq<Emit>)

  const MISSING_NAMES := "Lobby name and player name are required."
  const NO_SUCH_LOBBY := "Lobby does not exist."
  const NAME_TAKEN := "Player name already taken in this lobby."

  /** The random source of `assignRandomCoordinates`: draw i is the pair of
      `Math.random()` fractions of the i-th attempt. */
  type Spawner = nat -> (real, real)

  ghost predicate ValidSpawner(sp: Spawner)
  {
    forall i: nat :: 0.0 <= sp(i).0 < 1.0 && 0.0 <= sp(i).1 < 1.0
  }

  /** The spot tried on attempt i. */
  function Candidate(sp: Spawner, i: nat): Pos
  {
    Pos(sp(i).0 * (MAP_WIDTH - PLAYER_SIZE), sp(i).1 * (MAP_HEIGHT - PLAYER_SIZE))
  }

  /** No existing player's square overlaps a player square at `p`. */
  predicate FreeSpot(ps: seq<Player>, p: Pos)
  {
    forall j :: 0 <= j < |ps| ==> !CheckCollision(p.x, p.y, PLAYER_SIZE, ps[j].x, ps[j].y, PLAYER_SIZE)
  }

  /** The do-while loop of `assignRandomCoordinates`, from attempt i on: the
      first candidate that collides with nobody. The source loops until one
      turns up; `bound` names an attempt known to succeed. */
  function PlaceFrom(ps: seq<Player>, sp: Spawner, i: nat, ghost bound: nat): (r: Pos)
    requires i <= bound && FreeSpot(ps, Candidate(sp, bound))
    ensures FreeSpot(ps, r)
    ensures exists k :: i <= k <= bound && r == Candidate(sp, k)
                        && forall m :: i <= m < k ==> !FreeSpot(ps, Candidate(sp, m))
    decreases bound - i
  {
    var c := Candidate(sp, i);
    if FreeSpot(ps, c) then c else PlaceFrom(ps, sp, i + 1, bound)
  }

  /** Every spot `assignRandomCoordinates` can pick lies in
      [0, MAP_WIDTH - PLAYER_SIZE) × [0, MAP_HEIGHT - PLAYER_SIZE). */
  lemma PlacementInBounds(ps: seq<Player>, sp: Spawner, bound: nat)
    requires ValidSpawner(sp) && FreeSpot(ps, Candidate(sp, bound))
    ensures var p := PlaceFrom(ps, sp, 0, bound);
      0.0 <= p.x < MAP_WIDTH - PLAYER_SIZE && 0.0 <= p.y < MAP_HEIGHT - PLAYER_SIZE
  {
    var p := PlaceFrom(ps, sp, 0, bound);
    var k :| 0 <= k <= bound && p == Candidate(sp, k);
    var (fx, fy) := sp(k);
    assert 0.0 <= fx < 1.0 && 0.0 <= fy < 1.0;
    assert fx * (MAP_WIDTH - PLAYER_SIZE) < 1.0 * (MAP_WIDTH - PLAYER_SIZE);
    assert fy * (MAP_HEIGHT - PLAYER_SIZE) < 1.0 * (MAP_HEIGHT - PLAYER_SIZE);
  }

  /** The player object `createLobby` and `approveJoin` build, at `at`. */
  function NewPlayer(id: SocketId, name: string, at: Pos): (p: Player)
    ensures p.id == id && p.name == name && p.At() == at
    ensures p.health == PLAYER_HEALTH && p.angle == 0.0
    ensures p.state == "idle" && p.weapon == "pistol" && p.animationFrame == 0
  {
    Player(id, name, at.x, at.y, PLAYER_HEALTH, 0.0, "idle", "pistol", 0)
  }
}
