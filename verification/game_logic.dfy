/**
 * `updateGame`: the zombie loop, the bullet loop, then the outcome check.
 * Both loops run whether or not the game has started; only the outcome
 * check looks at `gameStarted`.
 */
module GameLogic {
  import opened Constants
  import opened Entities
  import opened Waves
  import opened Zombies
  import opened Bullets

  /** What `updateGame` returns: `null`, `'lose'`, `'waveComplete'`, and the
      `'win'` result the client handles, which `updateGame` never returns. */
  datatype GameResult = Ongoing | Lose | WaveComplete | Win

  datatype Update = Update(lobby: Lobby, result: GameResult)

  /** The zombie loop applied to a lobby: zombies chase, players lose health
      to bites, and bite events are queued after the existing events. */
  function ZombiesAct(l: Lobby, mv: Mover): (r: Lobby)
    ensures |r.zombies| == |l.zombies|
    ensures forall i :: 0 <= i < |l.zombies| ==> r.zombies[i].(x := l.zombies[i].x, y := l.zombies[i].y) == l.zombies[i]
    ensures OnlyHealthChanged(l.players, r.players)
    ensures r.events == l.events + BiteEvents(l.zombies, l.players)
    ensures r.(zombies := l.zombies, players := l.players, events := l.events) == l
  {
    var h := ZombiePhase(l.zombies, l.players, mv);
    ZombiePhaseBites(l.zombies, l.players, mv);
    l.(zombies := h.zombies, players := h.players, events := l.events + h.bites)
  }

  /** The win/lose check at the end of `updateGame`. */
  function Outcome(l: Lobby, rng: Rng): (u: Update)
    requires ValidRng(rng)
    ensures u.result == Lose <==> l.gameStarted && |l.players| == 0
    ensures u.result == WaveComplete <==>
              l.gameStarted && |l.players| > 0 && l.zombiesRemaining == 0 && |l.zombies| == 0
    ensures u.result != Win
    ensures u.result != WaveComplete ==> u.lobby == l
    ensures u.result == WaveComplete ==>
              && u.lobby.wave == l.wave + 1
              && u.lobby.zombiesRemaining == |u.lobby.zombies| == (l.wave + 1) * ZOMBIES_PER_WAVE
              && (forall i :: 0 <= i < |u.lobby.zombies| ==> Spawned(u.lobby.zombies[i], l.id))
              && DistinctZombieIds(u.lobby.zombies)
              && u.lobby.(wave := l.wave, zombies := l.zombies, zombiesRemaining := l.zombiesRemaining) == l
  {
    if !l.gameStarted then Update(l, Ongoing)
    else if |l.players| == 0 then Update(l, Lose)
    else if l.zombiesRemaining == 0 && |l.zombies| == 0 then
      Update(SpawnWave(l.(wave := l.wave + 1), rng), WaveComplete)
    else Update(l, Ongoing)
  }

  /** One frame of the simulation for one lobby. */
  function UpdateGame(l: Lobby, mv: Mover, rng: Rng): (u: Update)
    requires ValidRng(rng)
    ensures u.result != Win
    ensures u.result == Lose <==> l.gameStarted && |l.players| == 0
    ensures |u.lobby.players| == |l.players|
    ensures u.lobby.id == l.id && u.lobby.name == l.name && u.lobby.admin == l.admin
    ensures u.lobby.gameStarted == l.gameStarted && u.lobby.dirtPatches == l.dirtPatches
    ensures u.result == WaveComplete ==> u.lobby.wave == l.wave + 1
    ensures u.result != WaveComplete ==> u.lobby.wave == l.wave
  {
    Outcome(BulletPhase(ZombiesAct(l, mv)), rng)
  }

  /** `updateGame` keeps every lobby invariant: ids and names stay distinct,
      the remaining-count tracks the zombie list, and a lobby that has not
      started stays free of zombies. */
  lemma UpdateGameKeepsInvariant(l: Lobby, mv: Mover, rng: Rng)
    requires ValidRng(rng)
    requires LobbyInvariant(l)
    ensures LobbyInvariant(UpdateGame(l, mv, rng).lobby)
  {
    var a := ZombiesAct(l, mv);
    var b := BulletPhase(a);
    assert DistinctZombieIds(a.zombies) by {
      forall i, j | 0 <= i < j < |a.zombies| ensures a.zombies[i].id != a.zombies[j].id {
        assert a.zombies[i].(x := l.zombies[i].x, y := l.zombies[i].y) == l.zombies[i];
        assert a.zombies[j].(x := l.zombies[j].x, y := l.zombies[j].y) == l.zombies[j];
      }
    }
    OnlyHealthChangedTransitive(l.players, a.players, b.players);
    HealthChangeKeepsPlayers(l.players, b.players);
  }

  /** A started game whose players are all gone is lost on the next frame,
      whatever the zombies and bullets do. */
  lemma EmptyStartedLobbyLoses(l: Lobby, mv: Mover, rng: Rng)
    requires ValidRng(rng)
    requires l.gameStarted && l.players == []
    ensures UpdateGame(l, mv, rng).result == Lose
  {
  }

  /** Clearing the last zombie of a wave starts the next, larger wave on the
      same frame. */
  lemma WaveAdvances(l: Lobby, mv: Mover, rng: Rng)
    requires ValidRng(rng) && LobbyInvariant(l)
    requires l.gameStarted && |l.players| > 0 && l.zombies == []
    ensures UpdateGame(l, mv, rng).result == WaveComplete
    ensures |UpdateGame(l, mv, rng).lobby.zombies| == (l.wave + 1) * ZOMBIES_PER_WAVE
  {
    var b := BulletPhase(ZombiesAct(l, mv));
    assert b.zombies == [];
  }
}
