/**
 * Zombie creation and wave spawning (`createZombie`, `spawnWave`). The
 * randomness — `Date.now() + Math.random()` for ids and `Math.random()` for
 * positions — is an input: a supply of draws whose fractions lie in [0, 1)
 * and whose ids never repeat.
 */
module Waves {
  import opened Constants
  import opened Entities

  datatype Draw = Draw(id: ZombieId, fx: real, fy: real)

  /** The i-th zombie created from this supply uses draw i. */
  type Rng = nat -> Draw

  ghost predicate ValidRng(rng: Rng)
  {
    && (forall i: nat :: 0.0 <= rng(i).fx < 1.0 && 0.0 <= rng(i).fy < 1.0)
    && (forall i: nat, j: nat :: i != j ==> rng(i).id != rng(j).id)
  }

  /** No draw reuses an id already present. */
  ghost predicate FreshFor(rng: Rng, ids: set<ZombieId>)
  {
    forall i: nat :: rng(i).id !in ids
  }

  /** `createZombie`: full health, uniformly placed inside the map. */
  function CreateZombie(lobbyId: SocketId, d: Draw): (z: Zombie)
    requires 0.0 <= d.fx < 1.0 && 0.0 <= d.fy < 1.0
    ensures z.id == d.id && z.lobbyId == lobbyId
    ensures z.health == ZOMBIE_HEALTH
    ensures InMap(z.At())
  {
    Zombie(d.id, d.fx * MAP_WIDTH, d.fy * MAP_HEIGHT, ZOMBIE_HEALTH, lobbyId)
  }

  /** A zombie as `createZombie` makes it for this lobby. */
  ghost predicate Spawned(z: Zombie, lobbyId: SocketId)
  {
    z.health == ZOMBIE_HEALTH && z.lobbyId == lobbyId && InMap(z.At())
  }

  /** `spawnWave`: wave × ZOMBIES_PER_WAVE new zombies are added after the
      existing ones and the remaining-count is set (not added) to that number. */
  function SpawnWave(l: Lobby, rng: Rng): (r: Lobby)
    requires ValidRng(rng)
    ensures r.zombiesRemaining == l.wave * ZOMBIES_PER_WAVE
    ensures |r.zombies| == |l.zombies| + l.wave * ZOMBIES_PER_WAVE
    ensures r.zombies[..|l.zombies|] == l.zombies
    ensures forall i :: |l.zombies| <= i < |r.zombies| ==> Spawned(r.zombies[i], l.id)
    ensures FreshFor(rng, ZombieIds(l.zombies)) && DistinctZombieIds(l.zombies) ==> DistinctZombieIds(r.zombies)
    ensures r.(zombies := l.zombies, zombiesRemaining := l.zombiesRemaining) == l
  {
    var n := l.wave * ZOMBIES_PER_WAVE;
    var born := seq(n, i requires 0 <= i < n => CreateZombie(l.id, rng(i)));
    var zs := l.zombies + born;
    assert forall i :: |l.zombies| <= i < |zs| ==> zs[i].id == rng(i - |l.zombies|).id;
    assert FreshFor(rng, ZombieIds(l.zombies)) && DistinctZombieIds(l.zombies) ==> DistinctZombieIds(zs) by {
      if FreshFor(rng, ZombieIds(l.zombies)) && DistinctZombieIds(l.zombies) {
        forall i, j | 0 <= i < j < |zs| ensures zs[i].id != zs[j].id {
          if i < |l.zombies| && j >= |l.zombies| {
            assert zs[i] in l.zombies;
            assert zs[i].id in ZombieIds(l.zombies);
          }
        }
      }
    }
    l.(zombiesRemaining := n, zombies := zs)
  }

  /** Wave 1 of a lobby without zombies brings exactly five, all at full health. */
  lemma FirstWave(l: Lobby, rng: Rng)
    requires ValidRng(rng)
    requires l.wave == 1 && l.zombies == []
    ensures |SpawnWave(l, rng).zombies| == 5 && SpawnWave(l, rng).zombiesRemaining == 5
    ensures forall z :: z in SpawnWave(l, rng).zombies ==> z.health == ZOMBIE_HEALTH
  {
  }
}
