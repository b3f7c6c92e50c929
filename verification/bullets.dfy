/**
 * The bullet half of `updateGame`. The source walks the bullet array from
 * the last index down to 0; each bullet advances by its velocity, may strike
 * the first zombie in contact, then — even if it struck a zombie — may
 * strike the first player in contact who did not fire it, and is spliced out
 * when it struck anything or left the closed map box.
 */
module Bullets {
  import opened Wrappers
  import opened Seqs
  import opened Constants
  import opened Geometry
  import opened Entities

  /** `bullet.x += bullet.speedX; bullet.y += bullet.speedY`. */
  function Advanced(b: Bullet): (r: Bullet)
    ensures r.x - b.x == b.speedX && r.y - b.y == b.speedY
    ensures r.(x := b.x, y := b.y) == b
  {
    b.(x := b.x + b.speedX, y := b.y + b.speedY)
  }

  /** The first zombie in contact with a bullet at `at`. */
  function ZombieTarget(zs: seq<Zombie>, at: Pos): Option<nat>
  {
    FirstIndex(zs, (z: Zombie) => InContact(at, z.At()))
  }

  /** The first player in contact with a bullet at `at`, skipping its owner. */
  function PlayerTarget(ps: seq<Player>, at: Pos, owner: SocketId): Option<nat>
  {
    FirstIndex(ps, (p: Player) => p.id != owner && InContact(at, p.At()))
  }

  ghost predicate HitsZombie(zs: seq<Zombie>, at: Pos)
  {
    exists j :: 0 <= j < |zs| && InContact(at, zs[j].At())
  }

  ghost predicate HitsPlayer(ps: seq<Player>, at: Pos, owner: SocketId)
  {
    exists j :: 0 <= j < |ps| && ps[j].id != owner && InContact(at, ps[j].At())
  }

  /** Bullet i survives its step: it struck nothing and is still on the map. */
  ghost predicate Survives(l: Lobby, i: nat)
    requires i < |l.bullets|
  {
    var m := Advanced(l.bullets[i]);
    !HitsZombie(l.zombies, m.At()) && !HitsPlayer(l.players, m.At(), m.ownerId) && InMapClosed(m.At())
  }

  /** Zombie j took a bullet: one `zombieHit` event, BULLET_DAMAGE off its
      health, and when that leaves it at or below 0 it is deleted and the
      remaining-count drops by one. No other zombie changes. */
  ghost predicate ZombieStruck(l: Lobby, r: Lobby, j: nat)
  {
    && j < |l.zombies|
    && r.events == l.events + [ZombieHit(l.zombies[j].id)]
    && var hurt := l.zombies[j].health - BULLET_DAMAGE;
    && (hurt <= 0 ==> r.zombies == RemoveAt(l.zombies, j) && r.zombiesRemaining == l.zombiesRemaining - 1)
    && (hurt > 0 ==> r.zombies == l.zombies[j := l.zombies[j].(health := hurt)]
                     && r.zombiesRemaining == l.zombiesRemaining)
  }

  function StrikeZombie(l: Lobby, j: nat): (r: Lobby)
    requires j < |l.zombies|
    ensures ZombieStruck(l, r, j)
    ensures r.(zombies := l.zombies, zombiesRemaining := l.zombiesRemaining, events := l.events) == l
  {
    var z := l.zombies[j];
    var hurt := z.health - BULLET_DAMAGE;
    var l1 := l.(events := l.events + [ZombieHit(z.id)]);
    if hurt <= 0 then l1.(zombies := RemoveAt(l.zombies, j), zombiesRemaining := l.zombiesRemaining - 1)
    else l1.(zombies := l.zombies[j := z.(health := hurt)])
  }

  /** The zombie half of one bullet's step, for a bullet now at `at`. */
  function ZombieStage(l: Lobby, at: Pos): (r: Lobby)
    ensures !HitsZombie(l.zombies, at) ==> r == l
    ensures HitsZombie(l.zombies, at) ==> exists j :: 0 <= j < |l.zombies| && ZombieStruck(l, r, j) && InContact(at, l.zombies[j].At())
                                              && forall k :: 0 <= k < j ==> !InContact(at, l.zombies[k].At())
    ensures HitsZombie(l.zombies, at) <==> ZombieTarget(l.zombies, at).Some?
    ensures r.(zombies := l.zombies, zombiesRemaining := l.zombiesRemaining, events := l.events) == l
  {
    match ZombieTarget(l.zombies, at)
    case None => l
    case Some(j) => StrikeZombie(l, j)
  }

  /** The player half: the first player in contact who is not the owner
      loses BULLET_DAMAGE. The result says whether anyone was struck. */
  function PlayerStage(ps: seq<Player>, at: Pos, owner: SocketId): (r: seq<Player>)
    ensures OnlyHealthChanged(ps, r)
    ensures forall j :: 0 <= j < |ps| && ps[j].id == owner ==> r[j] == ps[j]
    ensures forall j :: 0 <= j < |ps| && r[j] != ps[j] ==>
              && r[j].health == ps[j].health - BULLET_DAMAGE
              && InContact(at, ps[j].At())
              && (forall k :: 0 <= k < j && ps[k].id != owner ==> !InContact(at, ps[k].At()))
              && (forall k :: 0 <= k < |ps| && k != j ==> r[k] == ps[k])
    ensures HitsPlayer(ps, at, owner) <==> r != ps
  {
    match PlayerTarget(ps, at, owner)
    case None => ps
    case Some(j) =>
      var p := ps[j];
      var r := ps[j := p.(health := p.health - BULLET_DAMAGE)];
      assert r[j] != ps[j];
      r
  }

  /** One iteration of the bullet loop, for the bullet at index i. */
  function BulletStep(l: Lobby, i: nat): (r: Lobby)
    requires i < |l.bullets|
    // the bullet itself
    ensures Survives(l, i) ==> r.bullets == l.bullets[i := Advanced(l.bullets[i])]
    ensures !Survives(l, i) ==> r.bullets == RemoveAt(l.bullets, i)
    // zombies: the first one in contact, if any, is struck
    ensures ZombieStage(l, Advanced(l.bullets[i]).At()) == r.(players := l.players, bullets := l.bullets)
    // players: at most one, never the owner, loses exactly BULLET_DAMAGE
    ensures r.players == PlayerStage(l.players, Advanced(l.bullets[i]).At(), l.bullets[i].ownerId)
    // nothing else
    ensures i <= |r.bullets|
    ensures r.(players := l.players, zombies := l.zombies, zombiesRemaining := l.zombiesRemaining,
               events := l.events, bullets := l.bullets) == l
  {
    var m := Advanced(l.bullets[i]);
    var l1 := ZombieStage(l, m.At());
    var ps := PlayerStage(l1.players, m.At(), m.ownerId);
    var l2 := l1.(players := ps);
    var hit := l1 != l || ps != l1.players;
    assert hit <==> HitsZombie(l.zombies, m.At()) || HitsPlayer(l.players, m.At(), m.ownerId);
    if hit || m.x < 0.0 || m.x > MAP_WIDTH || m.y < 0.0 || m.y > MAP_HEIGHT then
      l2.(bullets := RemoveAt(l2.bullets, i))
    else
      l2.(bullets := l2.bullets[i := m])
  }

  /** Every bullet advanced, in order: the positions the loop computes. */
  function AdvanceAll(bs: seq<Bullet>): (r: seq<Bullet>)
    ensures |r| == |bs|
    ensures forall k :: 0 <= k < |bs| ==> r[k] == Advanced(bs[k])
  {
    seq(|bs|, k requires 0 <= k < |bs| => Advanced(bs[k]))
  }

  /** The loop body applied to bullets n-1, n-2, …, 0, from last to first
      as the source's reverse `for` does. */
  function BulletsFrom(l: Lobby, n: nat): (r: Lobby)
    requires n <= |l.bullets|
    ensures r.zombiesRemaining - |r.zombies| == l.zombiesRemaining - |l.zombies|
    ensures |r.zombies| <= |l.zombies|
    ensures DistinctZombieIds(l.zombies) ==> DistinctZombieIds(r.zombies)
    ensures OnlyHealthChanged(l.players, r.players)
    ensures r.(players := l.players, zombies := l.zombies, zombiesRemaining := l.zombiesRemaining,
               events := l.events, bullets := l.bullets) == l
    decreases n
  {
    if n == 0 then l
    else
      var l1 := BulletStep(l, n - 1);
      StepKeepsZombies(l, n - 1);
      var r := BulletsFrom(l1, n - 1);
      OnlyHealthChangedTransitive(l.players, l1.players, r.players);
      r
  }

  /** A struck zombie is updated in place or deleted; either way the
      remaining-count tracks the list and the ids stay distinct. */
  lemma StruckKeepsZombies(l: Lobby, r: Lobby, j: nat)
    requires ZombieStruck(l, r, j)
    ensures r.zombiesRemaining - |r.zombies| == l.zombiesRemaining - |l.zombies|
    ensures DistinctZombieIds(l.zombies) ==> DistinctZombieIds(r.zombies)
  {
    if DistinctZombieIds(l.zombies) && l.zombies[j].health - BULLET_DAMAGE <= 0 {
      forall a, b | 0 <= a < b < |r.zombies| ensures r.zombies[a].id != r.zombies[b].id {
        var a' := if a < j then a else a + 1;
        var b' := if b < j then b else b + 1;
        assert r.zombies[a] == l.zombies[a'] && r.zombies[b] == l.zombies[b'];
      }
    }
  }

  lemma StepKeepsZombies(l: Lobby, i: nat)
    requires i < |l.bullets|
    ensures BulletStep(l, i).zombiesRemaining - |BulletStep(l, i).zombies| == l.zombiesRemaining - |l.zombies|
    ensures |BulletStep(l, i).zombies| <= |l.zombies|
    ensures DistinctZombieIds(l.zombies) ==> DistinctZombieIds(BulletStep(l, i).zombies)
  {
    var at := Advanced(l.bullets[i]).At();
    var z := ZombieStage(l, at);
    if HitsZombie(l.zombies, at) {
      var j :| 0 <= j < |l.zombies| && ZombieStruck(l, z, j) && InContact(at, l.zombies[j].At());
      StruckKeepsZombies(l, z, j);
    }
  }

  /** The whole bullet loop. */
  function BulletPhase(l: Lobby): (r: Lobby)
    ensures r.zombiesRemaining - |r.zombies| == l.zombiesRemaining - |l.zombies|
    ensures |r.zombies| <= |l.zombies|
    ensures DistinctZombieIds(l.zombies) ==> DistinctZombieIds(r.zombies)
    ensures OnlyHealthChanged(l.players, r.players)
    ensures r.(players := l.players, zombies := l.zombies, zombiesRemaining := l.zombiesRemaining,
               events := l.events, bullets := l.bullets) == l
  {
    BulletsFrom(l, |l.bullets|)
  }

  /** One step as a splice: bullet i is replaced by its advanced self when
      it survives and dropped otherwise. */
  lemma StepSplice(l: Lobby, i: nat)
    requires i < |l.bullets|
    ensures BulletStep(l, i).bullets[..i] == l.bullets[..i]
    ensures BulletStep(l, i).bullets[i..]
         == (if Survives(l, i) then [Advanced(l.bullets[i])] else []) + l.bullets[i + 1..]
  {
  }

  lemma AdvanceAllSnoc(bs: seq<Bullet>, n: nat)
    requires 0 < n <= |bs|
    ensures AdvanceAll(bs[..n]) == AdvanceAll(bs[..n - 1]) + [Advanced(bs[n - 1])]
  {
  }

  /** The bookkeeping of one step of the order proof, on plain sequences. */
  lemma SpliceSelect(before: seq<Bullet>, after: seq<Bullet>, out: seq<Bullet>, keep1: seq<bool>, n: nat, surv: bool)
    requires 0 < n <= |before| && |keep1| == n - 1 && n - 1 <= |after|
    requires after[..n - 1] == before[..n - 1]
    requires after[n - 1..] == (if surv then [Advanced(before[n - 1])] else []) + before[n..]
    requires out == Select(AdvanceAll(after[..n - 1]), keep1) + after[n - 1..]
    ensures out == Select(AdvanceAll(before[..n]), keep1 + [surv]) + before[n..]
  {
    var adv := Advanced(before[n - 1]);
    var prefix := AdvanceAll(before[..n - 1]);
    var mid: seq<Bullet> := if surv then [adv] else [];
    AdvanceAllSnoc(before, n);
    SelectSnoc(prefix, keep1, adv, surv);
    var sel := Select(prefix, keep1);
    assert out == sel + (mid + before[n..]);
    assert Select(AdvanceAll(before[..n]), keep1 + [surv]) == sel + mid;
  }

  /** Which of bullets 0 … n-1 survive their step, in index order. */
  ghost function KeepFlags(l: Lobby, n: nat): (r: seq<bool>)
    requires n <= |l.bullets|
    ensures |r| == n
    decreases n
  {
    if n == 0 then [] else KeepFlags(BulletStep(l, n - 1), n - 1) + [Survives(l, n - 1)]
  }

  /** The bullets left after visiting n-1 … 0 are the survivors among those
      bullets, advanced and in their original order, followed by the
      bullets not yet visited. */
  lemma {:induction false} BulletsFromOrder(l: Lobby, n: nat)
    requires n <= |l.bullets|
    ensures BulletsFrom(l, n).bullets == Select(AdvanceAll(l.bullets[..n]), KeepFlags(l, n)) + l.bullets[n..]
    decreases n
  {
    if n == 0 {
      assert l.bullets[..n] == [];
    } else {
      var l1 := BulletStep(l, n - 1);
      StepSplice(l, n - 1);
      BulletsFromOrder(l1, n - 1);
      var r := BulletsFrom(l1, n - 1);
      SpliceSelect(l.bullets, l1.bullets, r.bullets, KeepFlags(l1, n - 1), n, Survives(l, n - 1));
      assert BulletsFrom(l, n) == r;
    }
  }

  /** A bullet that survives its step is inside the closed map box. */
  lemma {:induction false} KeptOnMap(l: Lobby, n: nat)
    requires n <= |l.bullets|
    ensures forall k :: 0 <= k < n && KeepFlags(l, n)[k] ==> InMapClosed(Advanced(l.bullets[k]).At())
    decreases n
  {
    if n > 0 {
      var l1 := BulletStep(l, n - 1);
      StepSplice(l, n - 1);
      KeptOnMap(l1, n - 1);
      forall k | 0 <= k < n && KeepFlags(l, n)[k] ensures InMapClosed(Advanced(l.bullets[k]).At()) {
        if k < n - 1 {
          assert KeepFlags(l, n)[k] == KeepFlags(l1, n - 1)[k];
          assert l1.bullets[..n - 1][k] == l.bullets[..n - 1][k];
        }
      }
    }
  }

  /** After the loop every bullet is one of the old bullets advanced, the
      survivors keep their relative order, and all lie in the closed box. */
  lemma BulletPhaseSurvivors(l: Lobby)
    ensures exists keep: seq<bool> :: |keep| == |l.bullets| && BulletPhase(l).bullets == Select(AdvanceAll(l.bullets), keep)
    ensures forall k :: 0 <= k < |BulletPhase(l).bullets| ==> InMapClosed(BulletPhase(l).bullets[k].At())
  {
    var n := |l.bullets|;
    var keep := KeepFlags(l, n);
    BulletsFromOrder(l, n);
    KeptOnMap(l, n);
    assert l.bullets[..n] == l.bullets;
    assert BulletPhase(l).bullets == Select(AdvanceAll(l.bullets), keep) + [];
    SelectKeepsProperty(AdvanceAll(l.bullets), keep, (b: Bullet) => InMapClosed(b.At()));
    forall k | 0 <= k < |BulletPhase(l).bullets| ensures InMapClosed(BulletPhase(l).bullets[k].At()) {
      assert BulletPhase(l).bullets[k] in Select(AdvanceAll(l.bullets), keep);
    }
  }

  /** One step appends at most one event, and only a `zombieHit`. */
  lemma StepEvents(l: Lobby, i: nat)
    requires i < |l.bullets|
    ensures |l.events| <= |BulletStep(l, i).events| <= |l.events| + 1
    ensures BulletStep(l, i).events[..|l.events|] == l.events
    ensures forall k :: |l.events| <= k < |BulletStep(l, i).events| ==> BulletStep(l, i).events[k].ZombieHit?
  {
    var at := Advanced(l.bullets[i]).At();
    if HitsZombie(l.zombies, at) {
      var j :| 0 <= j < |l.zombies| && ZombieStruck(l, ZombieStage(l, at), j) && InContact(at, l.zombies[j].At());
    }
  }

  /** The loop only appends to the event list, and only `zombieHit` events. */
  lemma {:induction false} BulletsFromEvents(l: Lobby, n: nat)
    requires n <= |l.bullets|
    ensures |l.events| <= |BulletsFrom(l, n).events|
    ensures BulletsFrom(l, n).events[..|l.events|] == l.events
    ensures forall k :: |l.events| <= k < |BulletsFrom(l, n).events| ==> BulletsFrom(l, n).events[k].ZombieHit?
    decreases n
  {
    if n == 0 {
    } else {
      var l1 := BulletStep(l, n - 1);
      StepEvents(l, n - 1);
      BulletsFromEvents(l1, n - 1);
      var r := BulletsFrom(l1, n - 1);
      assert r.events[..|l.events|] == r.events[..|l1.events|][..|l.events|];
      forall k | |l.events| <= k < |r.events| ensures r.events[k].ZombieHit? {
        if k < |l1.events| {
          assert r.events[k] == r.events[..|l1.events|][k];
        }
      }
      assert BulletsFrom(l, n) == r;
    }
  }

  /** The source checks players even after the bullet struck a zombie, so a
      single bullet can damage a zombie and a player in the same frame. */
  lemma OneBulletTwoVictims()
    ensures var z := Zombie(1.0, 105.0, 100.0, ZOMBIE_HEALTH, "L");
      var p := Player("p", "P", 95.0, 100.0, PLAYER_HEALTH, 0.0, "idle", "pistol", 0);
      var b := Bullet(90.0, 100.0, 10.0, 0.0, "shooter");
      var l := Lobby("L", "Lobby", [p], [z], [b], "shooter", 1, 1, true, [], []);
      var r := BulletPhase(l);
      && r.zombies == [z.(health := ZOMBIE_HEALTH - BULLET_DAMAGE)]
      && r.players == [p.(health := PLAYER_HEALTH - BULLET_DAMAGE)]
      && r.events == [ZombieHit(1.0)]
      && r.bullets == []
  {
    var z := Zombie(1.0, 105.0, 100.0, ZOMBIE_HEALTH, "L");
    var p := Player("p", "P", 95.0, 100.0, PLAYER_HEALTH, 0.0, "idle", "pistol", 0);
    var b := Bullet(90.0, 100.0, 10.0, 0.0, "shooter");
    var l := Lobby("L", "Lobby", [p], [z], [b], "shooter", 1, 1, true, [], []);
    var at := Advanced(b).At();
    assert InContact(at, z.At()) && InContact(at, p.At());
    assert ZombieTarget(l.zombies, at) == Some(0);
    assert PlayerTarget(l.players, at, "shooter") == Some(0);
  }
}
