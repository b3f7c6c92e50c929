/**
 * The zombie half of `updateGame`: every zombie, in order, targets the
 * nearest player, steps towards it, and bites it when the distance measured
 * BEFORE the step is below CONTACT_RANGE. The step itself (`atan2`, `cos`,
 * `sin`) is floating-point trigonometry and is an input `mv`: given the
 * zombie's and the target's positions it returns the zombie's new position.
 */
module Zombies {
  import opened Wrappers
  import opened Constants
  import opened Geometry
  import opened Entities

  type Mover = (Pos, Pos) -> Pos

  /** k is the first index at minimum distance from `from`. */
  ghost predicate IsNearest(pts: seq<Pos>, from: Pos, k: nat)
  {
    && k < |pts|
    && (forall j :: 0 <= j < |pts| ==> DistSq(pts[k], from) <= DistSq(pts[j], from))
    && (forall j :: 0 <= j < k ==> DistSq(pts[k], from) < DistSq(pts[j], from))
  }

  lemma NearestIsUnique(pts: seq<Pos>, from: Pos, k1: nat, k2: nat)
    requires IsNearest(pts, from, k1) && IsNearest(pts, from, k2)
    ensures k1 == k2
  {
    var d1, d2 := DistSq(pts[k1], from), DistSq(pts[k2], from);
  }

  /** The search loop after it has looked at the first n players: it starts
      from `Infinity` and replaces the best only on a strictly smaller
      distance, so the first of several equally near players wins. */
  function NearestAmong(pts: seq<Pos>, from: Pos, n: nat): (k: nat)
    requires 0 < n <= |pts|
    ensures k < n
    ensures forall j :: 0 <= j < n ==> DistSq(pts[k], from) <= DistSq(pts[j], from)
    ensures forall j :: 0 <= j < k ==> DistSq(pts[k], from) < DistSq(pts[j], from)
  {
    if n == 1 then 0
    else
      var best := NearestAmong(pts, from, n - 1);
      if DistSq(pts[n - 1], from) < DistSq(pts[best], from) then n - 1 else best
  }

  function Nearest(pts: seq<Pos>, from: Pos): (k: nat)
    requires |pts| > 0
    ensures IsNearest(pts, from, k)
  {
    NearestAmong(pts, from, |pts|)
  }

  /** One zombie's step: the zombie, the players afterwards, and the bite
      event it queued, if any. */
  datatype Chase = Chase(zombie: Zombie, players: seq<Player>, bites: seq<Event>)

  function ZombieStep(z: Zombie, ps: seq<Player>, mv: Mover): (r: Chase)
    ensures OnlyHealthChanged(ps, r.players)
    ensures r.zombie.(x := z.x, y := z.y) == z
    ensures |ps| == 0 ==> r == Chase(z, ps, [])
    ensures |ps| > 0 ==>
      var k := Nearest(Positions(ps), z.At());
      && r.zombie.At() == mv(z.At(), ps[k].At())
      && (forall j :: 0 <= j < |ps| && j != k ==> r.players[j] == ps[j])
      && (InContact(ps[k].At(), z.At()) ==>
            r.players[k].health == ps[k].health - ZOMBIE_DAMAGE && r.bites == [ZombieBite(ps[k].id)])
      && (!InContact(ps[k].At(), z.At()) ==> r.players == ps && r.bites == [])
  {
    if |ps| == 0 then Chase(z, ps, [])
    else
      var k := Nearest(Positions(ps), z.At());
      var target := ps[k];
      var minDistanceSq := DistSq(target.At(), z.At());
      var to := mv(z.At(), target.At());
      var moved := z.(x := to.x, y := to.y);
      if minDistanceSq < CONTACT_RANGE * CONTACT_RANGE then
        Chase(moved, ps[k := target.(health := target.health - ZOMBIE_DAMAGE)], [ZombieBite(target.id)])
      else
        Chase(moved, ps, [])
  }

  /** Reference definitions of what the whole zombie loop does, stated per
      zombie against the players' positions at the start of the tick. */
  function BiteTarget(pts: seq<Pos>, from: Pos): (r: Option<nat>)
    ensures r.Some? ==> IsNearest(pts, from, r.value) && InContact(pts[r.value], from)
    ensures r.None? ==> |pts| == 0 || !InContact(pts[Nearest(pts, from)], from)
  {
    if |pts| == 0 then None
    else
      var k := Nearest(pts, from);
      if InContact(pts[k], from) then Some(k) else None
  }

  /** How many of the zombies bite player j. */
  function BiteCount(zs: seq<Zombie>, pts: seq<Pos>, j: nat): nat
  {
    if |zs| == 0 then 0
    else (if BiteTarget(pts, zs[0].At()) == Some(j) then 1 else 0) + BiteCount(zs[1..], pts, j)
  }

  /** The bite events the zombies queue, in zombie order. */
  function BiteEvents(zs: seq<Zombie>, ps: seq<Player>): seq<Event>
  {
    if |zs| == 0 then []
    else
      (match BiteTarget(Positions(ps), zs[0].At())
       case Some(k) => [ZombieBite(ps[k].id)]
       case None => [])
      + BiteEvents(zs[1..], ps)
  }

  lemma SamePositions(ps: seq<Player>, qs: seq<Player>)
    requires OnlyHealthChanged(ps, qs)
    ensures Positions(ps) == Positions(qs)
  {
    assert forall j :: 0 <= j < |ps| ==> qs[j].At() == ps[j].At() by {
      forall j | 0 <= j < |ps| ensures qs[j].At() == ps[j].At() {
        assert qs[j].(health := ps[j].health) == ps[j];
      }
    }
  }

  /** Health changes do not change who is bitten. */
  lemma {:induction false} BiteEventsIgnoreHealth(zs: seq<Zombie>, ps: seq<Player>, qs: seq<Player>)
    requires OnlyHealthChanged(ps, qs)
    ensures BiteEvents(zs, ps) == BiteEvents(zs, qs)
  {
    SamePositions(ps, qs);
    if |zs| > 0 {
      var t := BiteTarget(Positions(ps), zs[0].At());
      if t.Some? {
        assert qs[t.value].(health := ps[t.value].health) == ps[t.value];
      }
      BiteEventsIgnoreHealth(zs[1..], ps, qs);
    }
  }

  /** Where a zombie steps depends on the players' positions only. */
  lemma StepIgnoresHealth(z: Zombie, ps: seq<Player>, qs: seq<Player>, mv: Mover)
    requires OnlyHealthChanged(ps, qs)
    ensures ZombieStep(z, ps, mv).zombie == ZombieStep(z, qs, mv).zombie
  {
    SamePositions(ps, qs);
  }

  /** One zombie step agrees with the reference definitions. */
  lemma StepMatchesBiteTarget(z: Zombie, ps: seq<Player>, mv: Mover)
    ensures var s := ZombieStep(z, ps, mv);
            && s.bites == BiteEvents([z], ps)
            && forall j :: 0 <= j < |ps| ==>
                 s.players[j].health == ps[j].health - ZOMBIE_DAMAGE * BiteCount([z], Positions(ps), j)
  {
    assert [z][1..] == [];
  }

  /** The moved zombies and players after the whole zombie loop. */
  datatype Horde = Horde(zombies: seq<Zombie>, players: seq<Player>, bites: seq<Event>)

  /** The zombie loop of `updateGame`: zombies in order, each against the
      players as the zombies before it left them. */
  function ZombiePhase(zs: seq<Zombie>, ps: seq<Player>, mv: Mover): (r: Horde)
    ensures |r.zombies| == |zs|
    ensures forall i :: 0 <= i < |zs| ==> r.zombies[i].(x := zs[i].x, y := zs[i].y) == zs[i]
    ensures OnlyHealthChanged(ps, r.players)
  {
    if |zs| == 0 then Horde([], ps, [])
    else
      var s := ZombieStep(zs[0], ps, mv);
      var rest := ZombiePhase(zs[1..], s.players, mv);
      OnlyHealthChangedTransitive(ps, s.players, rest.players);
      Horde([s.zombie] + rest.zombies, rest.players, s.bites + rest.bites)
  }

  /** Each zombie moves as if it were the only one: its step depends on the
      players' positions, which the loop never changes. */
  lemma {:induction false} ZombiePhaseMoves(zs: seq<Zombie>, ps: seq<Player>, mv: Mover)
    ensures forall i :: 0 <= i < |zs| ==> ZombiePhase(zs, ps, mv).zombies[i] == ZombieStep(zs[i], ps, mv).zombie
  {
    if |zs| > 0 {
      var s := ZombieStep(zs[0], ps, mv);
      ZombiePhaseMoves(zs[1..], s.players, mv);
      forall i | 1 <= i < |zs| ensures ZombiePhase(zs, ps, mv).zombies[i] == ZombieStep(zs[i], ps, mv).zombie {
        assert zs[1..][i - 1] == zs[i];
        StepIgnoresHealth(zs[i], ps, s.players, mv);
      }
    }
  }

  /** Every player loses ZOMBIE_DAMAGE once per zombie that bites it. */
  lemma {:induction false} ZombiePhaseDamage(zs: seq<Zombie>, ps: seq<Player>, mv: Mover)
    ensures forall j :: 0 <= j < |ps| ==>
              ZombiePhase(zs, ps, mv).players[j].health == ps[j].health - ZOMBIE_DAMAGE * BiteCount(zs, Positions(ps), j)
  {
    if |zs| > 0 {
      var s := ZombieStep(zs[0], ps, mv);
      ZombiePhaseDamage(zs[1..], s.players, mv);
      SamePositions(ps, s.players);
      StepMatchesBiteTarget(zs[0], ps, mv);
      assert [zs[0]][1..] == [];
    }
  }

  /** The bite events are queued in zombie order, one per biting zombie. */
  lemma {:induction false} ZombiePhaseBites(zs: seq<Zombie>, ps: seq<Player>, mv: Mover)
    ensures ZombiePhase(zs, ps, mv).bites == BiteEvents(zs, ps)
  {
    if |zs| > 0 {
      var s := ZombieStep(zs[0], ps, mv);
      ZombiePhaseBites(zs[1..], s.players, mv);
      StepMatchesBiteTarget(zs[0], ps, mv);
      assert [zs[0]][1..] == [];
      BiteEventsIgnoreHealth(zs[1..], ps, s.players);
    }
  }

  /** With nobody to chase, the zombie loop changes nothing. */
  lemma NoPlayersNoChange(zs: seq<Zombie>, mv: Mover)
    ensures ZombiePhase(zs, [], mv) == Horde(zs, [], [])
  {
  }
}
