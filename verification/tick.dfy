/**
 * One lobby's turn in the server's game loop: `updateGame`, then the
 * animation-frame wrap, the outcome messages, the removal of dead players,
 * the `updateLobby` broadcast, and the flush of the lobby's queued events.
 */
module Tick {
  import opened Wrappers
  import opened Seqs
  import opened Constants
  import opened Entities
  import opened Waves
  import opened Zombies
  import opened Bullets
  import opened GameLogic
  import opened Lobbies

  /** The animation frame counts per player state. The server reads them
      from its constants module; the client's copy sets them all to 1. */
  datatype FrameCounts = FrameCounts(idle: int, shoot: int, reloadPistol: int, reloadRifle: int)

  predicate ValidFrameCounts(fc: FrameCounts)
  {
    fc.idle > 0 && fc.shoot > 0 && fc.reloadPistol > 0 && fc.reloadRifle > 0
  }

  /** The frame count that applies to a player: shooting, reloading the
      pistol or the rifle, and idle for everything else. */
  function FrameCount(p: Player, fc: FrameCounts): (n: int)
    requires ValidFrameCounts(fc)
    ensures n > 0
    ensures p.state == "shoot" ==> n == fc.shoot
    ensures p.state == "reload" && p.weapon == "pistol" ==> n == fc.reloadPistol
    ensures p.state == "reload" && p.weapon == "rifle" ==> n == fc.reloadRifle
    ensures p.state != "shoot" && (p.state != "reload" || (p.weapon != "pistol" && p.weapon != "rifle")) ==> n == fc.idle
  {
    if p.state == "shoot" then fc.shoot
    else if p.state == "reload" then
      (if p.weapon == "pistol" then fc.reloadPistol
       else if p.weapon == "rifle" then fc.reloadRifle
       else fc.idle)
    else fc.idle
  }

  /** JavaScript's `%`: the remainder takes the sign of the dividend. */
  function JsRem(a: int, n: int): (r: int)
    requires n > 0
    ensures a >= 0 ==> 0 <= r < n
    ensures a < 0 ==> -n < r <= 0
    ensures a >= 0 ==> r == a % n
    ensures a == (if a >= 0 then a / n else -((-a) / n)) * n + r
  {
    if a >= 0 then a % n
    else
      assert -a == ((-a) / n) * n + (-a) % n;
      -((-a) % n)
  }

  /** A frame value as JavaScript holds it: a number, or NaN. */
  datatype JsFrame = Frame(n: int) | NotANumber

  /** `a % d` on a frame, where `d` is None when the divisor is `undefined`:
      anything modulo `undefined` or 0 is NaN, and NaN stays NaN. */
  function JsFrameRem(a: JsFrame, d: Option<int>): (r: JsFrame)
    ensures d.None? ==> r == NotANumber
    ensures a.Frame? && d.Some? && d.value > 0 ==> r == Frame(JsRem(a.n, d.value))
  {
    match (a, d)
    case (Frame(x), Some(n)) => if n > 0 then Frame(JsRem(x, n)) else NotANumber
    case _ => NotANumber
  }

  /** One player's frame update as the server runs it: a NaN frame is reset
      to 0, then `(frame + 1) % frameCount`. The count is looked up in the
      server's constants module, which does not define the frame counts, so
      the server passes `undefined` (None). */
  function ServerFrameAsWritten(f: JsFrame, count: Option<int>): (r: JsFrame)
    ensures count.None? ==> r == NotANumber
    ensures count.Some? && count.value > 0 && f.Frame? && f.n >= 0 ==> r.Frame? && 0 <= r.n < count.value
    ensures count.Some? && count.value > 1 && f.NotANumber? ==> r == Frame(1)
  {
    var start := if f.NotANumber? then 0 else f.n;
    JsFrameRem(Frame(start + 1), count)
  }

  /** With the counts undefined, every frame the server stores is NaN,
      whatever it held before; the NaN reset never gets a number to keep. */
  lemma FramesAsWrittenAreNaN(f: JsFrame)
    ensures ServerFrameAsWritten(f, None) == NotANumber
    ensures ServerFrameAsWritten(ServerFrameAsWritten(f, None), None) == NotANumber
  {
  }

  /** With the counts defined, as in the client's constants, the update is
      the one `Animate` performs. */
  lemma FramesWithCountsMatchAnimate(ps: seq<Player>, fc: FrameCounts, j: nat)
    requires ValidFrameCounts(fc) && j < |ps|
    ensures Frame(Animate(ps, fc)[j].animationFrame)
         == ServerFrameAsWritten(Frame(ps[j].animationFrame), Some(FrameCount(ps[j], fc)))
  {
  }

  /** Advance every player's animation by one frame, wrapping at its count. */
  function Animate(ps: seq<Player>, fc: FrameCounts): (r: seq<Player>)
    requires ValidFrameCounts(fc)
    ensures |r| == |ps|
    ensures forall j :: 0 <= j < |ps| ==> r[j].(animationFrame := ps[j].animationFrame) == ps[j]
    ensures forall j :: 0 <= j < |ps| && ps[j].animationFrame >= 0 ==>
              0 <= r[j].animationFrame < FrameCount(ps[j], fc)
    ensures forall j :: 0 <= j < |ps| && ps[j].animationFrame >= 0 ==>
              r[j].animationFrame == (ps[j].animationFrame + 1) % FrameCount(ps[j], fc)
  {
    seq(|ps|, j requires 0 <= j < |ps| =>
      ps[j].(animationFrame := JsRem(ps[j].animationFrame + 1, FrameCount(ps[j], fc))))
  }

  /** Health at or below 0: the players the tick buries. */
  predicate Dead(p: Player)
  {
    p.health <= 0
  }

  predicate Alive(p: Player)
  {
    p.health > 0
  }

  /** One `playerDied` message per dead player, to that player, in the
      players' order. */
  function DeathNotices(ps: seq<Player>): (r: seq<Emit>)
    ensures var dead := Filter(ps, Dead);
      && |r| == |dead|
      && forall i :: 0 <= i < |r| ==> r[i] == Emit(Socket(dead[i].id), PlayerDied)
  {
    if |ps| == 0 then []
    else
      (if ps[0].health <= 0 then [Emit(Socket(ps[0].id), PlayerDied)] else [])
      + DeathNotices(ps[1..])
  }

  /** Advancing frames changes nobody's death notice. */
  lemma DeathNoticesIgnoreFrames(ps: seq<Player>, fc: FrameCounts)
    requires ValidFrameCounts(fc)
    ensures DeathNotices(Animate(ps, fc)) == DeathNotices(ps)
  {
    var animated := Animate(ps, fc);
    forall j | 0 <= j < |ps| ensures Dead(animated[j]) == Dead(ps[j]) && animated[j].id == ps[j].id {
      assert animated[j].(animationFrame := ps[j].animationFrame) == ps[j];
    }
    FilterPointwise(animated, ps, Dead, (a: Player, b: Player) => a.id == b.id);
  }

  /** The players left after the dead are deleted, in their original order. */
  function Survivors(ps: seq<Player>): (r: seq<Player>)
    ensures r == Select(ps, Flags(ps, Alive))
    ensures forall p :: p in r <==> p in ps && p.health > 0
  {
    FilterMembers(ps, Alive);
    Filter(ps, Alive)
  }

  /** Each queued event sent to the lobby's room under its own type. */
  function EventEmits(lobbyId: SocketId, evs: seq<Event>): (r: seq<Emit>)
    ensures |r| == |evs|
    ensures forall i :: 0 <= i < |evs| ==> r[i] == Emit(Room(lobbyId), Discrete(evs[i]))
  {
    seq(|evs|, i requires 0 <= i < |evs| => Emit(Room(lobbyId), Discrete(evs[i])))
  }

  /** The message for the outcome of `updateGame`: `gameOver` on a loss,
      `waveComplete` with the lobby's wave on a completed wave, nothing
      otherwise; always to the lobby's room. */
  function OutcomeEmits(lobbyId: SocketId, u: Update): (r: seq<Emit>)
    ensures |r| <= 1
    ensures |r| == 1 <==> u.result == Lose || u.result == WaveComplete
    ensures forall e :: e in r ==> e.to == Room(lobbyId)
    ensures u.result == Lose ==> r[0].msg == GameOver("lose")
    ensures u.result == WaveComplete ==> r[0].msg == WaveCompleted(u.lobby.wave)
  {
    match u.result
    case Lose => [Emit(Room(lobbyId), GameOver("lose"))]
    case WaveComplete => [Emit(Room(lobbyId), WaveCompleted(u.lobby.wave))]
    case _ => []
  }

  /** The lobby as the tick leaves it, before the `lose` teardown: the
      living players in their order, each with only its frame advanced
      (into range when it was not negative); everything else, the event
      queue included, as `updateGame` left it. */
  function Settled(u: Update, fc: FrameCounts): (l: Lobby)
    requires ValidFrameCounts(fc)
    ensures l.(players := u.lobby.players) == u.lobby
    ensures forall j :: 0 <= j < |l.players| ==> l.players[j].health > 0
    ensures var live := Filter(u.lobby.players, Alive);
      && |l.players| == |live|
      && forall i :: 0 <= i < |live| ==>
           && l.players[i].(animationFrame := live[i].animationFrame) == live[i]
           && (live[i].animationFrame >= 0 ==> 0 <= l.players[i].animationFrame < FrameCount(live[i], fc))
  {
    var ps := u.lobby.players;
    var animated := Animate(ps, fc);
    forall j | 0 <= j < |ps|
      ensures Alive(animated[j]) == Alive(ps[j])
      ensures animated[j].(animationFrame := ps[j].animationFrame) == ps[j]
      ensures ps[j].animationFrame >= 0 ==> 0 <= animated[j].animationFrame < FrameCount(ps[j], fc)
    {
      assert animated[j].(animationFrame := ps[j].animationFrame) == ps[j];
    }
    FilterPointwise(animated, ps, Alive, (a: Player, b: Player) =>
      a.(animationFrame := b.animationFrame) == b
      && (b.animationFrame >= 0 ==> 0 <= a.animationFrame < FrameCount(b, fc)));
    u.lobby.(players := Survivors(animated))
  }

  /** The messages one lobby's tick sends, in order, given the lobby it
      settles on. Death notices depend on health alone, so they are read
      off the players as `updateGame` left them (`DeathNoticesIgnoreFrames`). */
  function TickEmits(id: SocketId, u: Update, settled: Lobby): seq<Emit>
  {
    OutcomeEmits(id, u) + DeathNotices(u.lobby.players)
    + [Emit(Room(id), UpdateLobby(settled))] + EventEmits(id, u.lobby.events)
  }

  /** The tick body for the lobby at index k.

      The registry: on `'lose'` (a started game with no players left) the
      lobby is deleted; otherwise it alone is rewritten, with an empty event
      queue and only living players, and it stays consistent.

      The messages are `TickEmits` of the settled lobby, whose order the
      `TickEmits*` lemmas below pin down: the outcome, one `playerDied`
      per dead player, exactly one `updateLobby` carrying the settled lobby
      with its queue still full, then the queued events. A lost lobby
      still gets the last three, after it has left the registry. */
  function TickLobby(reg: Registry, k: nat, mv: Mover, rng: Rng, fc: FrameCounts): (r: Reply)
    requires k < |reg| && ValidRng(rng) && ValidFrameCounts(fc)
    ensures var u := UpdateGame(reg[k], mv, rng);
      && (u.result == Lose <==> reg[k].gameStarted && |reg[k].players| == 0)
      && (u.result == Lose ==> r.lobbies == RemoveAt(reg, k))
      && (u.result != Lose ==>
            && |r.lobbies| == |reg|
            && (forall i :: 0 <= i < |reg| && i != k ==> r.lobbies[i] == reg[i])
            && r.lobbies[k] == Settled(u, fc).(events := [])
            && r.lobbies[k].events == []
            && (forall j :: 0 <= j < |r.lobbies[k].players| ==> r.lobbies[k].players[j].health > 0)
            && (LobbyInvariant(reg[k]) ==>
                  && LobbyInvariant(r.lobbies[k])
                  && forall j :: 0 <= j < |r.lobbies[k].players| ==>
                       0 <= r.lobbies[k].players[j].animationFrame < FrameCount(r.lobbies[k].players[j], fc)))
    ensures r.emits == TickEmits(reg[k].id, UpdateGame(reg[k], mv, rng), Settled(UpdateGame(reg[k], mv, rng), fc))
  {
    var u := UpdateGame(reg[k], mv, rng);
    var id := reg[k].id;
    var settled := Settled(u, fc);
    var emits := OutcomeEmits(id, u) + DeathNotices(Animate(u.lobby.players, fc))
                 + [Emit(Room(id), UpdateLobby(settled))] + EventEmits(id, settled.events);
    DeathNoticesIgnoreFrames(u.lobby.players, fc);
    SettledKeepsInvariant(reg[k], mv, rng, fc);
    if u.result == Lose then Reply(RemoveAt(reg, k), emits)
    else Reply(reg[k := settled.(events := [])], emits)
  }

  /** A consistent lobby stays consistent through `updateGame` and the
      settling, with every frame in range. */
  lemma SettledKeepsInvariant(l: Lobby, mv: Mover, rng: Rng, fc: FrameCounts)
    requires ValidRng(rng) && ValidFrameCounts(fc)
    ensures var settled := Settled(UpdateGame(l, mv, rng), fc);
      LobbyInvariant(l) ==>
        && LobbyInvariant(settled.(events := []))
        && forall j :: 0 <= j < |settled.players| ==>
             0 <= settled.players[j].animationFrame < FrameCount(settled.players[j], fc)
  {
    if LobbyInvariant(l) {
      UpdateGameKeepsInvariant(l, mv, rng);
      SettledIsClean(UpdateGame(l, mv, rng), fc);
    }
  }

  /** A completed wave is announced with the wave the lobby moves on to. */
  lemma TickAnnouncesNextWave(reg: Registry, k: nat, mv: Mover, rng: Rng, fc: FrameCounts)
    requires k < |reg| && ValidRng(rng) && ValidFrameCounts(fc)
    ensures var r := TickLobby(reg, k, mv, rng, fc);
      && |r.emits| > 0
      && (r.emits[0] == Emit(Room(reg[k].id), WaveCompleted(reg[k].wave + 1))
          <==> UpdateGame(reg[k], mv, rng).result == WaveComplete)
  {
    var u := UpdateGame(reg[k], mv, rng);
    TickEmitsOutcome(reg[k].id, u, Settled(u, fc));
  }

  /** The tick's message count, and its first message: `gameOver`
      exactly on a loss, `waveComplete` with the wave exactly on a
      completed wave. */
  lemma TickEmitsOutcome(id: SocketId, u: Update, settled: Lobby)
    ensures var all := TickEmits(id, u, settled);
      var o := if u.result == Lose || u.result == WaveComplete then 1 else 0;
      && |all| == o + |Filter(u.lobby.players, Dead)| + 1 + |u.lobby.events|
      && (all[0] == Emit(Room(id), GameOver("lose")) <==> u.result == Lose)
      && (all[0] == Emit(Room(id), WaveCompleted(u.lobby.wave)) <==> u.result == WaveComplete)
  {
    EmitLayout(id, u, Filter(u.lobby.players, Dead), DeathNotices(u.lobby.players),
               Emit(Room(id), UpdateLobby(settled)), u.lobby.events);
  }

  /** After the outcome, one `playerDied` per dead player, in order. */
  lemma TickEmitsDeaths(id: SocketId, u: Update, settled: Lobby)
    ensures var all := TickEmits(id, u, settled);
      var dead := Filter(u.lobby.players, Dead);
      var o := if u.result == Lose || u.result == WaveComplete then 1 else 0;
      && o + |dead| < |all|
      && forall i :: 0 <= i < |dead| ==> all[o + i] == Emit(Socket(dead[i].id), PlayerDied)
  {
    EmitLayout(id, u, Filter(u.lobby.players, Dead), DeathNotices(u.lobby.players),
               Emit(Room(id), UpdateLobby(settled)), u.lobby.events);
  }

  /** Then the single `updateLobby`, and no other message of that kind. */
  lemma TickEmitsUpdate(id: SocketId, u: Update, settled: Lobby)
    ensures var all := TickEmits(id, u, settled);
      var o := if u.result == Lose || u.result == WaveComplete then 1 else 0;
      var at := o + |Filter(u.lobby.players, Dead)|;
      && at < |all|
      && all[at] == Emit(Room(id), UpdateLobby(settled))
      && forall i :: 0 <= i < |all| && all[i].msg.UpdateLobby? ==> i == at
  {
    EmitLayout(id, u, Filter(u.lobby.players, Dead), DeathNotices(u.lobby.players),
               Emit(Room(id), UpdateLobby(settled)), u.lobby.events);
  }

  /** Then the queued events, in queue order, closing the list. */
  lemma TickEmitsEvents(id: SocketId, u: Update, settled: Lobby)
    ensures var all := TickEmits(id, u, settled);
      var evs := u.lobby.events;
      var o := if u.result == Lose || u.result == WaveComplete then 1 else 0;
      var at := o + |Filter(u.lobby.players, Dead)| + 1;
      && at + |evs| == |all|
      && forall i :: 0 <= i < |evs| ==> all[at + i] == Emit(Room(id), Discrete(evs[i]))
  {
    var all := TickEmits(id, u, settled);
    var head := OutcomeEmits(id, u) + DeathNotices(u.lobby.players) + [Emit(Room(id), UpdateLobby(settled))];
    var events := EventEmits(id, u.lobby.events);
    assert all == head + events;
    assert |head| == (if u.result == Lose || u.result == WaveComplete then 1 else 0) + |Filter(u.lobby.players, Dead)| + 1;
    forall i | 0 <= i < |events| ensures all[|head| + i] == events[i] {
    }
  }

  /** The layout of outcome, death notices, one update and the events,
      stated for any death notices and any update message. */
  lemma EmitLayout(id: SocketId, u: Update, dead: seq<Player>, deaths: seq<Emit>, update: Emit, evs: seq<Event>)
    requires |deaths| == |dead|
    requires forall i :: 0 <= i < |deaths| ==> deaths[i] == Emit(Socket(dead[i].id), PlayerDied)
    requires update.msg.UpdateLobby?
    ensures var all := OutcomeEmits(id, u) + deaths + [update] + EventEmits(id, evs);
      var o := if u.result == Lose || u.result == WaveComplete then 1 else 0;
      && |all| == o + |dead| + 1 + |evs|
      && (all[0] == Emit(Room(id), GameOver("lose")) <==> u.result == Lose)
      && (all[0] == Emit(Room(id), WaveCompleted(u.lobby.wave)) <==> u.result == WaveComplete)
      && (forall i :: 0 <= i < |dead| ==> all[o + i] == Emit(Socket(dead[i].id), PlayerDied))
      && all[o + |dead|] == update
      && (forall i :: 0 <= i < |all| && all[i].msg.UpdateLobby? ==> i == o + |dead|)
      && (forall i :: 0 <= i < |evs| ==> all[o + |dead| + 1 + i] == Emit(Room(id), Discrete(evs[i])))
  {
    var outcome := OutcomeEmits(id, u);
    var events := EventEmits(id, evs);
    assert forall e :: e in deaths ==> e.msg.PlayerDied?;
    TickEmitOrder(outcome, deaths, update, events);
    var all := outcome + deaths + [update] + events;
    if |outcome| == 0 {
      assert !all[0].msg.GameOver? && !all[0].msg.WaveCompleted? by {
        if |deaths| > 0 { assert all[0] == deaths[0]; } else { assert all[0] == update; }
      }
    } else {
      assert all[0] == outcome[0];
    }
  }

  /** Where the `updateLobby` message sits among the tick's messages: after
      the outcome and the death notices, and nowhere else. */
  lemma TickEmitOrder(outcome: seq<Emit>, deaths: seq<Emit>, update: Emit, events: seq<Emit>)
    requires forall e :: e in outcome ==> !e.msg.UpdateLobby?
    requires forall e :: e in deaths ==> !e.msg.UpdateLobby?
    requires forall e :: e in events ==> !e.msg.UpdateLobby?
    ensures var all := outcome + deaths + [update] + events;
      && |all| == |outcome| + |deaths| + 1 + |events|
      && all[|outcome| + |deaths|] == update
      && (forall i :: 0 <= i < |outcome| ==> all[i] == outcome[i])
      && (forall i :: 0 <= i < |deaths| ==> all[|outcome| + i] == deaths[i])
      && (forall i :: 0 <= i < |events| ==> all[|outcome| + |deaths| + 1 + i] == events[i])
      && (forall i :: 0 <= i < |all| && all[i].msg.UpdateLobby? ==> i == |outcome| + |deaths|)
  {
  }

  /** Each settled player is the living player at the same position, with
      its frame now within its count when it started non-negative. */
  lemma SettledPlayers(u: Update, fc: FrameCounts)
    requires ValidFrameCounts(fc)
    requires forall j :: 0 <= j < |u.lobby.players| ==> u.lobby.players[j].animationFrame >= 0
    ensures var l := Settled(u, fc);
      var live := Filter(u.lobby.players, Alive);
      forall j :: 0 <= j < |l.players| ==>
        && 0 <= l.players[j].animationFrame < FrameCount(l.players[j], fc)
        && l.players[j].id == live[j].id && l.players[j].name == live[j].name
  {
    var ps := u.lobby.players;
    var live := Filter(ps, Alive);
    var l := Settled(u, fc);
    FilterMembers(ps, Alive);
    forall j | 0 <= j < |l.players|
      ensures 0 <= l.players[j].animationFrame < FrameCount(l.players[j], fc)
      ensures l.players[j].id == live[j].id && l.players[j].name == live[j].name
    {
      var q, p := l.players[j], live[j];
      assert q.(animationFrame := p.animationFrame) == p;
      assert p in live && p in ps;
      var m :| 0 <= m < |ps| && ps[m] == p;
      assert p.animationFrame >= 0;
      assert 0 <= q.animationFrame < FrameCount(p, fc);
      SameFrameCount(p, q, fc);
    }
  }

  lemma SameFrameCount(p: Player, q: Player, fc: FrameCounts)
    requires ValidFrameCounts(fc)
    requires q.(animationFrame := p.animationFrame) == p
    ensures FrameCount(q, fc) == FrameCount(p, fc) && q.id == p.id && q.name == p.name
  {
    assert q.state == p.state && q.weapon == p.weapon;
  }

  /** The settled lobby has no player at or below 0 health, every frame
      within its count, and the lobby invariant. */
  lemma SettledIsClean(u: Update, fc: FrameCounts)
    requires ValidFrameCounts(fc)
    requires LobbyInvariant(u.lobby)
    ensures var l := Settled(u, fc);
      && (forall j :: 0 <= j < |l.players| ==> l.players[j].health > 0)
      && (forall j :: 0 <= j < |l.players| ==> 0 <= l.players[j].animationFrame < FrameCount(l.players[j], fc))
      && LobbyInvariant(l.(events := []))
  {
    var ps := u.lobby.players;
    var live := Filter(ps, Alive);
    var l := Settled(u, fc);
    SettledPlayers(u, fc);
    FilterKeepsDistinct(ps, Alive, (x: Player) => x.id);
    FilterKeepsDistinct(ps, Alive, (x: Player) => x.name);
    assert DistinctPlayerIds(l.players) by {
      forall a, b | 0 <= a < b < |l.players| ensures l.players[a].id != l.players[b].id {
        assert live[a].id != live[b].id;
      }
    }
    assert DistinctPlayerNames(l.players) by {
      forall a, b | 0 <= a < b < |l.players| ensures l.players[a].name != l.players[b].name {
        assert live[a].name != live[b].name;
      }
    }
  }

  /** The tick keeps the registry invariant: the lobby is either deleted or
      written back with its ids, names and counts still consistent. */
  lemma TickKeepsInvariant(reg: Registry, k: nat, mv: Mover, rng: Rng, fc: FrameCounts)
    requires k < |reg| && ValidRng(rng) && ValidFrameCounts(fc)
    requires RegistryInvariant(reg)
    ensures RegistryInvariant(TickLobby(reg, k, mv, rng, fc).lobbies)
  {
    var u := UpdateGame(reg[k], mv, rng);
    var r := TickLobby(reg, k, mv, rng, fc).lobbies;
    if u.result == Lose {
      assert r == RemoveAt(reg, k);
      RemoveLobbyKeepsInvariant(reg, k);
    } else {
      var kept := Settled(u, fc).(events := []);
      assert r == reg[k := kept];
      assert kept.id == reg[k].id && kept.name == reg[k].name && kept.admin == reg[k].admin;
      RewriteLobbyKeepsInvariant(reg, k, kept);
    }
  }

  /** A lobby leaves the registry on its tick exactly when its game had
      started and it had no players when the tick began. */
  lemma TickRemovesIffLost(reg: Registry, k: nat, mv: Mover, rng: Rng, fc: FrameCounts)
    requires k < |reg| && ValidRng(rng) && ValidFrameCounts(fc)
    requires DistinctLobbyIds(reg)
    ensures LobbyIndex(TickLobby(reg, k, mv, rng, fc).lobbies, reg[k].id).None?
        <==> reg[k].gameStarted && |reg[k].players| == 0
  {
    var u := UpdateGame(reg[k], mv, rng);
    var r := TickLobby(reg, k, mv, rng, fc).lobbies;
    if u.result == Lose {
      assert r == RemoveAt(reg, k);
      forall i | 0 <= i < |r| ensures r[i].id != reg[k].id {
        var i' := if i < k then i else i + 1;
        assert r[i] == reg[i'];
      }
    } else {
      assert r[k] == Settled(u, fc).(events := []);
      assert r[k].id == reg[k].id;
    }
  }

  /** A started one-player lobby whose player stands on a zombie with 1
      health left. */
  function LastStand(): Lobby
  {
    var p := Player("p", "P", 100.0, 100.0, 1, 0.0, "idle", "pistol", 0);
    var z := Zombie(7.0, 100.0, 100.0, ZOMBIE_HEALTH, "L");
    Lobby("L", "Lobby", [p], [z], [], "L", 1, 1, true, [], [])
  }

  /** The tick that kills the last player buries it, keeps the lobby and
      tells the player, without reporting a loss. */
  lemma LastBiteKeepsLobby(mv: Mover, rng: Rng, fc: FrameCounts)
    requires ValidRng(rng) && ValidFrameCounts(fc)
    ensures var first := TickLobby([LastStand()], 0, mv, rng, fc);
      && |first.lobbies| == 1 && first.lobbies[0].players == [] && first.lobbies[0].gameStarted
      && Emit(Socket("p"), PlayerDied) in first.emits
      && first.emits[0] != Emit(Room("L"), GameOver("lose"))
  {
    var l := LastStand();
    var p := l.players[0];
    var z := l.zombies[0];
    var bitten := p.(health := 0);
    assert Nearest(Positions([p]), z.At()) == 0;
    var step := ZombieStep(z, [p], mv);
    assert step.players == [bitten];
    assert [z][1..] == [];
    assert ZombiePhase([z], [p], mv).players == step.players;
    var a := ZombiesAct(l, mv);
    assert a.players == [bitten];
    var b := BulletPhase(a);
    assert b == a;
    var u := UpdateGame(l, mv, rng);
    assert u.result == Ongoing && u.lobby.players == [bitten];
    var animated := Animate(u.lobby.players, fc);
    assert animated[0].health == 0;
    assert Survivors(animated) == [];
    var settled := Settled(u, fc);
    TickEmitsOutcome("L", u, settled);
    TickEmitsDeaths("L", u, settled);
    assert Filter(u.lobby.players, Dead) == [bitten];
  }

  /** `'lose'` comes one tick late: the tick that kills the last player
      removes it and keeps the lobby; only the next tick reports the loss and
      deletes the lobby. */
  lemma LoseOneTickLate(mv: Mover, rng: Rng, fc: FrameCounts)
    requires ValidRng(rng) && ValidFrameCounts(fc)
    ensures var first := TickLobby([LastStand()], 0, mv, rng, fc);
      var second := TickLobby(first.lobbies, 0, mv, rng, fc);
      && |first.lobbies| == 1 && first.lobbies[0].players == []
      && Emit(Socket("p"), PlayerDied) in first.emits
      && first.emits[0] != Emit(Room("L"), GameOver("lose"))
      && second.lobbies == []
      && second.emits[0] == Emit(Room("L"), GameOver("lose"))
  {
    LastBiteKeepsLobby(mv, rng, fc);
    var first := TickLobby([LastStand()], 0, mv, rng, fc);
    var u := UpdateGame(first.lobbies[0], mv, rng);
    assert u.result == Lose;
    TickEmitsOutcome(first.lobbies[0].id, u, Settled(u, fc));
  }
}
