/**
 * The lobby life-cycle handlers of the server: `createLobby`, `startGame`,
 * `joinLobby`, `approveJoin` and `disconnect`. Each takes the registry and
 * the sender's socket id and returns the new registry with the messages it
 * sends.
 */
module LobbyCommands {
  import opened Wrappers
  import opened Seqs
  import opened Constants
  import opened Geometry
  import opened Names
  import opened Entities
  import opened Waves
  import opened Lobbies

  /** The lobby `createLobby` stores before its admin is placed in it. */
  function EmptyLobby(id: SocketId, name: string): (l: Lobby)
    ensures l.id == id && l.admin == id && l.name == name
    ensures l.wave == 0 && l.zombiesRemaining == 0 && !l.gameStarted
    ensures l.players == [] && l.zombies == [] && l.bullets == [] && l.events == [] && l.dirtPatches == []
  {
    Lobby(id, name, [], [], [], id, 0, 0, false, [], [])
  }

  /** `createLobby`. A missing name (the empty string here) is refused;
      otherwise the lobby keyed by the sender's id is created, or replaced
      in place if the sender already had one, under a name no lobby has. */
  function CreateLobby(reg: Registry, sender: SocketId, lobbyName: string, playerName: string, sp: Spawner): (r: Reply)
    ensures lobbyName == "" || playerName == "" ==>
              r == Reply(reg, [Emit(Socket(sender), CreateLobbyError(MISSING_NAMES))])
    ensures lobbyName != "" && playerName != "" ==>
              && LobbyIndex(r.lobbies, sender).Some?
              && var l := r.lobbies[LobbyIndex(r.lobbies, sender).value];
              && LobbyIndex(r.lobbies, sender)
                   == (if LobbyIndex(reg, sender).Some? then LobbyIndex(reg, sender) else Some(|reg|))
              && |r.lobbies| == (if LobbyIndex(reg, sender).Some? then |reg| else |reg| + 1)
              && var l := r.lobbies[LobbyIndex(r.lobbies, sender).value];
              && l.id == sender && l.admin == sender
              && l.name == UniqueName(lobbyName, LobbyNames(reg))
              && l.name !in LobbyNames(reg)
              && (lobbyName !in LobbyNames(reg) ==> l.name == lobbyName)
              && l.wave == 0 && l.zombiesRemaining == 0 && !l.gameStarted
              && l.zombies == [] && l.bullets == [] && l.events == [] && l.dirtPatches == []
              && |l.players| == 1 && l.players[0] == NewPlayer(sender, playerName, Candidate(sp, 0))
              && r.emits == [Emit(Everyone, LobbyDirectory(r.lobbies)), Emit(Socket(sender), LobbyCreated(l, lobbyName))]
    ensures |reg| <= |r.lobbies| <= |reg| + 1
    ensures forall i :: 0 <= i < |reg| && reg[i].id != sender ==> r.lobbies[i] == reg[i]
  {
    if lobbyName == "" || playerName == "" then
      Reply(reg, [Emit(Socket(sender), CreateLobbyError(MISSING_NAMES))])
    else
      var name := UniqueName(lobbyName, LobbyNames(reg));
      var p := NewPlayer(sender, playerName, PlaceFrom([], sp, 0, 0));
      var l := EmptyLobby(sender, name).(players := [p]);
      var lobbies := Upsert(reg, KeyedBy(sender), l);
      UpsertFinds(reg, KeyedBy(sender), l);
      Reply(lobbies, [Emit(Everyone, LobbyDirectory(lobbies)), Emit(Socket(sender), LobbyCreated(l, lobbyName))])
  }

  /** `startGame`: only the admin of an existing lobby that has not started
      may start it; the game starts at wave 1 with its first wave spawned. */
  function StartGame(reg: Registry, sender: SocketId, lobbyId: SocketId, rng: Rng): (r: Reply)
    requires ValidRng(rng)
    ensures r.lobbies == reg || r.emits != []
    ensures LobbyIndex(reg, lobbyId).None? ==> r == Reply(reg, [])
    ensures LobbyIndex(reg, lobbyId).Some? ==>
              var k := LobbyIndex(reg, lobbyId).value;
              && (reg[k].admin != sender || reg[k].gameStarted ==> r == Reply(reg, []))
              && (reg[k].admin == sender && !reg[k].gameStarted ==>
                    && r.lobbies == reg[k := SpawnWave(reg[k].(gameStarted := true, wave := 1), rng)]
                    && r.emits == [Emit(Room(lobbyId), GameStarted(r.lobbies[k]))])
  {
    match LobbyIndex(reg, lobbyId)
    case None => Reply(reg, [])
    case Some(k) =>
      var l := reg[k];
      if l.admin != sender || l.gameStarted then Reply(reg, [])
      else
        var started := SpawnWave(l.(gameStarted := true, wave := 1), rng);
        Reply(reg[k := started], [Emit(Room(lobbyId), GameStarted(started))])
  }

  /** `joinLobby` never changes the registry: it either refuses the sender
      or forwards the request to the lobby's admin. */
  function JoinLobby(reg: Registry, sender: SocketId, lobbyId: SocketId, playerName: string): (r: Reply)
    ensures r.lobbies == reg && |r.emits| == 1
    ensures LobbyIndex(reg, lobbyId).None? ==> r.emits == [Emit(Socket(sender), JoinLobbyError(NO_SUCH_LOBBY))]
    ensures LobbyIndex(reg, lobbyId).Some? ==>
              var l := reg[LobbyIndex(reg, lobbyId).value];
              && (playerName in PlayerNames(l.players) ==>
                    r.emits == [Emit(Socket(sender), JoinLobbyError(NAME_TAKEN))])
              && (playerName !in PlayerNames(l.players) ==>
                    r.emits == [Emit(Socket(l.admin), JoinRequest(sender, playerName, lobbyId))])
  {
    match LobbyIndex(reg, lobbyId)
    case None => Reply(reg, [Emit(Socket(sender), JoinLobbyError(NO_SUCH_LOBBY))])
    case Some(k) =>
      var l := reg[k];
      if playerName in PlayerNames(l.players) then Reply(reg, [Emit(Socket(sender), JoinLobbyError(NAME_TAKEN))])
      else Reply(reg, [Emit(Socket(l.admin), JoinRequest(sender, playerName, lobbyId))])
  }

  /** The placement loop of `approveJoin` ends: some attempt finds a free spot
      in the lobby being joined. */
  ghost predicate PlacementEnds(reg: Registry, lobbyId: SocketId, sp: Spawner, bound: nat)
  {
    LobbyIndex(reg, lobbyId).Some? ==> FreeSpot(reg[LobbyIndex(reg, lobbyId).value].players, Candidate(sp, bound))
  }

  /** `approveJoin`: the admin of an existing lobby admits a player whose
      socket is still connected (`connected`), under a name no player of the
      lobby has, at a spot no player occupies. An existing entry for the same
      socket id is overwritten in place. */
  function ApproveJoin(reg: Registry, sender: SocketId, playerId: SocketId, lobbyId: SocketId, playerName: string,
                       connected: bool, sp: Spawner, ghost bound: nat): (r: Reply)
    requires PlacementEnds(reg, lobbyId, sp, bound)
    ensures LobbyIndex(reg, lobbyId).None? ==> r == Reply(reg, [])
    ensures LobbyIndex(reg, lobbyId).Some? ==>
              var k := LobbyIndex(reg, lobbyId).value;
              && (reg[k].admin != sender || !connected ==> r == Reply(reg, []))
              && (reg[k].admin == sender && connected ==>
                    && |r.lobbies| == |reg|
                    && (forall i :: 0 <= i < |reg| && i != k ==> r.lobbies[i] == reg[i])
                    && r.lobbies[k].(players := reg[k].players) == reg[k]
                    && var before, after := reg[k].players, r.lobbies[k].players;
                    && PlayerIndex(after, playerId)
                         == (if PlayerIndex(before, playerId).Some? then PlayerIndex(before, playerId) else Some(|before|))
                    && |after| == (if PlayerIndex(before, playerId).Some? then |before| else |before| + 1)
                    && (forall j :: 0 <= j < |before| && before[j].id != playerId ==> after[j] == before[j])
                    && var p := after[PlayerIndex(after, playerId).value];
                    && p == NewPlayer(playerId, UniqueName(playerName, PlayerNames(before)), PlaceFrom(before, sp, 0, bound))
                    && p.name !in PlayerNames(before)
                    && FreeSpot(before, p.At())
                    && r.emits == [Emit(Socket(playerId), JoinApproved(r.lobbies[k], p.name)),
                                   Emit(Room(lobbyId), UpdateLobby(r.lobbies[k])),
                                   Emit(Everyone, LobbyDirectory(r.lobbies))])
  {
    match LobbyIndex(reg, lobbyId)
    case None => Reply(reg, [])
    case Some(k) =>
      var l := reg[k];
      if l.admin != sender || !connected then Reply(reg, [])
      else
        var name := UniqueName(playerName, PlayerNames(l.players));
        var p := NewPlayer(playerId, name, PlaceFrom(l.players, sp, 0, bound));
        var joined := l.(players := Upsert(l.players, HasId(playerId), p));
        UpsertFinds(l.players, HasId(playerId), p);
        var lobbies := reg[k := joined];
        Reply(lobbies, [Emit(Socket(playerId), JoinApproved(joined, name)),
                        Emit(Room(lobbyId), UpdateLobby(joined)),
                        Emit(Everyone, LobbyDirectory(lobbies))])
  }

  /** The loop of `disconnect`: the first lobby the socket administers or
      plays in. */
  function DisconnectTarget(reg: Registry, sender: SocketId): Option<nat>
  {
    FirstIndex(reg, (l: Lobby) => l.admin == sender || PlayerIndex(l.players, sender).Some?)
  }

  /** `disconnect`: closes the lobby if the socket is its admin, otherwise
      removes the socket's player from it; the directory is re-broadcast in
      every case. */
  function Disconnect(reg: Registry, sender: SocketId): (r: Reply)
    ensures DisconnectTarget(reg, sender).None? ==> r == Reply(reg, [Emit(Everyone, LobbyDirectory(reg))])
    ensures DisconnectTarget(reg, sender).Some? ==>
              var k := DisconnectTarget(reg, sender).value;
              && (reg[k].admin == sender ==>
                    && r.lobbies == RemoveAt(reg, k)
                    && r.emits == [Emit(Room(reg[k].id), LobbyClosed), Emit(Everyone, LobbyDirectory(r.lobbies))])
              && (reg[k].admin != sender ==>
                    && PlayerIndex(reg[k].players, sender).Some?
                    && r.lobbies == reg[k := reg[k].(players := RemoveAt(reg[k].players, PlayerIndex(reg[k].players, sender).value))]
                    && r.emits == [Emit(Room(reg[k].id), UpdateLobby(r.lobbies[k])), Emit(Everyone, LobbyDirectory(r.lobbies))])
  {
    match DisconnectTarget(reg, sender)
    case None => Reply(reg, [Emit(Everyone, LobbyDirectory(reg))])
    case Some(k) =>
      var l := reg[k];
      if l.admin == sender then
        var lobbies := RemoveAt(reg, k);
        Reply(lobbies, [Emit(Room(l.id), LobbyClosed), Emit(Everyone, LobbyDirectory(lobbies))])
      else
        var left := l.(players := RemoveAt(l.players, PlayerIndex(l.players, sender).value));
        var lobbies := reg[k := left];
        Reply(lobbies, [Emit(Room(l.id), UpdateLobby(left)), Emit(Everyone, LobbyDirectory(lobbies))])
  }

  /** The admin `createLobby` places lands inside
      [0, MAP_WIDTH - PLAYER_SIZE) × [0, MAP_HEIGHT - PLAYER_SIZE). */
  lemma CreatedPlayerInBounds(reg: Registry, sender: SocketId, lobbyName: string, playerName: string, sp: Spawner)
    requires ValidSpawner(sp)
    requires lobbyName != "" && playerName != ""
    ensures var r := CreateLobby(reg, sender, lobbyName, playerName, sp);
      var p := r.lobbies[LobbyIndex(r.lobbies, sender).value].players[0];
      0.0 <= p.x < MAP_WIDTH - PLAYER_SIZE && 0.0 <= p.y < MAP_HEIGHT - PLAYER_SIZE
  {
    PlacementInBounds([], sp, 0);
  }

  lemma CreateLobbyKeepsInvariant(reg: Registry, sender: SocketId, lobbyName: string, playerName: string, sp: Spawner)
    requires RegistryInvariant(reg)
    ensures RegistryInvariant(CreateLobby(reg, sender, lobbyName, playerName, sp).lobbies)
  {
    if lobbyName != "" && playerName != "" {
      var name := UniqueName(lobbyName, LobbyNames(reg));
      var p := NewPlayer(sender, playerName, PlaceFrom([], sp, 0, 0));
      var l := EmptyLobby(sender, name).(players := [p]);
      var sameKey := KeyedBy(sender);
      forall j | 0 <= j < |reg| ensures reg[j].name != name {
        assert reg[j].name in LobbyNames(reg);
      }
      UpsertKeepsDistinct(reg, sameKey, l, (x: Lobby) => x.id);
      UpsertKeepsDistinct(reg, sameKey, l, (x: Lobby) => x.name);
      var lobbies := Upsert(reg, sameKey, l);
      assert LobbyInvariant(l);
      forall i | 0 <= i < |lobbies| ensures lobbies[i].admin == lobbies[i].id && LobbyInvariant(lobbies[i]) {
        if i < |reg| && !sameKey(reg[i]) {
          assert lobbies[i] == reg[i];
        }
      }
    }
  }

  lemma StartGameKeepsInvariant(reg: Registry, sender: SocketId, lobbyId: SocketId, rng: Rng)
    requires ValidRng(rng)
    requires RegistryInvariant(reg)
    ensures RegistryInvariant(StartGame(reg, sender, lobbyId, rng).lobbies)
  {
    match LobbyIndex(reg, lobbyId)
    case None =>
    case Some(k) =>
      var l := reg[k];
      if l.admin == sender && !l.gameStarted {
        var started := SpawnWave(l.(gameStarted := true, wave := 1), rng);
        assert ZombieIds(l.zombies) == {};
        UpdateKeepsDistinct(reg, k, started, (x: Lobby) => x.id);
        UpdateKeepsDistinct(reg, k, started, (x: Lobby) => x.name);
      }
  }

  lemma ApproveJoinKeepsInvariant(reg: Registry, sender: SocketId, playerId: SocketId, lobbyId: SocketId,
                                  playerName: string, connected: bool, sp: Spawner, bound: nat)
    requires PlacementEnds(reg, lobbyId, sp, bound)
    requires RegistryInvariant(reg)
    ensures RegistryInvariant(ApproveJoin(reg, sender, playerId, lobbyId, playerName, connected, sp, bound).lobbies)
  {
    match LobbyIndex(reg, lobbyId)
    case None =>
    case Some(k) =>
      var l := reg[k];
      if l.admin == sender && connected {
        var name := UniqueName(playerName, PlayerNames(l.players));
        var p := NewPlayer(playerId, name, PlaceFrom(l.players, sp, 0, bound));
        var sameKey := HasId(playerId);
        forall j | 0 <= j < |l.players| ensures l.players[j].name != name {
          assert l.players[j].name in PlayerNames(l.players);
        }
        UpsertKeepsDistinct(l.players, sameKey, p, (x: Player) => x.id);
        UpsertKeepsDistinct(l.players, sameKey, p, (x: Player) => x.name);
        var ps := Upsert(l.players, sameKey, p);
        var joined := l.(players := ps);
        forall j | 0 <= j < |ps| ensures ps[j].animationFrame >= 0 {
          if j < |l.players| && !sameKey(l.players[j]) {
            assert ps[j] == l.players[j];
          }
        }
        assert LobbyInvariant(joined);
        UpdateKeepsDistinct(reg, k, joined, (x: Lobby) => x.id);
        UpdateKeepsDistinct(reg, k, joined, (x: Lobby) => x.name);
      }
  }

  lemma DisconnectKeepsInvariant(reg: Registry, sender: SocketId)
    requires RegistryInvariant(reg)
    ensures RegistryInvariant(Disconnect(reg, sender).lobbies)
  {
    match DisconnectTarget(reg, sender)
    case None =>
    case Some(k) =>
      var l := reg[k];
      if l.admin == sender {
        RemoveAtKeepsDistinct(reg, k, (x: Lobby) => x.id);
        RemoveAtKeepsDistinct(reg, k, (x: Lobby) => x.name);
        var lobbies := RemoveAt(reg, k);
        forall i | 0 <= i < |lobbies| ensures lobbies[i].admin == lobbies[i].id && LobbyInvariant(lobbies[i]) {
          assert lobbies[i] == reg[if i < k then i else i + 1];
        }
      } else {
        var j := PlayerIndex(l.players, sender).value;
        var ps := RemoveAt(l.players, j);
        RemoveAtKeepsDistinct(l.players, j, (x: Player) => x.id);
        RemoveAtKeepsDistinct(l.players, j, (x: Player) => x.name);
        var left := l.(players := ps);
        forall m | 0 <= m < |ps| ensures ps[m].animationFrame >= 0 {
          assert ps[m] == l.players[if m < j then m else m + 1];
        }
        assert LobbyInvariant(left);
        UpdateKeepsDistinct(reg, k, left, (x: Lobby) => x.id);
        UpdateKeepsDistinct(reg, k, left, (x: Lobby) => x.name);
      }
  }

  /** Two sockets creating "Alpha" in turn get "Alpha" and "Alpha_1". */
  lemma AlphaTwiceInRegistry(sp: Spawner)
    ensures var first := CreateLobby([], "s1", "Alpha", "Ann", sp);
      var second := CreateLobby(first.lobbies, "s2", "Alpha", "Bob", sp);
      && |second.lobbies| == 2
      && second.lobbies[0].name == "Alpha"
      && second.lobbies[1].name == "Alpha_1"
  {
    var first := CreateLobby([], "s1", "Alpha", "Ann", sp);
    assert LobbyNames([]) == {};
    AlphaTwice();
    assert first.lobbies[0].name == "Alpha";
    assert LobbyNames(first.lobbies) == {"Alpha"};
  }

  /** The admin of a fresh lobby can start it: wave 1 begins with five
      zombies, and a second start is refused. */
  lemma CreateThenStart(sp: Spawner, rng: Rng)
    requires ValidRng(rng)
    ensures var created := CreateLobby([], "s1", "Room", "Ann", sp);
      var started := StartGame(created.lobbies, "s1", "s1", rng);
      && started.lobbies[0].gameStarted && started.lobbies[0].wave == 1
      && |started.lobbies[0].zombies| == 5
      && StartGame(started.lobbies, "s1", "s1", rng) == Reply(started.lobbies, [])
  {
    var created := CreateLobby([], "s1", "Room", "Ann", sp);
    assert LobbyIndex(created.lobbies, "s1") == Some(0);
    var started := StartGame(created.lobbies, "s1", "s1", rng);
    assert LobbyIndex(started.lobbies, "s1") == Some(0);
  }

  /** When the admin disconnects, its lobby is gone from the registry,
      provided the admin plays in no lobby met earlier in iteration order. */
  lemma AdminLeavesClosesLobby(reg: Registry, sender: SocketId)
    requires RegistryInvariant(reg)
    requires LobbyIndex(reg, sender).Some?
    requires forall i :: 0 <= i < LobbyIndex(reg, sender).value ==> PlayerIndex(reg[i].players, sender).None?
    ensures LobbyIndex(Disconnect(reg, sender).lobbies, sender).None?
  {
    var k := LobbyIndex(reg, sender).value;
    assert reg[k].admin == sender;
    var i := DisconnectTarget(reg, sender).value;
    assert i == k;
    var r := RemoveAt(reg, k);
    forall m | 0 <= m < |r| ensures r[m].id != sender {
      assert r[m] == reg[if m < k then m else m + 1];
    }
  }

  /** The loop of `disconnect` stops at the first lobby that mentions the
      socket, so an admin who also plays in an earlier lobby only leaves that
      one: its own lobby stays open without its admin. */
  lemma AdminPlayingElsewhereKeepsLobby()
    ensures var host := NewPlayer("t", "Tom", Pos(0.0, 0.0));
      var guest := NewPlayer("s", "Sam", Pos(100.0, 0.0));
      var earlier := EmptyLobby("t", "First").(players := [host, guest]);
      var own := EmptyLobby("s", "Second").(players := [guest]);
      var r := Disconnect([earlier, own], "s");
      && r.lobbies == [earlier.(players := [host]), own]
      && r.lobbies[1].admin == "s"
  {
    var host := NewPlayer("t", "Tom", Pos(0.0, 0.0));
    var guest := NewPlayer("s", "Sam", Pos(100.0, 0.0));
    var earlier := EmptyLobby("t", "First").(players := [host, guest]);
    assert PlayerIndex(earlier.players, "s") == Some(1);
    assert RemoveAt(earlier.players, 1) == [host];
  }
}
