# Zombie shooter server — a Dafny model

This project models the authoritative core of a multiplayer top-down zombie
shooter server. Players gather in lobbies. A lobby's admin starts the game,
and waves of zombies chase the nearest player. Bullets fired by players
damage zombies and other players. A game loop advances every lobby once per
frame.

The model covers:

- the simulation step `updateGame`, together with `createZombie`,
  `spawnWave` and `checkTreeCollision` (gameLogic.js);
- the server's socket handlers `createLobby`, `startGame`, `joinLobby`,
  `approveJoin`, `playerRotation`, `playerMovement`, `playerState`, `shoot`
  and `disconnect`, with the helpers `assignRandomCoordinates` and
  `checkCollision` (server.js);
- the body of the game loop for one lobby: frame wrap, outcome messages,
  removal of dead players, the `updateLobby` broadcast and the event flush.

Everything is pure functions over immutable data:

- **Ordered collections.** JavaScript objects iterate their keys in
  insertion order, and the source relies on that for tie-breaks ("first
  player in iteration order"). So the players, zombies and lobbies are
  sequences with distinct ids, not maps. `Seqs.Upsert` models
  `obj[key] = v`: an existing key keeps its place.
- **Results instead of mutation.** A handler takes the registry and the
  sender's socket id. It returns a `Reply`: the new registry plus the
  messages it sends, in order. A message names its audience: one socket, a
  lobby's room, or everyone.
- **Inputs instead of randomness.** Randomness and trigonometry become
  parameters:
  - zombie ids and spawn fractions come from an `Rng` supply;
  - the placement attempts of `assignRandomCoordinates` come from a
    `Spawner` supply;
  - the zombie's step towards its target is a `Mover`;
  - whether the approved player's socket is still connected is a boolean.
- **Exact arithmetic.** Distances are compared squared, over `real`: the
  test `sqrt(d²) < 20` is the same as `d² < 400`. The source's `%` is
  modelled as JavaScript's truncating remainder (`Tick.JsRem`).

Modules follow the source:

- Geometry's tree test, Entities, Waves, Zombies, Bullets and GameLogic
  cover gameLogic.js.
- Geometry's `CheckCollision`, Names (the `name_k` de-duplication of lobby
  and player names), Lobbies, LobbyCommands, PlayerCommands and Tick cover
  server.js.

Behaviours the model reproduces on purpose, each with a lemma:

- **Ties.** A zombie targets the first player at minimum distance
  (`Zombies.Nearest`).
- **One bullet, two victims.** After a bullet strikes a zombie, the player
  check still runs, so one bullet can damage a zombie and a player in the
  same frame (`Bullets.OneBulletTwoVictims`).
- **No `'win'`.** `updateGame` never returns `'win'`.
- **Late loss.** A loss is reported one tick after the last player dies
  (`Tick.LoseOneTickLate`).
- **No clamp.** Movement is never clamped to the map
  (`PlayerCommands.NoTreesNoClamp`).
- **Orphaned lobby.** `disconnect` stops at the first lobby that mentions
  the socket. An admin who also plays in an earlier lobby therefore leaves
  its own lobby open (`LobbyCommands.AdminPlayingElsewhereKeepsLobby`).

## Model

| member | source | states |
|---|---|---|
| Geometry.CollisionIffCommonPoint | server.js:138-143 | two squares of positive size pass `checkCollision` exactly when some point lies strictly inside both |
| Geometry.CheckTreeCollision | gameLogic.js:6-20 | true iff the player square strictly overlaps the 40×40 tree square centred in some dirt patch; false for an empty patch list |
| Geometry.TreeCollisionExamples | __tests__/gameLogic.test.js:46-66 | player (100,100) of size 50 hits the tree of patch (80,80,40,40) and misses the one of patch (500,500,40,40) |
| Names.DecimalStringInjective | server.js:75-80 | different postfixes print differently, so each `name_k` candidate is new and the search terminates |
| Names.FirstFreeSuffix | server.js:75-80 | returns the first k at or after the start whose `name_k` is free; every candidate skipped is taken |
| Names.UniqueName | server.js:75-80 | the result is free; it is the request when the request is free, otherwise `name_k` for the least k >= 1 that is free |
| Names.AlphaTwice | server.js:75-80 | "Alpha" is kept when free and becomes "Alpha_1" when taken |
| Waves.CreateZombie | gameLogic.js:22-32 | a new zombie has the drawn id, the lobby's id, full health and a position in [0,800)×[0,600) |
| Waves.SpawnWave | gameLogic.js:34-42 | adds exactly wave×5 zombies after the existing ones, each at full health inside the map; sets (not adds) the remaining-count to wave×5; keeps ids distinct when the draws are fresh; changes nothing else |
| Waves.FirstWave | __tests__/gameLogic.test.js:32-44 | wave 1 on an empty lobby gives 5 zombies and a remaining-count of 5 |
| Zombies.Nearest | gameLogic.js:51-58 | picks a player at minimum distance, the first such in iteration order |
| Zombies.NearestIsUnique | gameLogic.js:54 | the strict `<` determines the target: at most one index is the first at minimum distance |
| Zombies.ZombieStep | gameLogic.js:46-77 | with no players the zombie is unchanged; otherwise it moves towards its nearest player, and when the pre-move distance is below 20 only that player loses ZOMBIE_DAMAGE and exactly one bite event is queued; only health changes among players |
| Zombies.BiteTarget | gameLogic.js:51-66 | reference definition: the player a zombie bites is its nearest player when that one is in contact, and nobody otherwise |
| Zombies.StepMatchesBiteTarget | gameLogic.js:60-75 | one zombie's step damages and reports exactly the player that the reference definition names |
| Zombies.StepIgnoresHealth | gameLogic.js:51-64 | a zombie's choice and move depend only on player positions, not on health |
| Zombies.ZombiePhase | gameLogic.js:46-77 | the zombie loop keeps the number of zombies, changes only zombie positions, and changes only player health |
| Zombies.ZombiePhaseMoves | gameLogic.js:46-64 | each zombie moves as if it were alone, against the players' positions at the start of the loop |
| Zombies.ZombiePhaseDamage | gameLogic.js:66-68 | each player loses ZOMBIE_DAMAGE once per zombie whose bite target it is |
| Zombies.ZombiePhaseBites | gameLogic.js:69-70 | the bite events are those of the reference definition, in zombie order |
| Zombies.NoPlayersNoChange | gameLogic.js:60 | with no players the zombie loop changes nothing |
| Bullets.Advanced | gameLogic.js:82-83 | a bullet moves by exactly its velocity and nothing else changes |
| Bullets.StrikeZombie | gameLogic.js:90-99 | a struck zombie loses BULLET_DAMAGE and one `zombieHit` event is queued; at 0 or below it is deleted and the remaining-count drops by exactly 1; no other zombie changes |
| Bullets.ZombieStage | gameLogic.js:86-103 | a bullet strikes a zombie iff one is in contact, and then it strikes the first zombie in contact; otherwise the lobby is unchanged |
| Bullets.PlayerStage | gameLogic.js:105-119 | at most one player is struck, by exactly BULLET_DAMAGE. That player is never the owner, and it is the first non-owner in contact. Someone is struck iff a non-owner is in contact |
| Bullets.BulletPhase | gameLogic.js:80-125 | the bullet loop keeps remaining-count minus zombie count, never adds zombies, keeps zombie ids distinct, changes only player health, and touches no field but players, zombies, remaining-count, events and bullets |
| Bullets.BulletStep | gameLogic.js:80-124 | the bullet is written back advanced iff it hit nothing and lies in the closed box [0,800]×[0,600], and is spliced out otherwise; the zombie and player stages run in that order on the advanced position |
| Bullets.BulletsFrom | gameLogic.js:80-125 | the reverse loop keeps remaining-count minus zombie count, never adds zombies, keeps zombie ids distinct, changes only player health, and leaves the other fields alone |
| Bullets.BulletsFromOrder | gameLogic.js:121-124 | after the loop the bullets are the survivors among the advanced bullets, in their original order |
| Bullets.KeptOnMap | gameLogic.js:121 | every surviving bullet lies in the closed map box |
| Bullets.BulletPhaseSurvivors | gameLogic.js:80-125 | the bullet list after the loop is an order-preserving selection of the advanced bullets, all inside the closed box |
| Bullets.BulletsFromEvents | gameLogic.js:92-93 | the loop only appends events, and only `zombieHit` events |
| Bullets.StruckKeepsZombies | gameLogic.js:95-98 | a kill deletes and decrements together, so remaining-count minus zombie count is unchanged and ids stay distinct |
| Bullets.OneBulletTwoVictims | gameLogic.js:86-119 | one bullet damages both a zombie and a non-owner player in the same frame |
| GameLogic.ZombiesAct | gameLogic.js:46-77 | the zombie loop on a lobby: only positions of zombies and health of players change, and the queued events grow by exactly the reference bite events |
| GameLogic.Outcome | gameLogic.js:127-139 | `'lose'` iff started with no players; `'waveComplete'` iff started with players, remaining 0 and no zombies, and then the wave grows by 1 and (wave+1)×5 fresh, distinct zombies are spawned; otherwise the lobby is unchanged; never `'win'` |
| GameLogic.UpdateGame | gameLogic.js:44-140 | never `'win'`; `'lose'` iff the game had started with no players; the player count, identity fields and started flag are kept; the wave changes only on `'waveComplete'` |
| GameLogic.UpdateGameKeepsInvariant | gameLogic.js:44-140 | ids and names stay distinct, the remaining-count still equals the zombie count, and an unstarted lobby stays free of zombies |
| GameLogic.EmptyStartedLobbyLoses | gameLogic.js:128-131 | a started lobby without players is lost on the next frame |
| GameLogic.WaveAdvances | gameLogic.js:132-136 | a started lobby with players and no zombies left completes its wave on the next frame and holds (wave+1)×5 new zombies |
| Lobbies.NewPlayer | server.js:96-108 | a new player carries the given id, name and position, full health, angle 0, state idle, the pistol and frame 0 |
| Lobbies.PlaceFrom | server.js:119-136 | the placement is the first candidate spot that overlaps no existing player |
| Lobbies.PlacementInBounds | server.js:122-124 | every placement lies in [0,750)×[0,550) |
| LobbyCommands.EmptyLobby | server.js:83-95 | the stored lobby is keyed by and administered by the sender, at wave 0 with a remaining-count of 0, not started, with no players, zombies, bullets, events or dirt patches |
| LobbyCommands.CreateLobby | server.js:66-117 | a missing name gives exactly the error reply with no change. Otherwise the sender's lobby keeps its old position or goes last, and the registry grows only when it is new. The lobby is keyed by and administered by the sender, named `UniqueName` of the request (a name no lobby had; the request itself when free), at wave 0 with remaining-count 0, not started, with no zombies, bullets, events or dirt patches, and a sole new player at the first candidate spot. Other lobbies are untouched; the directory and `lobbyCreated` are sent |
| LobbyCommands.CreatedPlayerInBounds | server.js:109 | the creator is placed inside [0,750)×[0,550) |
| LobbyCommands.CreateLobbyKeepsInvariant | server.js:66-117 | creating a lobby keeps lobby ids and names distinct and every lobby consistent |
| LobbyCommands.AlphaTwiceInRegistry | server.js:75-80 | two lobbies requested as "Alpha" are named "Alpha" and "Alpha_1" |
| LobbyCommands.StartGame | server.js:145-166 | an unknown lobby, a non-admin sender or a started game leave the registry unchanged with no message; otherwise the lobby is started at wave 1 with its first wave spawned, and `gameStarted` goes to its room |
| LobbyCommands.StartGameKeepsInvariant | server.js:145-166 | starting a game keeps the registry invariant |
| LobbyCommands.CreateThenStart | __tests__/server.test.js:187-200 | a freshly created lobby starts at wave 1 with 5 zombies, and a second start is refused |
| LobbyCommands.JoinLobby | server.js:168-184 | never changes the registry; an unknown lobby or a taken name gives the matching error to the sender; otherwise the request goes to the admin |
| LobbyCommands.ApproveJoin | server.js:186-232 | an unknown lobby, a non-admin sender or a disconnected player change nothing. Otherwise only that lobby's players change. The joining socket's entry keeps its old position or is appended, and the player count grows only when it is new. Every other player keeps its place and value. The entry is the new-player object with the `UniqueName` of the request (a name no player had) at the first candidate spot that overlaps nobody. `joinApproved`, `updateLobby` and the directory are sent |
| LobbyCommands.ApproveJoinKeepsInvariant | server.js:186-232 | approving a join keeps player ids and names distinct |
| LobbyCommands.Disconnect | server.js:337-365 | in the first lobby that mentions the socket: if it is the admin the lobby is removed and `lobbyClosed` goes to its room; otherwise only that player is removed and the lobby's room is updated. With no such lobby the registry is unchanged; the directory is always re-sent |
| LobbyCommands.DisconnectKeepsInvariant | server.js:337-365 | a disconnect keeps the registry invariant |
| LobbyCommands.AdminLeavesClosesLobby | server.js:341-355 | an admin who plays in no earlier lobby takes its lobby away when it disconnects |
| LobbyCommands.AdminPlayingElsewhereKeepsLobby | server.js:341-350 | an admin who plays in an earlier lobby only leaves that one, and its own lobby stays |
| PlayerCommands.PlayerRotation | server.js:234-249 | from a socket in no lobby nothing changes; otherwise only the sender's angle in its first lobby changes |
| PlayerCommands.Proposal | server.js:267-273 | the proposed position is pos + 3·(right−left, down−up), not normalised |
| PlayerCommands.Moved | server.js:275-283 | the proposal is applied wholly iff it clears every tree; otherwise the player stays put; nothing but the position changes |
| PlayerCommands.PlayerMovement | server.js:251-291 | from a socket in no lobby nothing changes; otherwise only the sender's player changes, as `Moved` says |
| PlayerCommands.NoTreesNoClamp | server.js:278-280 | without trees every proposal is taken, and nothing keeps the player inside the map |
| PlayerCommands.MoveIntoTreeRefused | server.js:275-283 | a player standing clear of a tree who moves diagonally into it stays put on both axes, although the vertical step alone would have been taken |
| PlayerCommands.PlayerState | server.js:293-311 | only the sender's state and weapon change, and its frame restarts at 0 |
| PlayerCommands.Shoot | server.js:313-330 | exactly one bullet, owned by the sender, joins the end of the sender's lobby's bullets; nothing else changes |
| PlayerCommands.EditSenderKeepsInvariant | server.js:234-311 | an edit of the sender's player that keeps id, name and a non-negative frame keeps the registry invariant |
| PlayerCommands.PlayerRotationKeepsInvariant | server.js:234-249 | rotation keeps the registry invariant |
| PlayerCommands.PlayerMovementKeepsInvariant | server.js:251-291 | movement keeps the registry invariant |
| PlayerCommands.PlayerStateKeepsInvariant | server.js:293-311 | a state change keeps the registry invariant |
| PlayerCommands.ShootKeepsInvariant | server.js:313-330 | shooting keeps the registry invariant |
| Tick.FrameCount | server.js:381-391 | the shooting count for state `shoot`; the pistol or rifle reload count for state `reload` with that weapon; the idle count for every other state, and for a reload with any other weapon; always positive |
| Tick.JsRem | server.js:398 | JavaScript's remainder: the quotient is truncated towards zero and the dividend is quotient×n plus the result, so the result lies in [0,n) for a non-negative dividend and in (−n,0] for a negative one |
| Tick.Animate | server.js:378-400 | only frames change; a non-negative frame f becomes (f+1) mod frameCount, which lies in [0, frameCount) |
| Tick.FramesWithCountsMatchAnimate | server.js:393-398 | with the counts defined, the frame update is what `Animate` computes |
| Tick.ServerFrameAsWritten | server.js:394-398 | the frame update as the server runs it: with the count undefined the frame is NaN; with a positive count a non-negative frame wraps into [0, count); a NaN frame is reset before the increment, so it becomes 1 when the count exceeds 1 |
| Tick.FramesAsWrittenAreNaN | server.js:395-398 | with the frame counts undefined on the server (they are imported at line 5 but never defined), every stored frame is NaN, and the NaN reset never keeps a number |
| Tick.DeathNotices | server.js:418-426 | one `playerDied` per player at or below 0 health, addressed to that player, in player order, and no other notice |
| Tick.DeathNoticesIgnoreFrames | server.js:378-426 | advancing the frames first changes no death notice |
| Tick.Survivors | server.js:418-426 | the players kept are exactly those with health above 0, in their original order |
| Tick.OutcomeEmits | server.js:409-416 | at most one message, to the lobby's room: `gameOver` with `'lose'` exactly on a loss, `waveComplete` with the lobby's wave exactly on a completed wave, nothing otherwise |
| Tick.EventEmits | server.js:432-434 | every queued event goes to the lobby's room, in queue order |
| Tick.Settled | server.js:378-426 | the lobby after the frame wrap and the burial: the living players in their order, each changed only in its frame, which is in range when it was not negative; every other field as `updateGame` left it |
| Tick.TickLobby | server.js:372-442 | `'lose'` happens iff the game had started with no players, and then the lobby is deleted. Otherwise only that lobby is rewritten: settled, with an empty queue, only living players, and, for a consistent lobby, the invariant kept and every frame within its count. The messages are those of `TickEmits` for the settled lobby |
| Tick.TickAnnouncesNextWave | server.js:413-415 | the first message is `waveComplete` with the old wave plus one exactly when the wave was completed |
| Tick.TickEmitsOutcome | server.js:409-435 | the tick sends outcome + dead players + 1 + queued events messages; the first is `gameOver` exactly on a loss and `waveComplete` exactly on a completed wave |
| Tick.TickEmitsDeaths | server.js:418-426 | right after the outcome comes one `playerDied` per dead player, in player order |
| Tick.TickEmitsUpdate | server.js:428-429 | then comes exactly one `updateLobby`, carrying the settled lobby; no other message is an `updateLobby` |
| Tick.TickEmitsEvents | server.js:431-435 | the messages end with the queued events, in queue order, each to the lobby's room |
| Tick.SettledIsClean | server.js:378-426 | after the frame wrap and the burial no player is at or below 0 health, every frame is within its count, and the lobby invariant holds |
| Tick.TickKeepsInvariant | server.js:372-442 | the tick keeps the registry invariant |
| Tick.TickRemovesIffLost | server.js:409-412 | a lobby leaves the registry on its tick iff its game had started and it had no players when the tick began |
| Tick.LastBiteKeepsLobby | server.js:376-426 | the tick that kills the last player buries it, keeps the lobby, sends `playerDied` and no `gameOver` |
| Tick.LoseOneTickLate | server.js:376-426 | the tick that kills the last player keeps the lobby and sends `playerDied`; only the next tick sends `gameOver` and deletes it |

## Left out

- Transport and logging are not modelled:
  - Socket.IO, express, http and winston plumbing;
  - room joins (`socket.join`, `playerSocket.join`);
  - the fan-out of each message.

  Messages are returned as data, with their audience named.
- `setInterval` scheduling, the loop over all lobbies and the per-lobby
  try/catch are runtime concerns. One lobby's turn is modelled
  (`Tick.TickLobby`).
- The zombie's step uses `atan2`/`cos`/`sin` on floats. It is the `Mover`
  parameter; targeting and biting are modelled.
- `Math.random` and `Date.now` are replaced by parameters:
  - zombie ids and spawn positions come from the `Rng` supply, whose ids are
    assumed never to repeat;
  - placement attempts come from the `Spawner` supply.
- `Lobbies.PlaceFrom` and `LobbyCommands.ApproveJoin` require an attempt at
  which a free spot is found. The source loops until that happens and never
  returns otherwise. For `createLobby` the first attempt always succeeds,
  because the new lobby has no players yet.
- The live-socket lookup of `approveJoin` is a transport query. It is the
  `connected` input.
- `requestLobbies`, `ping` and `initGameData` are trivial echo and
  assignment handlers, and the `error` logger does nothing to the state.
- Zombie `animationFrame` is never initialised, and its update yields NaN.
  It is not a field of the model.
- Tick.Animate: the player frame counts are parameters that must be
  positive, as the client's constants define them. On the server they are
  undefined; see Findings. Frames are integers, so the reset of a non-number
  frame to 0 cannot arise in the main model. `Tick.ServerFrameAsWritten`
  models that reset.
- The `width` and `height` fields of 50 that each new player carries are not
  modelled; placement and movement use the size 50 directly. The bullet's
  extra client fields are not modelled either.
- A missing lobby or player name is modelled as the empty string.
  Socket ids are non-empty strings, which the source's truthiness tests take
  for granted.
- Bullets.BulletPhaseSurvivors: says only that some order-preserving
  selection of the advanced bullets remains. `Bullets.BulletsFromOrder`
  says exactly which ones survive, through `KeepFlags`.
- Lobby ids are looked up as ordinary keys; JavaScript's special property
  names are not modelled.

## Findings

| source | as written | input that shows it | evidently intended | confidence | as-written member | corrected member |
|---|---|---|---|---|---|---|
| server.js:5 | server.js imports PLAYER_IDLE_FRAME_COUNT, PLAYER_SHOOT_FRAME_COUNT and both reload counts from constants.js, which does not define them (constants.js:2-13), so `(frame + 1) % frameCount` is NaN and the player's animation frame never holds a number after a tick | any tick of any lobby with a player in it | the counts are defined (public/constants.js:14-19 sets them to 1), so each frame wraps within [0, frameCount) | high; not executed | Tick.FramesAsWrittenAreNaN | Tick.Animate |
