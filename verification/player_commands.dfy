/**
 * The per-player handlers of the server: `playerRotation`, `playerMovement`,
 * `playerState` and `shoot`. Each first finds the first lobby, in iteration
 * order, that has the sender among its players, and does nothing when there
 * is none. None of them sends a message.
 */
module PlayerCommands {
  import opened Wrappers
  import opened Seqs
  import opened Constants
  import opened Geometry
  import opened Entities
  import opened Lobbies

  /** The sender's lobby k and slot j: the only player a handler may touch. */
  ghost predicate SenderAt(reg: Registry, sender: SocketId, k: nat, j: nat)
  {
    && LobbyOfPlayer(reg, sender) == Some(k)
    && k < |reg|
    && PlayerIndex(reg[k].players, sender) == Some(j)
  }

  /** `r` is `reg` with only the player at (k, j) replaced, by `p`. */
  ghost predicate OnlyPlayerReplaced(reg: Registry, r: Registry, k: nat, j: nat, p: Player)
  {
    && |r| == |reg| && k < |reg| && j < |reg[k].players|
    && (forall i :: 0 <= i < |reg| && i != k ==> r[i] == reg[i])
    && r[k].(players := reg[k].players) == reg[k]
    && |r[k].players| == |reg[k].players|
    && (forall m :: 0 <= m < |reg[k].players| && m != j ==> r[k].players[m] == reg[k].players[m])
    && r[k].players[j] == p
  }

  /** Replace the sender's player by `edit` of it, when the sender plays. */
  function EditSender(reg: Registry, sender: SocketId, edit: (Lobby, Player) -> Player): (r: Registry)
    ensures LobbyOfPlayer(reg, sender).None? ==> r == reg
    ensures LobbyOfPlayer(reg, sender).Some? ==>
              var k := LobbyOfPlayer(reg, sender).value;
              && SenderAt(reg, sender, k, PlayerIndex(reg[k].players, sender).value)
              && var j := PlayerIndex(reg[k].players, sender).value;
              OnlyPlayerReplaced(reg, r, k, j, edit(reg[k], reg[k].players[j]))
  {
    match LobbyOfPlayer(reg, sender)
    case None => reg
    case Some(k) =>
      var l := reg[k];
      var j := PlayerIndex(l.players, sender).value;
      reg[k := l.(players := l.players[j := edit(l, l.players[j])])]
  }

  /** `playerRotation`: only the sender's angle changes. */
  function PlayerRotation(reg: Registry, sender: SocketId, angle: real): (r: Registry)
    ensures LobbyOfPlayer(reg, sender).None? ==> r == reg
    ensures forall k: nat, j: nat :: SenderAt(reg, sender, k, j) ==>
              OnlyPlayerReplaced(reg, r, k, j, reg[k].players[j].(angle := angle))
  {
    EditSender(reg, sender, (l: Lobby, p: Player) => p.(angle := angle))
  }

  /** The arrow keys held in one `playerMovement` message. */
  datatype Movement = Movement(left: bool, up: bool, right: bool, down: bool)

  function Step(held: bool): real
  {
    if held then PLAYER_SPEED else 0.0
  }

  /** The position `playerMovement` proposes: each held key moves the player
      PLAYER_SPEED along its axis, opposite keys cancel, and a diagonal is
      not normalised. */
  function Proposal(p: Player, m: Movement): (r: Pos)
    ensures r.x == p.x + PLAYER_SPEED * ((if m.right then 1.0 else 0.0) - (if m.left then 1.0 else 0.0))
    ensures r.y == p.y + PLAYER_SPEED * ((if m.down then 1.0 else 0.0) - (if m.up then 1.0 else 0.0))
  {
    var x := p.x - Step(m.left);
    var y := p.y - Step(m.up);
    Pos(x + Step(m.right), y + Step(m.down))
  }

  /** The sender after `playerMovement` in lobby `l`: at the proposal when it
      clears every tree of `l`, otherwise where it was. */
  function Moved(l: Lobby, p: Player, m: Movement): (q: Player)
    ensures q.(x := p.x, y := p.y) == p
    ensures !CheckTreeCollision(Proposal(p, m).x, Proposal(p, m).y, PLAYER_SIZE, l.dirtPatches) ==> q.At() == Proposal(p, m)
    ensures CheckTreeCollision(Proposal(p, m).x, Proposal(p, m).y, PLAYER_SIZE, l.dirtPatches) ==> q == p
  {
    var to := Proposal(p, m);
    if !CheckTreeCollision(to.x, to.y, PLAYER_SIZE, l.dirtPatches) then p.(x := to.x, y := to.y) else p
  }

  /** `playerMovement`: the sender moves wholly or not at all. */
  function PlayerMovement(reg: Registry, sender: SocketId, m: Movement): (r: Registry)
    ensures LobbyOfPlayer(reg, sender).None? ==> r == reg
    ensures forall k: nat, j: nat :: SenderAt(reg, sender, k, j) ==>
              OnlyPlayerReplaced(reg, r, k, j, Moved(reg[k], reg[k].players[j], m))
  {
    EditSender(reg, sender, (l: Lobby, p: Player) => Moved(l, p, m))
  }

  /** `playerState`: the sender's state and weapon change and its animation
      restarts at frame 0. */
  function PlayerState(reg: Registry, sender: SocketId, state: string, weapon: string): (r: Registry)
    ensures LobbyOfPlayer(reg, sender).None? ==> r == reg
    ensures forall k: nat, j: nat :: SenderAt(reg, sender, k, j) ==>
              OnlyPlayerReplaced(reg, r, k, j, reg[k].players[j].(state := state, weapon := weapon, animationFrame := 0))
  {
    EditSender(reg, sender, (l: Lobby, p: Player) => p.(state := state, weapon := weapon, animationFrame := 0))
  }

  /** `shoot`: one bullet, owned by the sender whatever the message said,
      joins the end of the sender's lobby's bullet list. */
  function Shoot(reg: Registry, sender: SocketId, b: Bullet): (r: Registry)
    ensures |r| == |reg|
    ensures LobbyOfPlayer(reg, sender).None? ==> r == reg
    ensures LobbyOfPlayer(reg, sender).Some? ==>
              var k := LobbyOfPlayer(reg, sender).value;
              && (forall i :: 0 <= i < |reg| && i != k ==> r[i] == reg[i])
              && r[k] == reg[k].(bullets := reg[k].bullets + [b.(ownerId := sender)])
  {
    match LobbyOfPlayer(reg, sender)
    case None => reg
    case Some(k) => reg[k := reg[k].(bullets := reg[k].bullets + [b.(ownerId := sender)])]
  }

  /** An edit that keeps a player's id and name and never makes its frame
      negative keeps the registry invariant. */
  lemma EditSenderKeepsInvariant(reg: Registry, sender: SocketId, edit: (Lobby, Player) -> Player)
    requires RegistryInvariant(reg)
    requires forall l, p :: edit(l, p).id == p.id && edit(l, p).name == p.name
                            && (p.animationFrame >= 0 ==> edit(l, p).animationFrame >= 0)
    ensures RegistryInvariant(EditSender(reg, sender, edit))
  {
    match LobbyOfPlayer(reg, sender)
    case None =>
    case Some(k) =>
      var l := reg[k];
      var j := PlayerIndex(l.players, sender).value;
      var q := edit(l, l.players[j]);
      UpdateKeepsDistinct(l.players, j, q, (x: Player) => x.id);
      UpdateKeepsDistinct(l.players, j, q, (x: Player) => x.name);
      var edited := l.(players := l.players[j := q]);
      assert LobbyInvariant(edited);
      UpdateKeepsDistinct(reg, k, edited, (x: Lobby) => x.id);
      UpdateKeepsDistinct(reg, k, edited, (x: Lobby) => x.name);
  }

  lemma PlayerRotationKeepsInvariant(reg: Registry, sender: SocketId, angle: real)
    requires RegistryInvariant(reg)
    ensures RegistryInvariant(PlayerRotation(reg, sender, angle))
  {
    EditSenderKeepsInvariant(reg, sender, (l: Lobby, p: Player) => p.(angle := angle));
  }

  lemma PlayerMovementKeepsInvariant(reg: Registry, sender: SocketId, m: Movement)
    requires RegistryInvariant(reg)
    ensures RegistryInvariant(PlayerMovement(reg, sender, m))
  {
    EditSenderKeepsInvariant(reg, sender, (l: Lobby, p: Player) => Moved(l, p, m));
  }

  lemma PlayerStateKeepsInvariant(reg: Registry, sender: SocketId, state: string, weapon: string)
    requires RegistryInvariant(reg)
    ensures RegistryInvariant(PlayerState(reg, sender, state, weapon))
  {
    EditSenderKeepsInvariant(reg, sender, (l: Lobby, p: Player) => p.(state := state, weapon := weapon, animationFrame := 0));
  }

  lemma ShootKeepsInvariant(reg: Registry, sender: SocketId, b: Bullet)
    requires RegistryInvariant(reg)
    ensures RegistryInvariant(Shoot(reg, sender, b))
  {
    match LobbyOfPlayer(reg, sender)
    case None =>
    case Some(k) =>
      var armed := reg[k].(bullets := reg[k].bullets + [b.(ownerId := sender)]);
      assert LobbyInvariant(armed);
      UpdateKeepsDistinct(reg, k, armed, (x: Lobby) => x.id);
      UpdateKeepsDistinct(reg, k, armed, (x: Lobby) => x.name);
  }

  /** Without trees every move goes through, and nothing keeps the player on
      the map: a player at the left edge stepping left leaves it. */
  lemma NoTreesNoClamp(l: Lobby, p: Player, m: Movement)
    requires l.dirtPatches == []
    ensures Moved(l, p, m).At() == Proposal(p, m)
    ensures p.x == 0.0 && m == Movement(true, false, false, false) ==> Moved(l, p, m).x == -PLAYER_SPEED
  {
  }

  /** A move into a tree is refused wholly, both axes together: a player
      standing clear of the tree who steps right and down stays put, although
      the step down alone would have been taken. */
  lemma MoveIntoTreeRefused()
    ensures var l := Lobby("L", "Lobby", [], [], [], "L", 0, 0, false, [], [Patch(80.0, 80.0, 40.0, 40.0)]);
      var p := Player("p", "P", 28.0, 100.0, PLAYER_HEALTH, 0.0, "idle", "pistol", 0);
      && !CheckTreeCollision(p.x, p.y, PLAYER_SIZE, l.dirtPatches)
      && Moved(l, p, Movement(false, false, false, true)).At() == Pos(28.0, 103.0)
      && Moved(l, p, Movement(false, false, true, true)) == p
  {
    var patches := [Patch(80.0, 80.0, 40.0, 40.0)];
    assert TreeBlocks(31.0, 103.0, PLAYER_SIZE, patches[0]);
    assert !TreeBlocks(28.0, 103.0, PLAYER_SIZE, patches[0]);
    assert !TreeBlocks(28.0, 100.0, PLAYER_SIZE, patches[0]);
  }
}
