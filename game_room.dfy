/**
 * One room: its roster, the level being played, the per-level puzzle state,
 * the lifecycle state and the events it broadcasts. `Room` is the value of a
 * room's state; the functions on it say what each operation of the room
 * does, and the class `GameRoom` performs the operations step by step, as the
 * server does, with each method proved equal to its function.
 */
module Rooms {
  import opened Wrappers
  import opened OrderedMaps
  import opened Geometry
  import opened Levels
  import opened Entities
  import opened Physics
  import opened Puzzle

  type SocketId = string
  type RoomId = string

  const MAX_PLAYERS: int := 4
  const PLAYER_COLORS: seq<string> := ["#ff0000", "#0066ff", "#00aa00", "#ff6600"]

  /** 'waiting' only exists before the first level is set up; 'completed' and 'empty' are terminal. */
  datatype Lifecycle = Waiting | Playing | Completed | Empty

  /** One line of the room list. */
  datatype RoomInfo = RoomInfo(id: RoomId, playerCount: int, maxPlayers: int, currentLevel: int, state: Lifecycle)

  /** The events the server emits; the per-tick game state carries only the room, its level and its state. */
  datatype Event =
    | PlayerJoined(player: Player)
    | RoomFull
    | GameStateSnapshot(roomId: RoomId, level: int, state: Lifecycle)
    | PlayerConnected(player: Player)
    | PlayerDisconnected(socket: SocketId)
    | LevelCompleted(level: int, nextLevel: int)
    | GameCompleted(totalTime: int)
    | RoomList(rooms: seq<RoomInfo>)

  /** One connection, or every connection in a room except the sender. */
  datatype Recipient = ToSocket(socket: SocketId) | ToRoomPeers(room: RoomId, except: SocketId)

  datatype Outgoing = Outgoing(to: Recipient, event: Event)

  /** The state of a room. */
  datatype Room = Room(players: OMap<SocketId, Player>, currentLevel: int, switches: seq<Switch>,
                       doors: seq<Door>, elevators: seq<Elevator>, state: Lifecycle,
                       levelStartTime: int, outbox: seq<Outgoing>)

  // ---- level set-up ----

  function ResetSwitches(defs: seq<SwitchDef>): (sw: seq<Switch>)
    ensures |sw| == |defs|
  {
    seq(|defs|, i requires 0 <= i < |defs| => Switch(defs[i], false, 0, false))
  }

  function CloseDoors(defs: seq<DoorDef>): (ds: seq<Door>)
    ensures |ds| == |defs|
  {
    seq(|defs|, i requires 0 <= i < |defs| => Door(defs[i], false))
  }

  function ResetElevators(defs: seq<ElevatorDef>): (es: seq<Elevator>)
    ensures |es| == |defs|
  {
    seq(|defs|, i requires 0 <= i < |defs| => Elevator(defs[i], defs[i].y, false))
  }

  function AtSpawn(p: Player, t: Tile): Player {
    p.(x := t.x * TILE, y := t.y * TILE, vx := 0, vy := 0, onGround := false)
  }

  /** Players in join order take the spawn points in order; those beyond the last spawn point stay where they are. */
  function Respawn(ps: OMap<SocketId, Player>, spawns: seq<Tile>): (ps': OMap<SocketId, Player>)
    ensures |ps'| == |ps|
  {
    seq(|ps|, i requires 0 <= i < |ps| =>
      if i < |spawns| then Entry(ps[i].key, AtSpawn(ps[i].val, spawns[i])) else ps[i])
  }

  /** `broadcastToRoom`: the event once to every player, in join order. */
  function Broadcast(ps: OMap<SocketId, Player>, e: Event): (out: seq<Outgoing>)
    ensures |out| == |ps|
  {
    seq(|ps|, i requires 0 <= i < |ps| => Outgoing(ToSocket(ps[i].key), e))
  }

  /** `initializeLevel`; a level missing from the catalog leaves the room as it is. */
  function InitializeLevelSpec(r: Room, catalog: seq<Level>, now: int): Room {
    match LevelAt(catalog, r.currentLevel)
    case None => r
    case Some(level) =>
      r.(switches := ResetSwitches(level.switches), doors := CloseDoors(level.doors),
         elevators := ResetElevators(level.elevators), levelStartTime := now, state := Playing,
         players := Respawn(r.players, level.spawns))
  }

  /** `completeLevel`: finish the game after the last level, otherwise set up the next one. */
  function CompleteLevelSpec(r: Room, catalog: seq<Level>, now: int): (r': Room)
    ensures |r'.players| == |r.players|
  {
    if r.currentLevel >= |catalog| then
      r.(state := Completed, outbox := r.outbox + Broadcast(r.players, GameCompleted(now - r.levelStartTime)))
    else
      var n := InitializeLevelSpec(r.(currentLevel := r.currentLevel + 1), catalog, now);
      n.(outbox := n.outbox + Broadcast(n.players, LevelCompleted(n.currentLevel - 1, n.currentLevel)))
  }

  // ---- one tick ----

  function SwitchPhase(sw: seq<Switch>, ps: OMap<SocketId, Player>, now: int): (sw': seq<Switch>)
    ensures |sw'| == |sw|
  {
    seq(|sw|, i requires 0 <= i < |sw| => TickedSwitch(sw[i], Values(ps), now))
  }

  function DoorPhase(ds: seq<Door>, sw: seq<Switch>): (ds': seq<Door>)
    ensures |ds'| == |ds|
  {
    seq(|ds|, i requires 0 <= i < |ds| => ds[i].(open := EvaluateDoorCondition(ds[i].def.condition, sw)))
  }

  /** The switch loop of `update`: each switch in turn, against every player. */
  method TickSwitches(sw: seq<Switch>, players: OMap<SocketId, Player>, now: int) returns (sw': seq<Switch>)
    ensures sw' == SwitchPhase(sw, players, now)
  {
    var ps := Values(players);
    sw' := sw;
    var i := 0;
    while i < |sw'|
      invariant 0 <= i <= |sw'| == |sw|
      invariant forall k :: 0 <= k < |sw'| ==> sw'[k] == if k < i then TickedSwitch(sw[k], ps, now) else sw[k]
    {
      var t := TickSwitch(sw'[i], ps, now);
      sw' := sw'[i := t];
      i := i + 1;
    }
  }

  /** The door loop of `update`: each door re-evaluated against the switches just computed. */
  method RefreshDoors(ds: seq<Door>, sw: seq<Switch>) returns (ds': seq<Door>)
    ensures ds' == DoorPhase(ds, sw)
  {
    ds' := ds;
    var i := 0;
    while i < |ds'|
      invariant 0 <= i <= |ds'| == |ds|
      invariant forall k :: 0 <= k < |ds'| ==>
        ds'[k] == if k < i then ds[k].(open := EvaluateDoorCondition(ds[k].def.condition, sw)) else ds[k]
    {
      ds' := ds'[i := ds'[i].(open := EvaluateDoorCondition(ds'[i].def.condition, sw))];
      i := i + 1;
    }
  }

  /**
   * The exit check of `update`, from player i on. Its rectangle is fixed
   * before the loop, and the loop goes on after `completeLevel`: later
   * players are tested at their new spawn points against the old exit.
   */
  function ExitScan(r: Room, catalog: seq<Level>, exit: Rect, i: nat, now: int): Room
    decreases |r.players| - i
  {
    if i >= |r.players| then r
    else
      var r' := if Overlap(Box(r.players[i].val), exit) then CompleteLevelSpec(r, catalog, now) else r;
      ExitScan(r', catalog, exit, i + 1, now)
  }

  /** `update`: switches, then doors, then the exit; nothing at all unless the room is playing. */
  function UpdateSpec(r: Room, catalog: seq<Level>, now: int): Room
    requires 1 <= r.currentLevel <= |catalog|
  {
    if r.state != Playing then r
    else
      var level := catalog[r.currentLevel - 1];
      var sw := SwitchPhase(r.switches, r.players, now);
      var r1 := r.(switches := sw, doors := DoorPhase(r.doors, sw));
      match level.exit
      case None => r1
      case Some(e) => ExitScan(r1, catalog, TileRect(e.x, e.y), 0, now)
  }

  /** One visit of the 30 Hz loop: `update`, then the game state to every player if still playing. */
  function TickSpec(r: Room, catalog: seq<Level>, id: RoomId, now: int): Room
    requires 1 <= r.currentLevel <= |catalog|
  {
    var u := UpdateSpec(r, catalog, now);
    if u.state == Playing then u.(outbox := u.outbox + Broadcast(u.players, GameStateSnapshot(id, u.currentLevel, u.state)))
    else u
  }

  // ---- joining ----

  function PlayerName(pid: int): string
    requires 1 <= pid <= MAX_PLAYERS
  {
    "Player" + [(('0' as int) + pid) as char]
  }

  /** The player `addPlayer` creates when `count` players are present: the spawn point at `count`, else the first. */
  function NewPlayer(count: nat, level: Level): Player
    requires count < MAX_PLAYERS && |level.spawns| >= 1
  {
    var pid := count + 1;
    var spawn := if count < |level.spawns| then level.spawns[count] else level.spawns[0];
    Player(pid, PlayerName(pid), PLAYER_COLORS[pid - 1], spawn.x * TILE, spawn.y * TILE, 0, 0, false, NO_KEYS)
  }

  /** `updatePlayer`: the sender's keys and velocity, then its move; input from a socket not in the room is dropped. */
  function UpdatePlayerSpec(r: Room, level: Level, socket: SocketId, keys: KeyState): Room {
    match Get(r.players, socket)
    case None => r
    case Some(p) => r.(players := Put(r.players, socket, Resolve(ApplyInput(p, keys), level, r.doors)))
  }

  /** `addPlayer`: refused at four players, otherwise the new player is stored under the socket id. */
  function AddPlayerSpec(r: Room, catalog: seq<Level>, socket: SocketId): (Room, Option<Player>)
    requires WellFormedCatalog(catalog) && 1 <= r.currentLevel <= |catalog|
  {
    if |r.players| >= MAX_PLAYERS then (r, None)
    else
      var p := NewPlayer(|r.players|, catalog[r.currentLevel - 1]);
      (r.(players := Put(r.players, socket, p)), Some(p))
  }

  /** `removePlayer`: the room is marked 'empty' when its last player leaves. */
  function RemovePlayerSpec(r: Room, socket: SocketId): Room {
    var ps := Remove(r.players, socket);
    r.(players := ps, state := if |ps| == 0 then Empty else r.state)
  }

  /** A new room: level 1 set up at `now`, nobody in it. */
  function NewRoom(catalog: seq<Level>, now: int): Room {
    InitializeLevelSpec(Room([], 1, [], [], [], Waiting, 0, []), catalog, now)
  }

  // ---- the room invariant ----

  /**
   * What holds of every room between operations: the current level is in
   * the catalog, the room is past 'waiting', the switches, doors and
   * elevators are those of the current level (in catalog order), no switch
   * is expired, and the roster has distinct keys and at most four players.
   */
  ghost predicate Consistent(r: Room, catalog: seq<Level>) {
    && WellFormedCatalog(catalog)
    && 1 <= r.currentLevel <= |catalog|
    && r.state != Waiting
    && DistinctKeys(r.players) && |r.players| <= MAX_PLAYERS
    && var level := catalog[r.currentLevel - 1];
    && |r.switches| == |level.switches|
    && (forall i :: 0 <= i < |r.switches| ==> r.switches[i].def == level.switches[i] && !r.switches[i].isExpired)
    && |r.doors| == |level.doors|
    && (forall i :: 0 <= i < |r.doors| ==> r.doors[i].def == level.doors[i])
    && r.elevators == ResetElevators(level.elevators)
  }

  lemma {:induction false} RespawnKeepsKeys(ps: OMap<SocketId, Player>, spawns: seq<Tile>)
    ensures Keys(Respawn(ps, spawns)) == Keys(ps)
    ensures DistinctKeys(ps) ==> DistinctKeys(Respawn(ps, spawns))
  {
    var ps' := Respawn(ps, spawns);
    assert forall i :: 0 <= i < |ps| ==> ps'[i].key == ps[i].key;
  }

  /**
   * `initializeLevel` on a level of the catalog: every switch released with
   * stamp 0 and not expired, every door closed, the room playing from `now`,
   * the first min(players, spawns) players in join order at their spawn
   * points at rest and airborne, keeping id, name, colour and keys, the
   * other players untouched.
   */
  lemma InitializeLevelResets(r: Room, catalog: seq<Level>, now: int)
    requires WellFormedCatalog(catalog) && 1 <= r.currentLevel <= |catalog|
    requires DistinctKeys(r.players) && |r.players| <= MAX_PLAYERS
    ensures var r' := InitializeLevelSpec(r, catalog, now);
      var level := catalog[r.currentLevel - 1];
      && Consistent(r', catalog)
      && r'.state == Playing && r'.currentLevel == r.currentLevel && r'.outbox == r.outbox
      && r'.levelStartTime == now
      && (forall i :: 0 <= i < |r'.switches| ==> !r'.switches[i].active && r'.switches[i].lastActivated == 0)
      && (forall i :: 0 <= i < |r'.doors| ==> !r'.doors[i].open)
      && Keys(r'.players) == Keys(r.players)
      && (forall i :: 0 <= i < |r.players| && i < |level.spawns| ==>
            r'.players[i].val == r.players[i].val.(x := level.spawns[i].x * TILE, y := level.spawns[i].y * TILE,
                                                   vx := 0, vy := 0, onGround := false))
      && (forall i :: |level.spawns| <= i < |r.players| ==> r'.players[i] == r.players[i])
  {
    var level := catalog[r.currentLevel - 1];
    assert LevelAt(catalog, r.currentLevel) == Some(level);
    var ps := Respawn(r.players, level.spawns);
    var r' := r.(switches := ResetSwitches(level.switches), doors := CloseDoors(level.doors),
                 elevators := ResetElevators(level.elevators), levelStartTime := now, state := Playing,
                 players := ps);
    assert InitializeLevelSpec(r, catalog, now) == r';
    RespawnKeepsKeys(r.players, level.spawns);
    assert Consistent(r', catalog);
  }

  /** A new room is playing level 1 with nobody in it and nothing sent. */
  lemma NewRoomPlaying(catalog: seq<Level>, now: int)
    requires WellFormedCatalog(catalog)
    ensures var r := NewRoom(catalog, now);
      && Consistent(r, catalog)
      && r.state == Playing && r.currentLevel == 1 && r.players == [] && r.outbox == []
      && r.levelStartTime == now
      && (forall i :: 0 <= i < |r.doors| ==> !r.doors[i].open)
  {
    InitializeLevelResets(Room([], 1, [], [], [], Waiting, 0, []), catalog, now);
  }

  /**
   * `addPlayer` is refused exactly at four players and then changes
   * nothing; otherwise the socket maps to a new player whose id is the
   * roster size plus one, placed at the spawn point of that index (the first
   * one when there are fewer), at rest, with no keys held. A socket already
   * in the room is replaced in place and the roster does not grow; every
   * other player is untouched.
   */
  lemma AddPlayerMeaning(r: Room, catalog: seq<Level>, socket: SocketId)
    requires Consistent(r, catalog)
    ensures var (r', added) := AddPlayerSpec(r, catalog, socket);
      var level := catalog[r.currentLevel - 1];
      && Consistent(r', catalog)
      && r' == r.(players := r'.players)
      && (added.None? <==> |r.players| >= MAX_PLAYERS)
      && (added.None? ==> r' == r)
      && (added.Some? ==>
            var p := added.value;
            var n := |r.players|;
            && Get(r'.players, socket) == Some(p)
            && p.id == n + 1 && p.vx == 0 && p.vy == 0 && !p.onGround && p.keys == NO_KEYS
            && p.x == (if n < |level.spawns| then level.spawns[n] else level.spawns[0]).x * TILE
            && p.y == (if n < |level.spawns| then level.spawns[n] else level.spawns[0]).y * TILE
            && |r'.players| == (if socket in Keys(r.players) then n else n + 1)
            && (forall i :: 0 <= i < n && r.players[i].key != socket ==> r'.players[i] == r.players[i]))
  {
    if |r.players| < MAX_PLAYERS {
      var p := NewPlayer(|r.players|, catalog[r.currentLevel - 1]);
      var ps := Put(r.players, socket, p);
      assert AddPlayerSpec(r, catalog, socket) == (r.(players := ps), Some(p));
      PutKeys(r.players, socket, p);
      PutDistinct(r.players, socket, p);
      GetPut(r.players, socket, p, socket);
      ConsistentRoster(r, catalog, ps);
      forall i | 0 <= i < |r.players| && r.players[i].key != socket
        ensures ps[i] == r.players[i]
      {
        PutOthers(r.players, socket, p, i);
      }
    } else {
      assert AddPlayerSpec(r, catalog, socket) == (r, None);
    }
  }

  /**
   * `removePlayer` forgets the socket and keeps every other player; the room
   * is 'empty' exactly when nobody is left, and otherwise keeps its state.
   */
  lemma RemovePlayerMeaning(r: Room, catalog: seq<Level>, socket: SocketId)
    requires Consistent(r, catalog)
    ensures var r' := RemovePlayerSpec(r, socket);
      && Consistent(r', catalog)
      && Get(r'.players, socket) == None
      && (forall k :: k != socket ==> Get(r'.players, k) == Get(r.players, k))
      && |r'.players| == (if socket in Keys(r.players) then |r.players| - 1 else |r.players|)
      && (r'.state == Empty <==> |r'.players| == 0 || r.state == Empty)
      && (|r'.players| > 0 ==> r'.state == r.state)
      && r' == r.(players := r'.players, state := r'.state)
  {
    RemoveKeys(r.players, socket);
    GetRemove(r.players, socket, socket);
    forall k | k != socket ensures Get(Remove(r.players, socket), k) == Get(r.players, k) {
      GetRemove(r.players, socket, k);
    }
  }

  /** Completing the last level ends the game in place; any other level advances to the next one. */
  lemma CompleteLevelMoves(r: Room, catalog: seq<Level>, now: int)
    requires Consistent(r, catalog)
    ensures var r' := CompleteLevelSpec(r, catalog, now);
      && Consistent(r', catalog)
      && Keys(r'.players) == Keys(r.players)
      && (r.currentLevel >= |catalog| ==>
            r'.state == Completed && r'.currentLevel == r.currentLevel && r'.players == r.players &&
            r'.outbox == r.outbox + Broadcast(r.players, GameCompleted(now - r.levelStartTime)))
      && (r.currentLevel < |catalog| ==>
            r'.state == Playing && r'.currentLevel == r.currentLevel + 1 && r'.levelStartTime == now &&
            r'.outbox == r.outbox + Broadcast(r.players, LevelCompleted(r.currentLevel, r.currentLevel + 1)))
  {
    if r.currentLevel < |catalog| {
      var r1 := r.(currentLevel := r.currentLevel + 1);
      InitializeLevelResets(r1, catalog, now);
      var n := InitializeLevelSpec(r1, catalog, now);
      assert forall i :: 0 <= i < |r.players| ==> n.players[i].key == r.players[i].key;
      assert Broadcast(n.players, LevelCompleted(r.currentLevel, r.currentLevel + 1))
          == Broadcast(r.players, LevelCompleted(r.currentLevel, r.currentLevel + 1));
    }
  }

  /**
   * The exit scan keeps the room consistent and its roster, only appends to
   * the outbox, and advances at most one level per player still to visit.
   */
  lemma {:induction false} ExitScanKeeps(r: Room, catalog: seq<Level>, exit: Rect, i: nat, now: int)
    requires Consistent(r, catalog)
    ensures var r' := ExitScan(r, catalog, exit, i, now);
      && Consistent(r', catalog)
      && Keys(r'.players) == Keys(r.players)
      && r.outbox <= r'.outbox
      && r.currentLevel <= r'.currentLevel <= r.currentLevel + (if i < |r.players| then |r.players| - i else 0)
      && (r.state != Empty ==> r'.state != Empty)
    decreases |r.players| - i
  {
    if i < |r.players| {
      var r1 := if Overlap(Box(r.players[i].val), exit) then CompleteLevelSpec(r, catalog, now) else r;
      assert ExitScan(r, catalog, exit, i, now) == ExitScan(r1, catalog, exit, i + 1, now);
      ExitStepKeeps(r, catalog, exit, i, now);
      ExitScanKeeps(r1, catalog, exit, i + 1, now);
    }
  }

  /** One step of the exit scan: a level completed or nothing, with the facts the scan accumulates. */
  lemma ExitStepKeeps(r: Room, catalog: seq<Level>, exit: Rect, i: nat, now: int)
    requires Consistent(r, catalog) && i < |r.players|
    ensures var r1 := if Overlap(Box(r.players[i].val), exit) then CompleteLevelSpec(r, catalog, now) else r;
      && Consistent(r1, catalog)
      && Keys(r1.players) == Keys(r.players) && |r1.players| == |r.players|
      && r.outbox <= r1.outbox
      && r.currentLevel <= r1.currentLevel <= r.currentLevel + 1
      && (r.state != Empty ==> r1.state != Empty)
  {
    CompleteLevelMoves(r, catalog, now);
  }

  /**
   * The exit scan fires on the players it visits: when none of players i..
   * stands on the exit it changes nothing; when one does, the level is
   * completed, so the room moves past its level, or on the last level the
   * game is completed.
   */
  lemma {:induction false} ExitScanTriggers(r: Room, catalog: seq<Level>, exit: Rect, i: nat, now: int)
    requires Consistent(r, catalog) && r.state != Completed
    ensures var r' := ExitScan(r, catalog, exit, i, now);
      && ((forall j :: i <= j < |r.players| ==> !Overlap(Box(r.players[j].val), exit)) ==> r' == r)
      && ((exists j :: i <= j < |r.players| && Overlap(Box(r.players[j].val), exit)) ==>
            && (r.currentLevel < |catalog| ==> r'.currentLevel > r.currentLevel)
            && (r.currentLevel == |catalog| ==> r'.state == Completed))
    decreases |r.players| - i
  {
    if i < |r.players| {
      if Overlap(Box(r.players[i].val), exit) {
        var r1 := CompleteLevelSpec(r, catalog, now);
        assert ExitScan(r, catalog, exit, i, now) == ExitScan(r1, catalog, exit, i + 1, now);
        CompleteLevelMoves(r, catalog, now);
        if r.currentLevel < |catalog| {
          ExitScanKeeps(r1, catalog, exit, i + 1, now);
        } else {
          ExitScanStaysCompleted(r1, catalog, exit, i + 1, now);
        }
      } else {
        assert ExitScan(r, catalog, exit, i, now) == ExitScan(r, catalog, exit, i + 1, now);
        ExitScanTriggers(r, catalog, exit, i + 1, now);
      }
    }
  }

  /** Once the last level is completed, further players on the exit complete it again and nothing else. */
  lemma {:induction false} ExitScanStaysCompleted(r: Room, catalog: seq<Level>, exit: Rect, i: nat, now: int)
    requires r.currentLevel >= |catalog| && r.state == Completed
    ensures var r' := ExitScan(r, catalog, exit, i, now);
      r'.state == Completed && r'.currentLevel == r.currentLevel && r'.players == r.players
    decreases |r.players| - i
  {
    if i < |r.players| {
      var r1 := if Overlap(Box(r.players[i].val), exit) then CompleteLevelSpec(r, catalog, now) else r;
      assert r1.state == Completed && r1.currentLevel == r.currentLevel && r1.players == r.players;
      ExitScanStaysCompleted(r1, catalog, exit, i + 1, now);
    }
  }

  /**
   * `update` completes the level exactly when a player stands on the exit:
   * with nobody on it only the switches and doors change; with somebody on
   * it the room leaves its level, or the game is completed on the last one.
   */
  lemma UpdateReachesExit(r: Room, catalog: seq<Level>, now: int)
    requires Consistent(r, catalog) && r.state == Playing
    ensures var r' := UpdateSpec(r, catalog, now);
      var exit := catalog[r.currentLevel - 1].exit;
      && (exit.None? || (forall j :: 0 <= j < |r.players| ==> !Overlap(Box(r.players[j].val), TileRect(exit.value.x, exit.value.y))) ==>
            r' == r.(switches := r'.switches, doors := r'.doors))
      && (exit.Some? && (exists j :: 0 <= j < |r.players| && Overlap(Box(r.players[j].val), TileRect(exit.value.x, exit.value.y))) ==>
            && (r.currentLevel < |catalog| ==> r'.currentLevel > r.currentLevel)
            && (r.currentLevel == |catalog| ==> r'.state == Completed))
  {
    var level := catalog[r.currentLevel - 1];
    var sw := SwitchPhase(r.switches, r.players, now);
    var r1 := r.(switches := sw, doors := DoorPhase(r.doors, sw));
    SwitchPhaseKeeps(r, catalog, now);
    if level.exit.Some? {
      ExitScanTriggers(r1, catalog, TileRect(level.exit.value.x, level.exit.value.y), 0, now);
    }
  }

  lemma SwitchPhaseKeeps(r: Room, catalog: seq<Level>, now: int)
    requires Consistent(r, catalog)
    ensures var sw := SwitchPhase(r.switches, r.players, now);
      Consistent(r.(switches := sw, doors := DoorPhase(r.doors, sw)), catalog)
  {
    var level := catalog[r.currentLevel - 1];
    var sw := SwitchPhase(r.switches, r.players, now);
    forall i | 0 <= i < |sw| ensures sw[i].def == level.switches[i] && !sw[i].isExpired {
      ExpiryNeverFires(r.switches[i], Values(r.players), now);
    }
  }

  /**
   * `update` keeps the room consistent and its roster, only appends events,
   * and advances at most one level per player; in any state but 'playing'
   * it changes nothing.
   */
  lemma UpdateKeeps(r: Room, catalog: seq<Level>, now: int)
    requires Consistent(r, catalog)
    ensures var r' := UpdateSpec(r, catalog, now);
      && Consistent(r', catalog)
      && Keys(r'.players) == Keys(r.players)
      && r.outbox <= r'.outbox
      && r.currentLevel <= r'.currentLevel <= r.currentLevel + |r.players|
      && (r.state != Empty ==> r'.state != Empty)
      && (r.state != Playing ==> r' == r)
  {
    if r.state == Playing {
      var sw := SwitchPhase(r.switches, r.players, now);
      var r1 := r.(switches := sw, doors := DoorPhase(r.doors, sw));
      SwitchPhaseKeeps(r, catalog, now);
      var level := catalog[r.currentLevel - 1];
      if level.exit.Some? {
        ExitScanKeeps(r1, catalog, TileRect(level.exit.value.x, level.exit.value.y), 0, now);
      }
    }
  }

  /**
   * A visit of the 30 Hz loop keeps the room consistent, not 'empty', with
   * the same roster; its events only append to the outbox, a snapshot last
   * exactly when the room is still playing.
   */
  lemma TickKeeps(r: Room, catalog: seq<Level>, id: RoomId, now: int)
    requires Consistent(r, catalog) && r.state != Empty
    ensures var r' := TickSpec(r, catalog, id, now);
      var u := UpdateSpec(r, catalog, now);
      && Consistent(r', catalog)
      && r'.state != Empty
      && Keys(r'.players) == Keys(r.players)
      && r.outbox <= r'.outbox
      && (u.state == Playing <==> |r'.outbox| == |u.outbox| + |u.players| && r'.players == u.players && r'.state == Playing)
      && (u.state == Playing ==>
            && r' == u.(outbox := r'.outbox)
            && r'.outbox[..|u.outbox|] == u.outbox
            && forall k :: 0 <= k < |u.players| ==>
                 r'.outbox[|u.outbox| + k] == Outgoing(ToSocket(u.players[k].key), GameStateSnapshot(id, u.currentLevel, Playing)))
      && (u.state != Playing ==> r' == u)
  {
    UpdateKeeps(r, catalog, now);
  }

  /**
   * The switch phase of a tick: a switch is active exactly when some
   * player's box overlaps its tile strictly, an active switch is stamped
   * with `now` and not expired, an inactive one keeps its stamp.
   */
  lemma SwitchPhaseMeaning(r: Room, catalog: seq<Level>, now: int, i: int)
    requires Consistent(r, catalog) && 0 <= i < |r.switches|
    ensures var s := SwitchPhase(r.switches, r.players, now)[i];
      && (s.active <==> exists k :: 0 <= k < |r.players| && Overlap(Box(r.players[k].val), SwitchRect(s.def)))
      && (s.active ==> s.lastActivated == now)
      && !s.isExpired
      && (!s.active ==> s.lastActivated == r.switches[i].lastActivated)
  {
    var level := catalog[r.currentLevel - 1];
    assert r.switches[i].def == level.switches[i];
    ExpiryNeverFires(r.switches[i], Values(r.players), now);
    var vs := Values(r.players);
    assert forall k :: 0 <= k < |r.players| ==> vs[k] == r.players[k].val;
  }

  /** Consistency only asks of the roster that its keys be distinct and that it hold at most four players. */
  lemma ConsistentRoster(r: Room, catalog: seq<Level>, ps: OMap<SocketId, Player>)
    requires Consistent(r, catalog) && DistinctKeys(ps) && |ps| <= MAX_PLAYERS
    ensures Consistent(r.(players := ps), catalog)
  {
  }

  /**
   * Input keeps the room consistent, its roster and every other player: only
   * the sender's entry changes, and only when the sender is in the room.
   */
  lemma UpdatePlayerKeeps(r: Room, catalog: seq<Level>, socket: SocketId, keys: KeyState)
    requires Consistent(r, catalog)
    ensures var r' := UpdatePlayerSpec(r, catalog[r.currentLevel - 1], socket, keys);
      && Consistent(r', catalog)
      && Keys(r'.players) == Keys(r.players)
      && (forall i :: 0 <= i < |r.players| && r.players[i].key != socket ==> r'.players[i] == r.players[i])
      && r' == r.(players := r'.players)
  {
    var level := catalog[r.currentLevel - 1];
    GetFindsKey(r.players, socket);
    match Get(r.players, socket)
    case None =>
    case Some(p) =>
      var q := Resolve(ApplyInput(p, keys), level, r.doors);
      PutKeys(r.players, socket, q);
      PutDistinct(r.players, socket, q);
      ConsistentRoster(r, catalog, Put(r.players, socket, q));
      forall i | 0 <= i < |r.players| && r.players[i].key != socket
        ensures Put(r.players, socket, q)[i] == r.players[i]
      {
        PutOthers(r.players, socket, q, i);
      }
  }

  /**
   * Proof step for `GameRoom.UpdatePlayer`: unfolds `UpdatePlayerSpec` for a
   * sender found in the room, so that the method need not unfold the move.
   */
  lemma UpdatePlayerStored(r: Room, level: Level, socket: SocketId, keys: KeyState, p: Player, q: Player)
    requires Get(r.players, socket) == Some(p)
    requires q == Resolve(ApplyInput(p, keys), level, r.doors)
    ensures UpdatePlayerSpec(r, level, socket, keys) == r.(players := Put(r.players, socket, q))
  {
  }

  // ---- the room object ----

  class GameRoom {
    const id: RoomId
    const catalog: seq<Level>
    var players: OMap<SocketId, Player>
    var currentLevel: int
    var switches: seq<Switch>
    var doors: seq<Door>
    var elevators: seq<Elevator>
    var gameState: Lifecycle
    var lastUpdate: int
    var levelStartTime: int
    var outbox: seq<Outgoing>

    function View(): Room
      reads this
    {
      Room(players, currentLevel, switches, doors, elevators, gameState, levelStartTime, outbox)
    }

    /** What holds even before the first level is set up. */
    ghost predicate Basic()
      reads this
    {
      WellFormedCatalog(catalog) && currentLevel >= 1 && DistinctKeys(players) && |players| <= MAX_PLAYERS
    }

    ghost predicate Valid()
      reads this
    {
      Consistent(View(), catalog)
    }

    /** A new room sets up level 1 at once and is then playing, with nobody in it. */
    constructor (id: RoomId, catalog: seq<Level>, now: int)
      requires WellFormedCatalog(catalog)
      ensures Valid()
      ensures this.id == id && this.catalog == catalog && lastUpdate == now
      ensures View() == NewRoom(catalog, now)
    {
      this.id := id;
      this.catalog := catalog;
      players := [];
      currentLevel := 1;
      switches := [];
      doors := [];
      elevators := [];
      gameState := Waiting;
      lastUpdate := now;
      levelStartTime := 0;
      outbox := [];
      new;
      InitializeLevel(now);
      NewRoomPlaying(catalog, now);
    }

    /** `initializeLevel`. */
    method InitializeLevel(now: int)
      requires Basic()
      modifies this
      ensures Basic()
      ensures View() == InitializeLevelSpec(old(View()), catalog, now)
      ensures lastUpdate == old(lastUpdate)
    {
      var found := LevelAt(catalog, currentLevel);
      if found.None? {
        return;
      }
      var level := found.value;
      // released switch states, one per definition
      var sw := [];
      var i := 0;
      while i < |level.switches|
        invariant 0 <= i <= |level.switches|
        invariant sw == ResetSwitches(level.switches[..i])
      {
        sw := sw + [Switch(level.switches[i], false, 0, false)];
        i := i + 1;
      }
      assert level.switches[..i] == level.switches;
      // closed doors, one per definition
      var ds := [];
      i := 0;
      while i < |level.doors|
        invariant 0 <= i <= |level.doors|
        invariant ds == CloseDoors(level.doors[..i])
      {
        ds := ds + [Door(level.doors[i], false)];
        i := i + 1;
      }
      assert level.doors[..i] == level.doors;
      // elevators back at their starting height
      var es := [];
      i := 0;
      while i < |level.elevators|
        invariant 0 <= i <= |level.elevators|
        invariant es == ResetElevators(level.elevators[..i])
      {
        var e := level.elevators[i];
        es := es + [Elevator(e, e.y, false)];
        i := i + 1;
      }
      assert level.elevators[..i] == level.elevators;
      // the first players, in join order, to the spawn point of their index
      var ps := players;
      var spawnIndex := 0;
      var j := 0;
      while j < |ps|
        invariant 0 <= j <= |ps| == |players|
        invariant spawnIndex == if j < |level.spawns| then j else |level.spawns|
        invariant forall k :: 0 <= k < |ps| ==>
          ps[k] == if k < j then Respawn(players, level.spawns)[k] else players[k]
      {
        if spawnIndex < |level.spawns| {
          var spawn := level.spawns[spawnIndex];
          var player := ps[j].val;
          player := player.(x := spawn.x * TILE, y := spawn.y * TILE, vx := 0, vy := 0, onGround := false);
          ps := ps[j := Entry(ps[j].key, player)];
          spawnIndex := spawnIndex + 1;
        }
        j := j + 1;
      }
      assert ps == Respawn(players, level.spawns);
      RespawnKeepsKeys(players, level.spawns);
      switches, doors, elevators := sw, ds, es;
      levelStartTime := now;
      gameState := Playing;
      players := ps;
    }

    /** `broadcastToRoom`. */
    method BroadcastToRoom(e: Event)
      modifies this`outbox
      ensures outbox == old(outbox) + Broadcast(players, e)
    {
      var i := 0;
      while i < |players|
        invariant 0 <= i <= |players|
        invariant outbox == old(outbox) + Broadcast(players[..i], e)
      {
        assert Broadcast(players[..i + 1], e) == Broadcast(players[..i], e) + [Outgoing(ToSocket(players[i].key), e)];
        outbox := outbox + [Outgoing(ToSocket(players[i].key), e)];
        i := i + 1;
      }
      assert players[..i] == players;
    }

    /** `addPlayer`. */
    method AddPlayer(socket: SocketId) returns (added: Option<Player>)
      requires Valid()
      modifies this
      ensures Valid()
      ensures (View(), added) == AddPlayerSpec(old(View()), catalog, socket)
    {
      AddPlayerMeaning(View(), catalog, socket);
      if |players| >= MAX_PLAYERS {
        return None;
      }
      var playerId := |players| + 1;
      var level := catalog[currentLevel - 1];
      var spawn := if |players| < |level.spawns| then level.spawns[|players|] else level.spawns[0];
      var player := Player(playerId, PlayerName(playerId), PLAYER_COLORS[playerId - 1],
                           spawn.x * TILE, spawn.y * TILE, 0, 0, false, NO_KEYS);
      players := Put(players, socket, player);
      added := Some(player);
    }

    /** `removePlayer`. */
    method RemovePlayer(socket: SocketId)
      requires Valid()
      modifies this
      ensures Valid()
      ensures View() == RemovePlayerSpec(old(View()), socket)
    {
      RemovePlayerMeaning(View(), catalog, socket);
      players := Remove(players, socket);
      if |players| == 0 {
        gameState := Empty;
      }
    }

    /** `updatePlayer`: input of an unknown socket is dropped; otherwise keys, velocity, then the move. */
    method UpdatePlayer(socket: SocketId, keys: KeyState)
      requires Valid()
      modifies this
      ensures Valid()
      ensures View() == UpdatePlayerSpec(old(View()), catalog[currentLevel - 1], socket, keys)
    {
      ghost var r0 := View();
      var found := Get(players, socket);
      if found.None? {
        return;
      }
      var player := ApplyKeys(found.value, keys);
      player := MovePlayerWithCollision(player, catalog[currentLevel - 1], doors);
      UpdatePlayerKeeps(r0, catalog, socket, keys);
      UpdatePlayerStored(r0, catalog[r0.currentLevel - 1], socket, keys, found.value, player);
      players := Put(players, socket, player);
    }

    /** `completeLevel`. */
    method CompleteLevel(now: int)
      requires Valid()
      modifies this
      ensures Valid()
      ensures View() == CompleteLevelSpec(old(View()), catalog, now)
      ensures lastUpdate == old(lastUpdate)
    {
      ghost var r0 := View();
      if currentLevel >= |catalog| {
        gameState := Completed;
        BroadcastToRoom(GameCompleted(now - levelStartTime));
      } else {
        currentLevel := currentLevel + 1;
        InitializeLevel(now);
        BroadcastToRoom(LevelCompleted(currentLevel - 1, currentLevel));
      }
      assert View() == CompleteLevelSpec(r0, catalog, now);
      CompleteLevelMoves(r0, catalog, now);
    }

    /** `update`. */
    method Update(now: int)
      requires Valid()
      modifies this
      ensures Valid()
      ensures View() == UpdateSpec(old(View()), catalog, now)
      ensures lastUpdate == old(lastUpdate)
    {
      if gameState != Playing {
        return;
      }
      ghost var r0 := View();
      var level := catalog[currentLevel - 1];
      // Update switches, then the doors from the new switches
      var sw := TickSwitches(switches, players, now);
      var ds := RefreshDoors(doors, sw);
      SwitchPhaseKeeps(r0, catalog, now);
      switches, doors := sw, ds;
      assert View() == r0.(switches := sw, doors := ds);
      // the exit test, over every player
      if level.exit.Some? {
        CheckExit(TileRect(level.exit.value.x, level.exit.value.y), now);
      }
    }

    /**
     * The exit check at the end of `update`: every player in join order is
     * tested against the exit, and the loop goes on after a completion.
     */
    method CheckExit(exitRect: Rect, now: int)
      requires Valid()
      modifies this
      ensures Valid()
      ensures View() == ExitScan(old(View()), catalog, exitRect, 0, now)
      ensures lastUpdate == old(lastUpdate)
    {
      ghost var r1 := View();
      var j := 0;
      while j < |players|
        invariant Valid()
        invariant 0 <= j <= |players| == |r1.players|
        invariant ExitScan(View(), catalog, exitRect, j, now) == ExitScan(r1, catalog, exitRect, 0, now)
        invariant lastUpdate == old(lastUpdate)
      {
        if Overlap(Box(players[j].val), exitRect) {
          CompleteLevel(now);
        }
        j := j + 1;
      }
    }

    /** One visit of the 30 Hz loop. */
    method Tick(now: int)
      requires Valid()
      modifies this
      ensures Valid()
      ensures View() == TickSpec(old(View()), catalog, id, now)
    {
      Update(now);
      if gameState == Playing {
        BroadcastToRoom(GameStateSnapshot(id, currentLevel, gameState));
      }
    }
  }
}
