/**
 * Concrete runs of the model that show how the server behaves as written:
 * a switch opening level 1's doors, the exit loop advancing more than one
 * level in one tick, the game-completed event sent more than once, player
 * ids reused after a departure, a connection left behind in a room it
 * joined earlier, and the empty room id.
 */
module Scenarios {
  import opened Wrappers
  import opened OrderedMaps
  import opened Geometry
  import opened Levels
  import opened Entities
  import opened Puzzle
  import opened Rooms
  import opened Registry

  /** A level with no platforms, switches, doors or elevators. */
  function Open(id: int, exit: Tile, spawns: seq<Tile>): Level {
    Level(id, 30, 15, [], [], [], [], Some(exit), spawns)
  }

  function At(p: Player, x: int, y: int): Player {
    p.(x := x, y := y)
  }

  /** Standing on the floor over the switch of level 1 opens both doors it controls; nobody reaches the exit. */
  lemma LevelOneSwitchOpensDoors(now: int, t: int)
    ensures var p := At(NewPlayer(0, LevelOne), 5 * TILE, 13 * TILE - PLAYER_SIZE);
      var r := NewRoom([LevelOne], now).(players := [Entry("a", p)]);
      var u := UpdateSpec(r, [LevelOne], t);
      && |u.switches| == 1 && |u.doors| == 2
      && u.switches[0].active && u.switches[0].lastActivated == t
      && u.doors[0].open && u.doors[1].open
      && u.currentLevel == 1 && u.state == Playing
  {
    var p := At(NewPlayer(0, LevelOne), 5 * TILE, 13 * TILE - PLAYER_SIZE);
    var r0 := NewRoom([LevelOne], now);
    assert r0.switches == [Switch(LevelOne.switches[0], false, 0, false)];
    assert r0.doors == [Door(LevelOne.doors[0], false), Door(LevelOne.doors[1], false)];
    var r := r0.(players := [Entry("a", p)]);
    assert Values(r.players) == [p];
    assert Overlap(Box(p), SwitchRect(LevelOne.switches[0]));
    var sw := SwitchPhase(r.switches, r.players, t);
    assert sw[0] == TickedSwitch(r.switches[0], [p], t);
    assert sw[0].active && sw[0].lastActivated == t && !sw[0].isExpired;
    assert Lookup(sw, 0) == Some(sw[0]);
    var r1 := r.(switches := sw, doors := DoorPhase(r.doors, sw));
    assert !Overlap(Box(p), TileRect(22, 12));
    assert ExitScan(r1, [LevelOne], TileRect(22, 12), 0, t) == ExitScan(r1, [LevelOne], TileRect(22, 12), 1, t) == r1;
  }

  /**
   * The exit loop goes on after a level is completed and tests the next
   * player at its new spawn point against the old exit: when the next
   * level's second spawn point lies on the old exit, one tick advances two
   * levels.
   */
  lemma ExitLoopSkipsLevel(now: int)
    ensures var catalog := [Open(1, Tile(22, 12), [Tile(2, 11), Tile(3, 11)]),
                            Open(2, Tile(5, 5), [Tile(2, 11), Tile(22, 12)]),
                            Open(3, Tile(5, 5), [Tile(2, 11), Tile(3, 11)])];
      var a := At(NewPlayer(0, catalog[0]), 22 * TILE, 12 * TILE);
      var b := At(NewPlayer(1, catalog[0]), 2 * TILE, 11 * TILE);
      var r := NewRoom(catalog, 0).(players := [Entry("a", a), Entry("b", b)]);
      var u := UpdateSpec(r, catalog, now);
      u.currentLevel == 3 && u.state == Playing
  {
    var catalog := [Open(1, Tile(22, 12), [Tile(2, 11), Tile(3, 11)]),
                    Open(2, Tile(5, 5), [Tile(2, 11), Tile(22, 12)]),
                    Open(3, Tile(5, 5), [Tile(2, 11), Tile(3, 11)])];
    var a := At(NewPlayer(0, catalog[0]), 22 * TILE, 12 * TILE);
    var b := At(NewPlayer(1, catalog[0]), 2 * TILE, 11 * TILE);
    var r := NewRoom(catalog, 0).(players := [Entry("a", a), Entry("b", b)]);
    var exit := TileRect(22, 12);
    assert r.state == Playing && r.currentLevel == 1 && r.switches == [] && r.doors == [];
    var r1 := r.(switches := [], doors := []);
    assert UpdateSpec(r, catalog, now) == ExitScan(r1, catalog, exit, 0, now);
    assert Overlap(Box(a), exit);
    var r2 := CompleteLevelSpec(r1, catalog, now);
    assert r2.players == Respawn(r1.players, catalog[1].spawns);
    assert r2.currentLevel == 2;
    assert r2.players[1].val.x == 22 * TILE && r2.players[1].val.y == 12 * TILE;
    assert Overlap(Box(r2.players[1].val), exit);
    var r3 := CompleteLevelSpec(r2, catalog, now);
    assert r3.currentLevel == 3 && r3.state == Playing;
    assert ExitScan(r1, catalog, exit, 0, now) == ExitScan(r2, catalog, exit, 1, now);
    assert ExitScan(r2, catalog, exit, 1, now) == ExitScan(r3, catalog, exit, 2, now);
    assert ExitScan(r3, catalog, exit, 2, now) == r3;
  }

  /** On the last level, every player standing on the exit completes the game again: each is told twice. */
  lemma GameCompletedRepeats(now: int)
    ensures var catalog := [Open(1, Tile(22, 12), [Tile(2, 11), Tile(3, 11)])];
      var a := At(NewPlayer(0, catalog[0]), 22 * TILE, 12 * TILE);
      var b := At(NewPlayer(1, catalog[0]), 22 * TILE + 2, 12 * TILE);
      var r := NewRoom(catalog, 0).(players := [Entry("a", a), Entry("b", b)]);
      var u := UpdateSpec(r, catalog, now);
      && u.state == Completed
      && u.outbox == Broadcast(r.players, GameCompleted(now)) + Broadcast(r.players, GameCompleted(now))
  {
    var catalog := [Open(1, Tile(22, 12), [Tile(2, 11), Tile(3, 11)])];
    var a := At(NewPlayer(0, catalog[0]), 22 * TILE, 12 * TILE);
    var b := At(NewPlayer(1, catalog[0]), 22 * TILE + 2, 12 * TILE);
    var r := NewRoom(catalog, 0).(players := [Entry("a", a), Entry("b", b)]);
    var exit := TileRect(22, 12);
    assert r.state == Playing && r.currentLevel == 1 && r.switches == [] && r.doors == [];
    assert r.outbox == [] && r.levelStartTime == 0;
    var r1 := r.(switches := [], doors := []);
    assert UpdateSpec(r, catalog, now) == ExitScan(r1, catalog, exit, 0, now);
    assert Overlap(Box(a), exit) && Overlap(Box(b), exit);
    var msgs := Broadcast(r.players, GameCompleted(now));
    var r2 := CompleteLevelSpec(r1, catalog, now);
    assert r2 == r1.(state := Completed, outbox := msgs);
    var r3 := CompleteLevelSpec(r2, catalog, now);
    assert r3 == r1.(state := Completed, outbox := msgs + msgs);
    assert ExitScan(r1, catalog, exit, 0, now) == ExitScan(r2, catalog, exit, 1, now);
    assert ExitScan(r2, catalog, exit, 1, now) == ExitScan(r3, catalog, exit, 2, now) == r3;
  }

  /**
   * Ids count the players present, not the players ever admitted: after
   * the first of two players leaves, the next one gets the id and colour of
   * the one still there.
   */
  lemma PlayerIdsRepeat()
    ensures var catalog := [LevelOne];
      var r1 := AddPlayerSpec(NewRoom(catalog, 0), catalog, "a").0;
      var second := AddPlayerSpec(r1, catalog, "b");
      var r3 := RemovePlayerSpec(second.0, "a");
      var third := AddPlayerSpec(r3, catalog, "c");
      && second.1.Some? && third.1.Some?
      && second.1.value.id == third.1.value.id == 2
      && second.1.value.color == third.1.value.color
      && Get(third.0.players, "b") == second.1 && Get(third.0.players, "c") == third.1
  {
    var catalog := [LevelOne];
    var r0 := NewRoom(catalog, 0);
    NewRoomPlaying(catalog, 0);
    var pa := NewPlayer(0, LevelOne);
    var pb := NewPlayer(1, LevelOne);
    var r1 := AddPlayerSpec(r0, catalog, "a").0;
    assert r1.players == [Entry("a", pa)];
    var second := AddPlayerSpec(r1, catalog, "b");
    assert |r1.players| == 1 && r1.currentLevel == 1;
    assert second.1 == Some(pb);
    PutAbsent(r1.players, "b", pb);
    assert second.0.players == [Entry("a", pa), Entry("b", pb)];
    var r3 := RemovePlayerSpec(second.0, "a");
    assert r3.players == [Entry("b", pb)];
    var third := AddPlayerSpec(r3, catalog, "c");
    assert |r3.players| == 1 && r3.currentLevel == 1;
    assert third.1 == Some(pb);
    PutAbsent(r3.players, "c", pb);
    assert third.0.players == [Entry("b", pb), Entry("c", pb)];
  }

  /**
   * A connection that joins a second room stays a player of the first: its
   * disconnect only leaves the room it joined last.
   */
  lemma SecondJoinLeavesStalePlayer()
    ensures var catalog := [LevelOne];
      var st0 := ServerState([], map[], []);
      var st1 := JoinSpec(st0, catalog, "s", "red", 0);
      (JoinMeaning(st0, catalog, "s", "red", 0);
       var st2 := JoinSpec(st1, catalog, "s", "blue", 0);
       (JoinMeaning(st1, catalog, "s", "blue", 0);
        var st3 := DisconnectSpec(st2, "s");
        && Get(st3.rooms, "blue").None?
        && Get(st3.rooms, "red").Some?
        && "s" in Keys(Get(st3.rooms, "red").value.players)))
  {
    var catalog := [LevelOne];
    var st0 := ServerState([], map[], []);
    JoinMeaning(st0, catalog, "s", "red", 0);
    var st1 := JoinSpec(st0, catalog, "s", "red", 0);
    assert Get(st1.rooms, "blue") == None;
    JoinMeaning(st1, catalog, "s", "blue", 0);
    var st2 := JoinSpec(st1, catalog, "s", "blue", 0);
    LevelOneWellFormed();
    NewRoomPlaying(catalog, 0);
    var blue := AddPlayerSpec(NewRoom(catalog, 0), catalog, "s").0;
    assert blue.players == [Entry("s", NewPlayer(0, LevelOne))];
    GetPut(st1.rooms, "blue", blue, "blue");
    assert Get(st2.rooms, "blue") == Some(blue);
    assert RoomOf(st2, "s") == Some("blue");
    assert Remove(blue.players, "s") == [];
    DisconnectMeaning(st2, catalog, "s");
  }

  /**
   * The empty room id can be joined, but a connection recorded there is
   * treated as in no room: its input is dropped and its disconnect leaves
   * its player behind.
   */
  lemma EmptyRoomIdIgnored(keys: KeyState)
    ensures var catalog := [LevelOne];
      var st0 := ServerState([], map[], []);
      var st1 := JoinSpec(st0, catalog, "s", "", 0);
      (JoinMeaning(st0, catalog, "s", "", 0);
       && Get(st1.rooms, "").Some?
       && InputSpec(st1, catalog, "s", keys) == st1
       && DisconnectSpec(st1, "s").rooms == st1.rooms)
  {
    JoinMeaning(ServerState([], map[], []), [LevelOne], "s", "", 0);
  }
}
