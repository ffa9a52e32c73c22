/**
 * The static level catalog: one record per level, read-only for the whole
 * life of the server. Coordinates in a level are tile coordinates.
 */
module Levels {
  import opened Wrappers

  datatype Tile = Tile(x: int, y: int)

  /**
   * A door's `switchId`: a number names one switch; the strings 'both',
   * 'all', 'cross', 'timed' and 'final' name a combined condition; any other
   * value (the catalog uses 'elevator') is kept as Unrecognized.
   */
  datatype Condition =
    | BySwitch(id: int)
    | Both
    | All
    | Cross
    | Timed
    | Final
    | Unrecognized(tag: string)

  /** A switch as the catalog declares it; `duration` is read only when `timed` holds. */
  datatype SwitchDef = SwitchDef(x: int, y: int, id: int, timed: bool, duration: int,
                                 sequence: Option<int>, moving: bool)

  datatype DoorDef = DoorDef(x: int, y: int, condition: Condition)

  datatype ElevatorDef = ElevatorDef(x: int, y: int, targetY: int, switchId: int)

  /** A level; a list the catalog leaves out is the empty sequence, a missing exit is None. */
  datatype Level = Level(id: int, width: int, height: int, platforms: seq<Tile>,
                         switches: seq<SwitchDef>, doors: seq<DoorDef>,
                         elevators: seq<ElevatorDef>, exit: Option<Tile>, spawns: seq<Tile>)

  /**
   * What every level of the catalog satisfies: a non-empty grid, a first
   * spawn point (the player-joining code reads `spawns[0]` unguarded),
   * switch ids that are distinct (the room keys its switches by id) and
   * time windows that are not negative.
   */
  ghost predicate WellFormedLevel(l: Level) {
    && l.width >= 1 && l.height >= 1
    && |l.spawns| >= 1
    && (forall i, j :: 0 <= i < j < |l.switches| ==> l.switches[i].id != l.switches[j].id)
    && (forall i :: 0 <= i < |l.switches| ==> l.switches[i].duration >= 0)
  }

  ghost predicate WellFormedCatalog(catalog: seq<Level>) {
    |catalog| >= 1 && forall i :: 0 <= i < |catalog| ==> WellFormedLevel(catalog[i])
  }

  /** `LEVELS[n - 1]`, which is `undefined` outside the catalog. */
  function LevelAt(catalog: seq<Level>, n: int): (l: Option<Level>)
    ensures l.Some? <==> 1 <= n <= |catalog|
  {
    if 1 <= n <= |catalog| then Some(catalog[n - 1]) else None
  }

  /** Level 1, "First Steps Together": one switch opening a two-tile door. */
  const LevelOne: Level := Level(
    1, 25, 15,
    seq(25, i => Tile(i, 13)) + seq(25, i => Tile(i, 14)) +
    seq(15, i => Tile(0, i)) + seq(15, i => Tile(24, i)) +
    [Tile(10, 10), Tile(11, 10), Tile(12, 10)],
    [SwitchDef(5, 12, 0, false, 0, None, false)],
    [DoorDef(15, 12, BySwitch(0)), DoorDef(15, 11, BySwitch(0))],
    [],
    Some(Tile(22, 12)),
    [Tile(2, 11), Tile(3, 11), Tile(4, 11), Tile(5, 11)])

  lemma LevelOneWellFormed()
    ensures WellFormedLevel(LevelOne)
    ensures WellFormedCatalog([LevelOne])
  {
  }
}
