/** The mutable records of a room: players, switches, doors and elevators. */
module Entities {
  import opened Geometry
  import opened Levels

  /** The last key flags a client sent; a new player starts with none held. */
  datatype KeyState = KeyState(left: bool, right: bool, jump: bool)

  const NO_KEYS: KeyState := KeyState(false, false, false)

  /** A player; x, y, vx and vy are in half-pixel units. */
  datatype Player = Player(id: int, name: string, color: string,
                           x: int, y: int, vx: int, vy: int,
                           onGround: bool, keys: KeyState)

  function Box(p: Player): Rect {
    PlayerBox(p.x, p.y)
  }

  /** A switch of the current level with its per-tick state. */
  datatype Switch = Switch(def: SwitchDef, active: bool, lastActivated: int, isExpired: bool)

  /** `s.active && !s.isExpired`: the test every door condition applies to a switch. */
  predicate Live(s: Switch) {
    s.active && !s.isExpired
  }

  datatype Door = Door(def: DoorDef, open: bool)

  datatype Elevator = Elevator(def: ElevatorDef, currentY: int, moving: bool)
}
