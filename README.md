# GAEM room engine, modelled in Dafny

This project models the core of the GAEM server, a cooperative multiplayer puzzle-platformer. Each room of up to four players is simulated by the server's `GameRoom` class in `server.js`.

It covers:

- **Player physics.** Keys become velocity, then the player moves axis by axis against the platform tiles and is clamped to the level.
- **Puzzle tick.** Switches are pressed by standing on them, and door conditions are evaluated: a numeric switch id, `both`, `all`, `cross`, `timed`, `final`, or anything else.
- **Level lifecycle.** The states are `waiting`, `playing`, `completed` and `empty`. The model covers level set-up, level completion and the exit check.
- **Roster and connection handlers.** Players join and leave. The model covers the `joinRoom`, `playerInput`, `disconnect` and `requestRoomList` handlers, and one pass of the 30 Hz loop over all rooms.

Layout, one module per file:

- `Geometry` has the units and rectangles. Everything is counted in half pixels, so all values stay integers: a tile is 80 units and a player box 40.
- `Levels` has the level catalog and level 1.
- `Entities` has players, switches, doors and elevators.
- `OrderedMaps` holds an insertion-ordered map with JavaScript `Map` semantics.
- `Physics` and `Puzzle` hold the pure per-player and per-switch logic.
- `Rooms` has the `Room` value, a function per room operation, and the class `GameRoom`. Its methods do the work step by step, with loops as the server has them, and each is proved to produce the state its function describes.
- `Registry` has the handler state `ServerState`, a function per handler, and the class `RoomRegistry`.
- `Scenarios` has concrete runs showing behaviour of the code as written.

`Date.now()` is passed in as `now`. Socket emits are appended to an `outbox` sequence of `Outgoing(recipient, event)` records.

The model follows the code where the code departs from what the game evidently means to do:

- **Doors do not block.** `checkCollision` walks the doors, but its `return true` sits inside a `forEach` callback, so the result is discarded. Only platforms block, and doors have no effect on movement (`Physics.CollisionIgnoresDoors`). The `// Check doors` loop evidently means closed doors to block; the model follows the code.
- **Timed switches never expire.** `lastActivated` is rewritten on every tick the switch is active. So `now - lastActivated > duration` never holds for a switch that was not already expired (`Puzzle.ExpiryNeverFires`). The `timed` and `duration` fields evidently mean a held switch to expire after its window; the model follows the code.
- **'final' is a single greedy pass.** It walks the switches in map order and counts consecutive ranks from 1. `sequenceCorrect` is computed but never read (`Puzzle.FinalIgnoresCorrectness`).
- **The exit loop does not stop after a completion.** It keeps going after `completeLevel`, and tests the remaining players, now at their new spawn points, against the old exit. With a catalog other than the shipped one, where a spawn point of the next level lies on the old exit, one tick can therefore advance more than one level (`Scenarios.ExitLoopSkipsLevel`); no shipped level places a spawn point on the previous level's exit. On the last level every player on the exit triggers `gameCompleted` again (`Scenarios.GameCompletedRepeats`).
- **Extra players keep their position.** `initializeLevel` moves only as many players as there are spawn points; the rest stay where they are. Only `addPlayer` falls back to the first spawn point (`spawns[size] || spawns[0]`).
- **Player ids can repeat.** Ids are the roster size plus one, so after a departure they repeat (`Scenarios.PlayerIdsRepeat`).
- **A second join leaves a stale player.** A connection that joins a second room stays a player of the first (`Scenarios.SecondJoinLeavesStalePlayer`).
- **The empty room id is treated as no room.** It is falsy, so its input and disconnect are ignored (`Scenarios.EmptyRoomIdIgnored`).
- **Players are not always clear of platforms.** The collision code keeps a box clear of the platforms only for moderate vertical speeds (`Physics.ResolveKeepsClear`). Gravity is unbounded, so with a catalog other than the shipped one, a fast enough fall passes through a platform (`Physics.FastFallTunnels`). The shipped levels are at most 30 tiles tall with ground in their bottom rows, so a fall from rest there stays within the proved speed bound. A box at a half-pixel coordinate can overlap a tile by half a pixel that the test does not cover (`Geometry.HalfPixelOverlapMissed`).

## Model

| member | source | states |
|---|---|---|
| Geometry.CoveredTilesMatchOverlap | server.js:567-572 | at a whole-pixel coordinate, the tiles the collision test covers on an axis are exactly the tiles the 20 px box strictly overlaps |
| Geometry.HalfPixelOverlapMissed | server.js:569-572 | some box at a half-pixel coordinate overlaps a tile beyond the last tile the collision test covers |
| Levels.LevelAt | server.js:414-415 | a level is found exactly for indices 1..number of levels; elsewhere the lookup is undefined and the caller returns early |
| Levels.LevelOneWellFormed | server.js:26-46 | level 1 has a non-empty grid, a first spawn point and distinct switch ids |
| OrderedMaps.Keys | server.js:458-468 | the keys of a map, one per entry and in insertion order |
| OrderedMaps.Values | server.js:604-616 | the values of a map in insertion order, which is the order `forEach` visits |
| OrderedMaps.GetFindsKey | server.js:509-510 | `get` returns a value exactly when the key is present, and that key-value entry is in the map |
| OrderedMaps.GetAt | server.js:509 | with distinct keys, `get` returns the value stored with the key |
| OrderedMaps.GetPut | server.js:495 | after `set`, `get` gives the new value at its key and the old value at every other key |
| OrderedMaps.PutKeys | server.js:495 | `set` keeps the key order, and appends a key that was absent and only then |
| OrderedMaps.PutOthers | server.js:495 | `set` leaves every entry with another key in its place |
| OrderedMaps.PutDistinct | server.js:495 | `set` keeps keys distinct |
| OrderedMaps.PutAt | server.js:495 | `set` on a present key replaces that entry where it stands |
| OrderedMaps.PutAbsent | server.js:495 | `set` on an absent key appends the entry |
| OrderedMaps.PutEntries | server.js:495 | after `set` the new entry is present, and every other entry was there before |
| OrderedMaps.PutPut | server.js:495 | a second `set` on the same key overrides the first |
| OrderedMaps.GetRemove | server.js:500 | after `delete`, `get` finds nothing at the key and the old value at every other key |
| OrderedMaps.RemoveKeys | server.js:500 | `delete` drops one entry exactly when the key is present, keeps the other keys and keeps keys distinct |
| OrderedMaps.RemoveAt | server.js:500 | `delete` of a present key cuts exactly its entry out and keeps the order of the rest |
| OrderedMaps.RemoveEntries | server.js:500 | `delete` only drops entries |
| OrderedMaps.RemovePut | server.js:495-500 | `delete` right after `set` on the same key leaves what `delete` alone leaves |
| Physics.ScanRows | server.js:576-580 | the inner loop hits exactly when some row of the column range holds a platform tile |
| Physics.ScanColumns | server.js:575-581 | the nested loops hit exactly when some tile of the covered rectangle is a platform tile |
| Physics.CheckCollisionMeansBlocked | server.js:567-591 | `checkCollision` is true exactly when a platform tile lies in the covered tile range (reference predicate `Blocked`) |
| Physics.CollisionIgnoresDoors | server.js:583-590 | the collision verdict is the same whatever the doors are |
| Physics.ClosedDoorDoesNotBlock | server.js:583-590 | a closed door on the player's own tile does not make it collide |
| Physics.InputSetsVelocity | server.js:512-526 | vx is -4, 0 or 4 px, and right wins over left; a jump sets vy to -12 px and leaves the ground only from the ground; 0.5 px of gravity is always added; the keys are stored |
| Physics.ApplyKeys | server.js:512-526 | the field-by-field input handling computes `ApplyInput`, whose meaning `InputSetsVelocity` states |
| Physics.MovePlayerWithCollision | server.js:532-565 | the field-by-field move, with its horizontal, vertical and clamping steps, computes `Resolve` |
| Physics.ResolveInside | server.js:532-565 | after the move the player is inside the level (0..width*40-20 px and 0..height*40-20 px), vx, id and keys are unchanged, and a grounded player has vy 0 |
| Physics.ClampBounds | server.js:563-564 | a clamped coordinate lies in 0..(tiles*40-20) px |
| Physics.HorizontalStepKeepsClear | server.js:536-540 | for every player, a horizontal step into a platform is undone with y and vx unchanged, and any other step is taken; a player clear of platforms stays clear |
| Physics.LandingRow | server.js:550-551 | a landing puts the bottom of the box on the top edge of the tile row its bottom reached |
| Physics.CeilingRow | server.js:555-556 | a bump puts the top of the box on the bottom edge of the tile row its top reached |
| Physics.VerticalStepSnaps | server.js:543-560 | falling into a platform lands with vy 0 on a tile boundary; rising into one sets vy 0 below it; without a collision the move is taken and the player is airborne |
| Physics.SnappedRowWithin | server.js:543-557 | for a step of at most 40 px up or 39 px down, the snapped position covers only rows the box covered before |
| Physics.VerticalStepKeepsClear | server.js:543-560 | at moderate vertical speed a player clear of platforms stays clear after the vertical step |
| Physics.ClampInside | server.js:563-564 | clamping leaves a player already inside the level unchanged |
| Physics.ResolveKeepsClear | server.js:532-565 | the whole move keeps a player clear of platforms at moderate speed, clamping included when the unclamped position is inside |
| Physics.FastFallTunnels | server.js:543-560 | a fall of 80 px in one step passes through a one-tile platform and does not land |
| Puzzle.TickSwitch | server.js:600-626 | a switch is active exactly when some player's box strictly overlaps its tile; active switches are stamped `now`; an inactive switch keeps its stamp and expiry flag |
| Puzzle.ExpiryNeverFires | server.js:612-625 | a switch that is not expired is not expired after the tick |
| Puzzle.CountLiveAtLeastOne | server.js:654-657 | the 'both' counter is positive exactly when some switch is active and not expired |
| Puzzle.BothOpensIff | server.js:652-658 | a 'both' door is open exactly when two different switches are active and not expired |
| Puzzle.AllLiveMeansEvery | server.js:661-664 | the 'all' flag holds exactly when every switch is active and not expired |
| Puzzle.AllOpensIff | server.js:659-665 | an 'all' door is open exactly when there is a switch and every switch is active and not expired |
| Puzzle.CrossOpensIff | server.js:666-675 | a 'cross' door is open exactly when one live switch is left of column 25 and one at or right of it |
| Puzzle.TimedOpensIff | server.js:676-684 | a 'timed' door is open exactly when every timed switch is live, so with no timed switch it is open |
| Puzzle.BySwitchOpensIff | server.js:699-702 | a door on a numeric id is open exactly when the switch with that id exists and is live |
| Puzzle.UnrecognizedNeverOpens | server.js:705 | a door with any other condition is never open |
| Puzzle.FinalPassGrows | server.js:688-696 | the sequence counter never goes down |
| Puzzle.FinalIgnoresCorrectness | server.js:687-698 | the counter, and so the verdict, does not depend on `sequenceCorrect` |
| Puzzle.ChainDropFirst | server.js:690-696 | a chain of ranks from r to r+n contains a chain from r+1 to r+n |
| Puzzle.FinalPassFindsChain | server.js:688-698 | the counter reaches r+n exactly when, in map order, live switches carry ranks r, r+1, ..., r+n-1 |
| Puzzle.FinalOpensIff | server.js:685-698 | a 'final' door is open exactly when live switches of ranks 1..7 appear in that order in the switch map |
| Puzzle.ChainHasEveryRank | server.js:690-696 | every rank of a chain is carried by some live switch |
| Puzzle.FinalNeedsEveryRank | server.js:685-698 | if no live switch has one of the ranks 1..7, the 'final' door is closed |
| Rooms.RespawnKeepsKeys | server.js:456-468 | respawning keeps the sockets, their order and their distinctness |
| Rooms.InitializeLevelResets | server.js:413-469 | level set-up gives the level's switches (inactive, stamp 0), closed doors and elevators, sets the state to playing and the level start time to `now`. The first min(players, spawns) players in join order go to their spawn point at rest and off the ground, keeping id, name, colour and keys; the others are untouched |
| Rooms.NewRoomPlaying | server.js:399-411 | a new room is consistent, playing level 1 with nobody in it, started at `now`, all doors closed |
| Rooms.AddPlayerMeaning | server.js:471-497 | a join is refused exactly at four players, with nothing changed. Otherwise the socket maps to a new player with id size+1, at spawn `size` (else spawn 0), at rest with no keys; the roster grows unless the socket was present; the other players are untouched |
| Rooms.RemovePlayerMeaning | server.js:499-506 | the socket's player is gone and every other player stays. The state becomes 'empty' exactly when nobody is left (or it already was); otherwise it is unchanged |
| Rooms.CompleteLevelMoves | server.js:715-733 | on the last level the state becomes 'completed' and the level stays, and everyone is told the time since level start. Otherwise the next level is set up and playing from `now`, and everyone is told the old and new level |
| Rooms.ExitScanKeeps | server.js:633-648 | the exit loop keeps the room consistent and the roster, only appends messages, and advances at most one level per player |
| Rooms.ExitScanTriggers | server.js:633-648 | a player on the exit completes the level: with one on it among the players still to visit, the room moves past its level, or on the last level the game is completed; with none on it, the room is unchanged |
| Rooms.ExitScanStaysCompleted | server.js:633-648 | once the last level is completed, every further player on the exit completes it again without changing level, state or players |
| Rooms.SwitchPhaseKeeps | server.js:599-631 | recomputing switches and doors keeps the room consistent |
| Rooms.SwitchPhaseMeaning | server.js:599-626 | after the switch phase a switch is active exactly when some player's box overlaps it. It is never expired; active switches carry `now` and inactive ones their old stamp |
| Rooms.UpdateKeeps | server.js:593-649 | `update` changes nothing unless playing. It keeps the room consistent and its roster, only appends messages, never makes a room 'empty' and advances at most one level per player |
| Rooms.UpdateReachesExit | server.js:593-649 | in a playing room, `update` with nobody on the exit changes only switches and doors; with somebody on it, the room advances a level, or completes the game on the last level |
| Rooms.TickKeeps | server.js:844-852 | a tick of a live room keeps it consistent, non-empty and with the same roster. When the room is still playing after `update`, it appends to `update`'s messages a `gameState` snapshot addressed to each player in roster order, and changes nothing else; otherwise it is `update` alone |
| Rooms.ConsistentRoster | server.js:495-500 | a roster with distinct sockets and at most four players keeps a room consistent |
| Rooms.UpdatePlayerKeeps | server.js:508-530 | input changes only the sender's entry, keeps the roster and the room consistent, and touches no other field |
| Rooms.GameRoom.constructor | server.js:399-411 | a new room object holds the id and catalog, is consistent and equals a new room at `now` |
| Rooms.GameRoom.InitializeLevel | server.js:413-469 | the field-by-field set-up with its loops produces `InitializeLevelSpec` of the old state |
| Rooms.GameRoom.BroadcastToRoom | server.js:735-739 | appends one message per player in join order, changing nothing else |
| Rooms.GameRoom.AddPlayer | server.js:471-497 | returns the new player or nothing, and leaves the state `AddPlayerSpec` gives; the room stays consistent |
| Rooms.GameRoom.RemovePlayer | server.js:499-506 | leaves the state `RemovePlayerSpec` gives; the room stays consistent |
| Rooms.GameRoom.UpdatePlayer | server.js:508-530 | leaves the state `UpdatePlayerSpec` gives (keys, velocity, then the move); the room stays consistent |
| Rooms.GameRoom.CompleteLevel | server.js:715-733 | leaves the state `CompleteLevelSpec` gives; the room stays consistent |
| Rooms.TickSwitches | server.js:600-626 | the loop over the switches computes `SwitchPhase`: each switch ticked against every player, in map order |
| Rooms.RefreshDoors | server.js:629-631 | the loop over the doors computes `DoorPhase`: each door's `open` is its condition evaluated on the new switches |
| Rooms.GameRoom.CheckExit | server.js:633-648 | the exit loop, which calls `completeLevel` for every player on the exit and does not stop, leaves the state `ExitScan` gives; the room stays consistent |
| Rooms.GameRoom.Update | server.js:593-649 | switches, doors, then the exit check leave the state `UpdateSpec` gives; the room stays consistent |
| Rooms.GameRoom.Tick | server.js:844-852 | `update`, then a snapshot to every player if still playing, as `TickSpec` gives |
| Registry.GetRoomOk | server.js:773 | a room found in a well-kept map is well kept |
| Registry.PutRoomOk | server.js:776 | storing a well-kept room keeps the map well kept, stores it under its id and changes no other id |
| Registry.RemoveRoomOk | server.js:817 | deleting a room keeps the map well kept and changes no other id |
| Registry.FindRoom | server.js:773-777 | the room under the id if there is one, else a new consistent room |
| Registry.JoinMeaning | server.js:771-797 | a join is refused exactly when the room exists with four players, and then only 'roomFull' is sent. Otherwise the room exists with the socket in it, the socket records that room, and no other room changes. The server stays consistent |
| Registry.InputMeaning | server.js:799-806 | input changes at most the sender's room, keeps room ids, records and messages, and is ignored without a recorded room |
| Registry.DisconnectMeaning | server.js:808-823 | the socket record is dropped. Its room loses its player and is deleted exactly when left with nobody; no other room changes; the server stays consistent |
| Registry.OpenRoomsExact | server.js:825-840 | the list contains a line for every room with fewer than four players, and only lines for such rooms, with their size and a maximum of four |
| Registry.TickRoomOk | server.js:845-851 | a tick keeps an occupied consistent room occupied and consistent, with the same roster |
| Registry.TickEveryRoomOk | server.js:844-853 | room by room, the loop keeps every room's id, roster and invariant |
| Registry.TickAllMeaning | server.js:844-853 | the loop keeps every room id, every roster and the server invariant |
| Registry.RoomRegistry.constructor | server.js:20 | starts with no rooms, no records and no messages |
| Registry.RoomRegistry.JoinRoom | server.js:771-797 | leaves the state `JoinSpec` gives and keeps the server consistent |
| Registry.RoomRegistry.PlayerInput | server.js:799-806 | leaves the state `InputSpec` gives and keeps the server consistent |
| Registry.RoomRegistry.Disconnect | server.js:808-823 | leaves the state `DisconnectSpec` gives and keeps the server consistent |
| Registry.RoomRegistry.RequestRoomList | server.js:825-840 | the loop over the rooms sends exactly `OpenRooms` to the socket, changing nothing else |
| Registry.RoomRegistry.TickAll | server.js:844-853 | ticks every room in map order, as `TickAllSpec` gives, and keeps the server consistent |
| Scenarios.LevelOneSwitchOpensDoors | server.js:600-631 | on level 1 a player standing on the switch activates it, and both doors open in the same tick |
| Scenarios.ExitLoopSkipsLevel | server.js:642-647 | when the next level puts the second player on the old exit, one tick advances from level 1 to level 3 |
| Scenarios.GameCompletedRepeats | server.js:715-722 | on the last level two players on the exit each trigger 'gameCompleted', so everyone is told twice |
| Scenarios.PlayerIdsRepeat | server.js:476-490 | after the first of two players leaves, a newcomer gets the same id and colour as the one still there |
| Scenarios.SecondJoinLeavesStalePlayer | server.js:786-823 | a socket that joins a second room and disconnects remains a player of the first |
| Scenarios.EmptyRoomIdIgnored | server.js:799-812 | a socket in the room with the empty id has its input dropped, and its disconnect leaves its room untouched |

## Left out

- `getGameState` (server.js:741-762) is a projection for the wire. The snapshot event carries only the room id, level and state.
- Express, socket.io and HTTP set-up, static files, `server.listen` and logging are not part of this model.
- Socket.io room membership (`socket.join`, `socket.to(roomId)`) is abstracted to the recipient `ToRoomPeers(room, except)`.
- Sockets are their ids; a player record does not hold its socket.
- The player's constant `width`/`height` of 20 px is built into `PLAYER_SIZE`.
- `Date.now()` is a parameter, one value per operation.
- The 30 Hz scheduling of `setInterval` is not modelled: `TickAll` is one run of its body.
- Concurrency is not modelled. The server is single-threaded, and each handler runs to completion.
- Elevators are only reset at level set-up; nothing else in the code moves them. The `movingPlatforms` of the level data are never read by the room code, so they are not part of room state.
- Level names, descriptions and messages are left out; the ten levels of the catalog are abstracted to a parameter, and level 1 is given concretely.
- `nextRoomId` (server.js:766) is never used.
- Room ids are strings; the handlers' treatment of a non-string room id is not modelled.
- Physics.ApplyInput: key flags are booleans; non-boolean payloads, read by truthiness, and the exception thrown on a missing `keys` object are not modelled.
- Registry.RoomRegistry: rooms are held by value in the registry's map rather than as `GameRoom` objects. The map is the only holder of a room, so nothing is shared, and each handler applies the function the corresponding `GameRoom` method is proved to compute.
- Registry.DisconnectSpec: the disconnected socket's recorded room is dropped, since the socket no longer exists.
- Physics.ResolveKeepsClear: the property is proved only for vertical speeds of at most 40 px up and 39 px down, since faster falls tunnel through platforms.
