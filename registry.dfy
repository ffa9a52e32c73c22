/**
 * The server's map of rooms and the connection handlers that drive it:
 * joining a room, player input, disconnecting, the room list and the 30 Hz
 * loop over every room. A connection is its socket id; the room id a
 * connection last joined is kept per socket id, and what the handlers send
 * is appended to an outbox.
 */
module Registry {
  import opened Wrappers
  import opened OrderedMaps
  import opened Levels
  import opened Entities
  import opened Rooms

  /** The rooms by value in creation order, each connection's recorded room, and what the handlers sent. */
  datatype ServerState = ServerState(rooms: OMap<RoomId, Room>, socketRoom: map<SocketId, RoomId>, outbox: seq<Outgoing>)

  /** A room as the map keeps it: consistent, somebody in it, not 'empty'. */
  ghost predicate RoomOk(r: Room, catalog: seq<Level>) {
    Consistent(r, catalog) && |r.players| >= 1 && r.state != Empty
  }

  ghost predicate RoomsOk(rs: OMap<RoomId, Room>, catalog: seq<Level>) {
    DistinctKeys(rs) && forall e :: e in rs ==> RoomOk(e.val, catalog)
  }

  ghost predicate ServerConsistent(st: ServerState, catalog: seq<Level>) {
    WellFormedCatalog(catalog) && RoomsOk(st.rooms, catalog)
  }

  lemma RoomsOkByIndex(rs: OMap<RoomId, Room>, catalog: seq<Level>)
    requires DistinctKeys(rs) && forall i :: 0 <= i < |rs| ==> RoomOk(rs[i].val, catalog)
    ensures RoomsOk(rs, catalog)
  {
    forall e | e in rs ensures RoomOk(e.val, catalog) {
      var j :| 0 <= j < |rs| && rs[j] == e;
    }
  }

  lemma GetRoomOk(rs: OMap<RoomId, Room>, catalog: seq<Level>, k: RoomId)
    requires RoomsOk(rs, catalog) && Get(rs, k).Some?
    ensures RoomOk(Get(rs, k).value, catalog)
  {
    GetFindsKey(rs, k);
  }

  /** Storing a room keeps the map well kept and touches no other id. */
  lemma PutRoomOk(rs: OMap<RoomId, Room>, catalog: seq<Level>, k: RoomId, r: Room)
    requires RoomsOk(rs, catalog) && RoomOk(r, catalog)
    ensures RoomsOk(Put(rs, k, r), catalog)
    ensures Get(Put(rs, k, r), k) == Some(r)
    ensures forall k' :: k' != k ==> Get(Put(rs, k, r), k') == Get(rs, k')
    ensures k in Keys(rs) ==> Keys(Put(rs, k, r)) == Keys(rs)
  {
    PutEntries(rs, k, r);
    PutDistinct(rs, k, r);
    PutKeys(rs, k, r);
    GetPut(rs, k, r, k);
    forall k' | k' != k ensures Get(Put(rs, k, r), k') == Get(rs, k') {
      GetPut(rs, k, r, k');
    }
  }

  /** Deleting a room keeps the map well kept and touches no other id. */
  lemma RemoveRoomOk(rs: OMap<RoomId, Room>, catalog: seq<Level>, k: RoomId)
    requires RoomsOk(rs, catalog)
    ensures RoomsOk(Remove(rs, k), catalog)
    ensures Get(Remove(rs, k), k) == None
    ensures forall k' :: k' != k ==> Get(Remove(rs, k), k') == Get(rs, k')
  {
    RemoveEntries(rs, k);
    RemoveKeys(rs, k);
    GetRemove(rs, k, k);
    forall k' | k' != k ensures Get(Remove(rs, k), k') == Get(rs, k') {
      GetRemove(rs, k, k');
    }
  }

  /** The room a socket's later messages go to; the empty id counts as none, as a falsy `socket.roomId` does. */
  function RoomOf(st: ServerState, socket: SocketId): Option<RoomId> {
    if socket in st.socketRoom && st.socketRoom[socket] != "" then Some(st.socketRoom[socket]) else None
  }

  /** The room 'joinRoom' adds the player to: the one under the id, or a new one. */
  function FindRoom(rs: OMap<RoomId, Room>, catalog: seq<Level>, roomId: RoomId, now: int): (r: Room)
    requires WellFormedCatalog(catalog) && RoomsOk(rs, catalog)
    ensures Consistent(r, catalog)
    ensures Get(rs, roomId).Some? ==> r == Get(rs, roomId).value
  {
    GetFindsKey(rs, roomId);
    NewRoomPlaying(catalog, now);
    match Get(rs, roomId)
    case Some(r) => r
    case None => NewRoom(catalog, now)
  }

  /** The 'joinRoom' handler: find or create the room, add the player, answer and tell the others. */
  function JoinSpec(st: ServerState, catalog: seq<Level>, socket: SocketId, roomId: RoomId, now: int): ServerState
    requires ServerConsistent(st, catalog)
  {
    var res := AddPlayerSpec(FindRoom(st.rooms, catalog, roomId, now), catalog, socket);
    var room' := res.0;
    var rooms' := Put(st.rooms, roomId, room');
    match res.1
    case None => st.(rooms := rooms', outbox := st.outbox + [Outgoing(ToSocket(socket), RoomFull)])
    case Some(p) =>
      ServerState(rooms', st.socketRoom[socket := roomId],
        st.outbox + [Outgoing(ToSocket(socket), PlayerJoined(p)),
                     Outgoing(ToSocket(socket), GameStateSnapshot(roomId, room'.currentLevel, room'.state)),
                     Outgoing(ToRoomPeers(roomId, socket), PlayerConnected(p))])
  }

  /** The 'playerInput' handler: the input goes to the socket's room, if it has one that still exists. */
  function InputSpec(st: ServerState, catalog: seq<Level>, socket: SocketId, keys: KeyState): ServerState
    requires ServerConsistent(st, catalog)
  {
    match RoomOf(st, socket)
    case None => st
    case Some(roomId) =>
      GetFindsKey(st.rooms, roomId);
      match Get(st.rooms, roomId)
      case None => st
      case Some(r) => st.(rooms := Put(st.rooms, roomId, UpdatePlayerSpec(r, catalog[r.currentLevel - 1], socket, keys)))
  }

  /**
   * The 'disconnect' handler: the player leaves the socket's room, the
   * others are told, and a room left 'empty' is deleted. The connection is
   * gone afterwards, and with it its recorded room.
   */
  function DisconnectSpec(st: ServerState, socket: SocketId): ServerState {
    var st0 := st.(socketRoom := st.socketRoom - {socket});
    match RoomOf(st, socket)
    case None => st0
    case Some(roomId) =>
      match Get(st.rooms, roomId)
      case None => st0
      case Some(r) =>
        var r' := RemovePlayerSpec(r, socket);
        st0.(rooms := if r'.state == Empty then Remove(st.rooms, roomId) else Put(st.rooms, roomId, r'),
             outbox := st.outbox + [Outgoing(ToRoomPeers(roomId, socket), PlayerDisconnected(socket))])
  }

  function Info(id: RoomId, r: Room): RoomInfo {
    RoomInfo(id, |r.players|, MAX_PLAYERS, r.currentLevel, r.state)
  }

  /** The rooms a 'requestRoomList' lists, in map order. */
  function OpenRooms(rs: OMap<RoomId, Room>): (list: seq<RoomInfo>)
    ensures |list| <= |rs|
  {
    if rs == [] then []
    else
      var last := rs[|rs| - 1];
      OpenRooms(rs[..|rs| - 1]) + (if |last.val.players| < MAX_PLAYERS then [Info(last.key, last.val)] else [])
  }

  /** The 'requestRoomList' handler. */
  function RoomListSpec(st: ServerState, socket: SocketId): ServerState {
    st.(outbox := st.outbox + [Outgoing(ToSocket(socket), RoomList(OpenRooms(st.rooms)))])
  }

  /** One run of the 30 Hz loop body: every room ticks, in map order. */
  function TickAllSpec(st: ServerState, catalog: seq<Level>, now: int): ServerState
    requires forall i :: 0 <= i < |st.rooms| ==> 1 <= st.rooms[i].val.currentLevel <= |catalog|
  {
    st.(rooms := seq(|st.rooms|, i requires 0 <= i < |st.rooms| =>
      Entry(st.rooms[i].key, TickSpec(st.rooms[i].val, catalog, st.rooms[i].key, now))))
  }

  // ---- properties of the handlers ----

  /**
   * A join is refused exactly when the room exists and already holds four
   * players, and then only 'roomFull' goes back. Otherwise the room exists
   * afterwards with the socket in it, the socket is recorded in that room,
   * and no other room changes. Either way the server stays consistent.
   */
  lemma JoinMeaning(st: ServerState, catalog: seq<Level>, socket: SocketId, roomId: RoomId, now: int)
    requires ServerConsistent(st, catalog)
    ensures var st' := JoinSpec(st, catalog, socket, roomId, now);
      && ServerConsistent(st', catalog)
      && var refused := Get(st.rooms, roomId).Some? && |Get(st.rooms, roomId).value.players| >= MAX_PLAYERS;
      && (refused ==> st' == st.(outbox := st.outbox + [Outgoing(ToSocket(socket), RoomFull)]))
      && (!refused ==>
            && Get(st'.rooms, roomId).Some?
            && socket in Keys(Get(st'.rooms, roomId).value.players)
            && st'.socketRoom == st.socketRoom[socket := roomId]
            && (forall k :: k != roomId ==> Get(st'.rooms, k) == Get(st.rooms, k)))
  {
    GetFindsKey(st.rooms, roomId);
    var room := FindRoom(st.rooms, catalog, roomId, now);
    AddPlayerMeaning(room, catalog, socket);
    var room' := AddPlayerSpec(room, catalog, socket).0;
    var added := AddPlayerSpec(room, catalog, socket).1;
    if added.Some? {
      GetFindsKey(room'.players, socket);
      PutRoomOk(st.rooms, catalog, roomId, room');
    } else {
      var i :| 0 <= i < |st.rooms| && st.rooms[i].key == roomId;
      GetAt(st.rooms, i);
      PutAt(st.rooms, i, room');
      assert Put(st.rooms, roomId, room') == st.rooms;
    }
  }

  /** Input changes at most the sender's own entry of its own room, and the server stays consistent. */
  lemma InputMeaning(st: ServerState, catalog: seq<Level>, socket: SocketId, keys: KeyState)
    requires ServerConsistent(st, catalog)
    ensures var st' := InputSpec(st, catalog, socket, keys);
      && ServerConsistent(st', catalog)
      && st'.socketRoom == st.socketRoom && st'.outbox == st.outbox
      && Keys(st'.rooms) == Keys(st.rooms)
      && (RoomOf(st, socket).None? ==> st' == st)
      && (forall k :: Some(k) != RoomOf(st, socket) ==> Get(st'.rooms, k) == Get(st.rooms, k))
  {
    match RoomOf(st, socket)
    case None =>
    case Some(roomId) =>
      GetFindsKey(st.rooms, roomId);
      match Get(st.rooms, roomId)
      case None =>
      case Some(r) =>
        GetRoomOk(st.rooms, catalog, roomId);
        UpdatePlayerKeeps(r, catalog, socket, keys);
        PutRoomOk(st.rooms, catalog, roomId, UpdatePlayerSpec(r, catalog[r.currentLevel - 1], socket, keys));
  }

  /**
   * A disconnect forgets the socket. Its room, if it has one, loses the
   * socket's player; the room is deleted exactly when that left it with
   * nobody, and no other room changes. The server stays consistent.
   */
  lemma DisconnectMeaning(st: ServerState, catalog: seq<Level>, socket: SocketId)
    requires ServerConsistent(st, catalog)
    ensures var st' := DisconnectSpec(st, socket);
      && ServerConsistent(st', catalog)
      && socket !in st'.socketRoom
      && (forall k :: Some(k) != RoomOf(st, socket) ==> Get(st'.rooms, k) == Get(st.rooms, k))
      && (RoomOf(st, socket).Some? && Get(st.rooms, RoomOf(st, socket).value).Some? ==>
            var roomId := RoomOf(st, socket).value;
            var ps := Remove(Get(st.rooms, roomId).value.players, socket);
            && (|ps| == 0 ==> Get(st'.rooms, roomId).None?)
            && (|ps| > 0 ==> Get(st'.rooms, roomId).Some? && Get(st'.rooms, roomId).value.players == ps))
  {
    match RoomOf(st, socket)
    case None =>
    case Some(roomId) =>
      match Get(st.rooms, roomId)
      case None =>
      case Some(r) =>
        GetRoomOk(st.rooms, catalog, roomId);
        RemovePlayerMeaning(r, catalog, socket);
        var r' := RemovePlayerSpec(r, socket);
        if r'.state == Empty {
          RemoveRoomOk(st.rooms, catalog, roomId);
        } else {
          PutRoomOk(st.rooms, catalog, roomId, r');
        }
  }

  /**
   * The room list holds exactly the rooms with fewer than four players: each
   * such room appears with its id, player count, level and state, and every
   * entry is such a room.
   */
  lemma {:induction false} OpenRoomsExact(rs: OMap<RoomId, Room>)
    ensures forall i :: 0 <= i < |rs| && |rs[i].val.players| < MAX_PLAYERS ==> Info(rs[i].key, rs[i].val) in OpenRooms(rs)
    ensures forall x :: x in OpenRooms(rs) ==>
      x.playerCount < MAX_PLAYERS && x.maxPlayers == MAX_PLAYERS &&
      exists i :: 0 <= i < |rs| && x == Info(rs[i].key, rs[i].val)
  {
    if rs != [] {
      var front := rs[..|rs| - 1];
      OpenRoomsExact(front);
      assert forall i :: 0 <= i < |front| ==> front[i] == rs[i];
    }
  }

  /** A tick keeps a room as the map keeps it, with the same roster. */
  lemma TickRoomOk(r: Room, catalog: seq<Level>, id: RoomId, now: int)
    requires RoomOk(r, catalog)
    ensures RoomOk(TickSpec(r, catalog, id, now), catalog)
    ensures Keys(TickSpec(r, catalog, id, now).players) == Keys(r.players)
  {
    TickKeeps(r, catalog, id, now);
  }

  /** One run of the 30 Hz loop keeps the server consistent, every room where it was and every room's roster. */
  lemma TickAllMeaning(st: ServerState, catalog: seq<Level>, now: int)
    requires ServerConsistent(st, catalog)
    ensures var st' := TickAllSpec(st, catalog, now);
      && ServerConsistent(st', catalog)
      && Keys(st'.rooms) == Keys(st.rooms)
      && st'.socketRoom == st.socketRoom && st'.outbox == st.outbox
      && (forall i :: 0 <= i < |st.rooms| ==> Keys(st'.rooms[i].val.players) == Keys(st.rooms[i].val.players))
  {
    var rs' := TickAllSpec(st, catalog, now).rooms;
    TickEveryRoomOk(st, catalog, now);
    assert Keys(rs') == Keys(st.rooms);
    SameKeysDistinct(st.rooms, rs');
    RoomsOkByIndex(rs', catalog);
  }

  /** Room by room: every room stays where it was, as the map keeps it, with its roster. */
  lemma TickEveryRoomOk(st: ServerState, catalog: seq<Level>, now: int)
    requires ServerConsistent(st, catalog)
    ensures var rs' := TickAllSpec(st, catalog, now).rooms;
      forall i :: 0 <= i < |st.rooms| ==>
        && rs'[i].key == st.rooms[i].key
        && RoomOk(rs'[i].val, catalog)
        && Keys(rs'[i].val.players) == Keys(st.rooms[i].val.players)
  {
    var rs' := TickAllSpec(st, catalog, now).rooms;
    forall i | 0 <= i < |st.rooms|
      ensures RoomOk(rs'[i].val, catalog)
      ensures Keys(rs'[i].val.players) == Keys(st.rooms[i].val.players)
    {
      assert st.rooms[i] in st.rooms;
      TickRoomOk(st.rooms[i].val, catalog, st.rooms[i].key, now);
    }
  }

  // ---- the server object ----

  /**
   * The server's handler state. Each room is held by value: the map is the
   * only holder of a room, and a connection records only a room id, so no
   * room is ever shared. Each handler applies to the room it finds the
   * function the corresponding `GameRoom` method is proved to compute.
   */
  class RoomRegistry {
    const catalog: seq<Level>
    var rooms: OMap<RoomId, Room>
    var socketRoom: map<SocketId, RoomId>
    var outbox: seq<Outgoing>

    function State(): ServerState
      reads this
    {
      ServerState(rooms, socketRoom, outbox)
    }

    ghost predicate Valid()
      reads this
    {
      ServerConsistent(State(), catalog)
    }

    constructor (catalog: seq<Level>)
      requires WellFormedCatalog(catalog)
      ensures Valid()
      ensures State() == ServerState([], map[], []) && this.catalog == catalog
    {
      this.catalog := catalog;
      rooms := [];
      socketRoom := map[];
      outbox := [];
    }

    /** The 'joinRoom' handler. */
    method JoinRoom(socket: SocketId, roomId: RoomId, now: int)
      requires Valid()
      modifies this
      ensures Valid()
      ensures State() == JoinSpec(old(State()), catalog, socket, roomId, now)
    {
      ghost var st0 := State();
      var rs, sr, out := rooms, socketRoom, outbox;
      // the stored room, or a new one stored under the id
      var room: Room;
      var found := Get(rs, roomId);
      if found.None? {
        room := NewRoom(catalog, now);
        rs := Put(rs, roomId, room);
      } else {
        room := found.value;
      }
      assert room == FindRoom(st0.rooms, catalog, roomId, now);
      // the socket becomes a player, unless the room is full
      var res := AddPlayerSpec(room, catalog, socket);
      var added := res.1;
      room := res.0;
      PutPut(st0.rooms, roomId, NewRoom(catalog, now), room);
      rs := Put(rs, roomId, room);
      assert rs == Put(st0.rooms, roomId, room);
      if added.None? {
        out := out + [Outgoing(ToSocket(socket), RoomFull)];
      } else {
        sr := sr[socket := roomId];
        // the snapshot to the joiner, then the news to the others
        out := out + [Outgoing(ToSocket(socket), PlayerJoined(added.value))];
        out := out + [Outgoing(ToSocket(socket), GameStateSnapshot(roomId, room.currentLevel, room.state))];
        out := out + [Outgoing(ToRoomPeers(roomId, socket), PlayerConnected(added.value))];
      }
      assert ServerState(rs, sr, out) == JoinSpec(st0, catalog, socket, roomId, now);
      JoinMeaning(st0, catalog, socket, roomId, now);
      rooms, socketRoom, outbox := rs, sr, out;
    }

    /** The 'playerInput' handler. */
    method PlayerInput(socket: SocketId, keys: KeyState)
      requires Valid()
      modifies this
      ensures Valid()
      ensures State() == InputSpec(old(State()), catalog, socket, keys)
    {
      ghost var st0 := State();
      if socket !in socketRoom || socketRoom[socket] == "" {
        return;
      }
      var roomId := socketRoom[socket];
      var rs := rooms;
      var found := Get(rs, roomId);
      if found.Some? {
        var room := found.value;
        GetRoomOk(rs, catalog, roomId);
        rs := Put(rs, roomId, UpdatePlayerSpec(room, catalog[room.currentLevel - 1], socket, keys));
      }
      assert st0.(rooms := rs) == InputSpec(st0, catalog, socket, keys);
      InputMeaning(st0, catalog, socket, keys);
      rooms := rs;
    }

    /** The 'disconnect' handler. */
    method Disconnect(socket: SocketId)
      requires Valid()
      modifies this
      ensures Valid()
      ensures State() == DisconnectSpec(old(State()), socket)
    {
      ghost var st0 := State();
      if socket in socketRoom && socketRoom[socket] != "" {
        var roomId := socketRoom[socket];
        var found := Get(rooms, roomId);
        if found.Some? {
          var room := RemovePlayerSpec(found.value, socket);
          RemovePut(rooms, roomId, room);
          rooms := Put(rooms, roomId, room);
          outbox := outbox + [Outgoing(ToRoomPeers(roomId, socket), PlayerDisconnected(socket))];
          // a room left with nobody is dropped
          if room.state == Empty {
            rooms := Remove(rooms, roomId);
          }
        }
      }
      socketRoom := socketRoom - {socket};
      DisconnectMeaning(st0, catalog, socket);
    }

    /** The 'requestRoomList' handler: the rooms with a free place, in map order, back to the sender. */
    method RequestRoomList(socket: SocketId)
      requires Valid()
      modifies this
      ensures Valid()
      ensures State() == RoomListSpec(old(State()), socket)
    {
      var roomList := [];
      var i := 0;
      while i < |rooms|
        invariant 0 <= i <= |rooms|
        invariant roomList == OpenRooms(rooms[..i])
      {
        var id, room := rooms[i].key, rooms[i].val;
        assert rooms[..i + 1][..i] == rooms[..i];
        if |room.players| < MAX_PLAYERS {
          roomList := roomList + [RoomInfo(id, |room.players|, MAX_PLAYERS, room.currentLevel, room.state)];
        }
        i := i + 1;
      }
      assert rooms[..i] == rooms;
      outbox := outbox + [Outgoing(ToSocket(socket), RoomList(roomList))];
    }

    /** One run of the 30 Hz loop: every room in map order updates, then sends its state if still playing. */
    method TickAll(now: int)
      requires Valid()
      modifies this
      ensures Valid()
      ensures State() == TickAllSpec(old(State()), catalog, now)
    {
      ghost var st0 := State();
      ghost var target := TickAllSpec(st0, catalog, now).rooms;
      var rs := rooms;
      var i := 0;
      while i < |rs|
        invariant 0 <= i <= |rs| == |st0.rooms|
        invariant forall k :: 0 <= k < |rs| ==> rs[k] == if k < i then target[k] else st0.rooms[k]
      {
        var id, room := rs[i].key, rs[i].val;
        assert st0.rooms[i] in st0.rooms;
        rs := rs[i := Entry(id, TickSpec(room, catalog, id, now))];
        i := i + 1;
      }
      assert rs == target;
      TickAllMeaning(st0, catalog, now);
      rooms := rs;
    }
  }
}
