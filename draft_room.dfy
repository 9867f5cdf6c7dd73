/** The registry of the draft's WebSocket server: one room per pool, holding the users
    who joined it and whether each is ready, and the map of authenticated sockets to the
    users they belong to. The broadcast channel of each room and the JSON messages sent on it
    are not part of this model; the functions below say what each command does to the
    rooms' users, and the classes perform those commands in place. */
module DraftRoom {
  import opened PoolTypes

  /** The user a socket authenticated as (equality by id in the source). */
  datatype UserToken = UserToken(id: string, name: string)

  /** A user of a room, with its ready flag. */
  datatype RoomUser = RoomUser(id: string, name: string, isReady: bool)

  type Users = map<string, RoomUser>

  /** A room as the registry's map holds it: the pool's name and its users. */
  datatype Room = Room(poolName: string, users: Users)

  type Rooms = map<string, Room>

  /** `RoomState::on_ready`: the user's ready flag is negated; a user not in the room is an
      error. */
  function ToggleReady(users: Users, id: string): (r: Result<Users>)
    ensures id !in users ==> r == Err(UserNotInRoom)
    ensures id in users ==>
      (r.Ok? && r.value.Keys == users.Keys
       && r.value[id] == users[id].(isReady := !users[id].isReady)
       && forall u :: u in users && u != id ==> r.value[u] == users[u])
  {
    if id in users then Ok(users[id := users[id].(isReady := !users[id].isReady)])
    else Err(UserNotInRoom)
  }

  /** Toggling twice gives the room back. */
  lemma ToggleTwice(users: Users, id: string)
    requires id in users
    ensures ToggleReady(ToggleReady(users, id).value, id) == Ok(users)
  {
    var once := ToggleReady(users, id).value;
    assert ToggleReady(once, id).value == users;
  }

  /** `join_room`: the room is created empty when the pool has none, and an authenticated
      socket's user enters it as not ready (replacing that user's entry, if any). */
  function Join(rooms: Rooms, sockets: map<string, UserToken>, poolName: string, socketId: string): (r: Rooms)
    ensures r.Keys == rooms.Keys + {poolName}
    ensures forall k :: k in rooms && k != poolName ==> r[k] == rooms[k]
    ensures poolName in rooms ==> r[poolName].poolName == rooms[poolName].poolName
    ensures poolName !in rooms ==> r[poolName].poolName == poolName
    ensures poolName in rooms ==> forall u :: u in rooms[poolName].users ==> u in r[poolName].users
    ensures socketId in sockets ==>
      sockets[socketId].id in r[poolName].users
      && r[poolName].users[sockets[socketId].id] == RoomUser(sockets[socketId].id, sockets[socketId].name, false)
    ensures socketId !in sockets ==> r[poolName].users == (if poolName in rooms then rooms[poolName].users else map[])
    ensures socketId in sockets ==>
      r[poolName].users.Keys == (if poolName in rooms then rooms[poolName].users.Keys else {}) + {sockets[socketId].id}
    ensures poolName in rooms ==>
      forall u :: u in rooms[poolName].users && (socketId !in sockets || u != sockets[socketId].id)
                  ==> r[poolName].users[u] == rooms[poolName].users[u]
  {
    var room := if poolName in rooms then rooms[poolName] else Room(poolName, map[]);
    if socketId in sockets then
      var user := sockets[socketId];
      rooms[poolName := room.(users := room.users[user.id := RoomUser(user.id, user.name, false)])]
    else rooms[poolName := room]
  }

  /** `leave_room`: an authenticated socket's user leaves the room, and a room left empty
      is deleted; an unknown socket or room changes nothing. */
  function Leave(rooms: Rooms, sockets: map<string, UserToken>, poolName: string, socketId: string): (r: Rooms)
    ensures socketId !in sockets || poolName !in rooms ==> r == rooms
    ensures socketId in sockets && poolName in rooms ==>
      var left := rooms[poolName].users - {sockets[socketId].id};
      (left == map[] ==> r == rooms - {poolName})
      && (left != map[] ==> r == rooms[poolName := rooms[poolName].(users := left)])
  {
    if socketId in sockets && poolName in rooms then
      var left := rooms[poolName].users - {sockets[socketId].id};
      if |left| == 0 then rooms - {poolName} else rooms[poolName := rooms[poolName].(users := left)]
    else rooms
  }

  /** `DraftServerInfo::on_ready`: the ready flag of an authenticated socket's user is
      toggled in that room; an unknown socket or room, or a user not in the room, changes
      nothing. */
  function Ready(rooms: Rooms, sockets: map<string, UserToken>, poolName: string, socketId: string): (r: Rooms)
    ensures r.Keys == rooms.Keys
    ensures forall k :: k in rooms && k != poolName ==> r[k] == rooms[k]
    ensures socketId in sockets && poolName in rooms && sockets[socketId].id in rooms[poolName].users ==>
      r[poolName].users == ToggleReady(rooms[poolName].users, sockets[socketId].id).value
    ensures !(socketId in sockets && poolName in rooms && sockets[socketId].id in rooms[poolName].users) ==>
      r == rooms
  {
    if socketId in sockets && poolName in rooms then
      match ToggleReady(rooms[poolName].users, sockets[socketId].id)
      case Ok(users) => rooms[poolName := rooms[poolName].(users := users)]
      case Err(_) => rooms
    else rooms
  }

  /** Two ready commands from the same socket cancel out. */
  lemma ReadyTwice(rooms: Rooms, sockets: map<string, UserToken>, poolName: string, socketId: string)
    ensures Ready(Ready(rooms, sockets, poolName, socketId), sockets, poolName, socketId) == rooms
  {
    if socketId in sockets && poolName in rooms && sockets[socketId].id in rooms[poolName].users {
      var id := sockets[socketId].id;
      ToggleTwice(rooms[poolName].users, id);
      var once := Ready(rooms, sockets, poolName, socketId);
      assert once == rooms[poolName := rooms[poolName].(users := ToggleReady(rooms[poolName].users, id).value)];
      assert once[poolName := rooms[poolName]] == rooms;
    }
  }

  /** An authenticated user who was not in a room (or whose pool had no room yet) and who
      joins and then leaves it gives back every room as it was. */
  lemma JoinThenLeave(rooms: Rooms, sockets: map<string, UserToken>, poolName: string, socketId: string)
    requires socketId in sockets
    requires poolName in rooms ==> rooms[poolName].users != map[] && sockets[socketId].id !in rooms[poolName].users
    ensures Leave(Join(rooms, sockets, poolName, socketId), sockets, poolName, socketId) == rooms
  {
    var user := sockets[socketId];
    var joined := Join(rooms, sockets, poolName, socketId);
    var left := joined[poolName].users - {user.id};
    if poolName in rooms {
      assert left == rooms[poolName].users;
      assert joined[poolName := joined[poolName].(users := left)] == rooms;
    } else {
      assert left.Keys == {};
      assert joined - {poolName} == rooms;
    }
  }

  /** `RoomState`: one pool's room, on its own. */
  class RoomState {
    var poolName: string
    var users: Users

    /** `RoomState::new`: an empty room. */
    constructor(name: string)
      ensures poolName == name && users == map[]
    {
      poolName := name;
      users := map[];
    }

    /** `RoomState::on_ready` (serializing the users is taken to succeed). */
    method OnReady(user: UserToken) returns (r: Result<()>)
      modifies this
      ensures poolName == old(poolName)
      ensures match ToggleReady(old(users), user.id)
              case Ok(u) => r.Ok? && users == u
              case Err(e) => r == Err(e) && users == old(users)
    {
      if user.id in users {
        var roomUser := users[user.id];
        users := users[user.id := roomUser.(isReady := !roomUser.isReady)];
        return Ok(());
      }
      return Err(UserNotInRoom);
    }
  }

  /** `DraftServerInfo`: the rooms by pool name, each owned by the map as in the source,
      and the authenticated sockets. */
  class DraftServerInfo {
    var rooms: Rooms
    var authentificatedSockets: map<string, UserToken>

    /** `DraftServerInfo::new`. */
    constructor()
      ensures rooms == map[] && authentificatedSockets == map[]
    {
      rooms := map[];
      authentificatedSockets := map[];
    }

    /** `list_rooms`: the name of every room, once each, in no particular order. */
    method ListRooms() returns (names: seq<string>)
      ensures forall n :: n in names <==> n in rooms
      ensures forall i, j :: 0 <= i < j < |names| ==> names[i] != names[j]
    {
      names := [];
      var remaining := rooms.Keys;
      while remaining != {}
        invariant remaining <= rooms.Keys
        invariant forall n :: n in names <==> n in rooms && n !in remaining
        invariant forall i, j :: 0 <= i < j < |names| ==> names[i] != names[j]
        decreases |remaining|
      {
        var k :| k in remaining;
        names := names + [k];
        remaining := remaining - {k};
      }
    }

    /** `add_socket`: a socket already registered keeps its user. */
    method AddSocket(socketId: string, userToken: UserToken)
      modifies this
      ensures rooms == old(rooms)
      ensures socketId in old(authentificatedSockets) ==> authentificatedSockets == old(authentificatedSockets)
      ensures socketId !in old(authentificatedSockets) ==>
        authentificatedSockets == old(authentificatedSockets)[socketId := userToken]
    {
      if socketId !in authentificatedSockets {
        authentificatedSockets := authentificatedSockets[socketId := userToken];
      }
    }

    /** `remove_socket`: its guard only lets absent sockets through, so it never removes
        anything. */
    method RemoveSocket(socketId: string)
      modifies this
      ensures rooms == old(rooms)
      ensures authentificatedSockets == old(authentificatedSockets)
    {
      if socketId !in authentificatedSockets {
        authentificatedSockets := authentificatedSockets - {socketId};
      }
    }

    /** `join_room`: returns the room's users, which the source serializes and sends. */
    method JoinRoom(poolName: string, socketId: string) returns (users: Users)
      modifies this
      ensures authentificatedSockets == old(authentificatedSockets)
      ensures rooms == Join(old(rooms), authentificatedSockets, poolName, socketId)
      ensures users == rooms[poolName].users
    {
      if poolName !in rooms {
        rooms := rooms[poolName := Room(poolName, map[])];
      }
      if socketId in authentificatedSockets {
        var user := authentificatedSockets[socketId];
        var room := rooms[poolName];
        rooms := rooms[poolName := room.(users := room.users[user.id := RoomUser(user.id, user.name, false)])];
      }
      users := rooms[poolName].users;
    }

    /** `leave_room`. */
    method LeaveRoom(poolName: string, socketId: string)
      modifies this
      ensures authentificatedSockets == old(authentificatedSockets)
      ensures rooms == Leave(old(rooms), authentificatedSockets, poolName, socketId)
    {
      if socketId in authentificatedSockets {
        var user := authentificatedSockets[socketId];
        if poolName in rooms {
          var room := rooms[poolName];
          rooms := rooms[poolName := room.(users := room.users - {user.id})];
          if |rooms[poolName].users| == 0 {
            rooms := rooms - {poolName};
          }
        }
      }
    }

    /** `DraftServerInfo::on_ready`: `RoomState::on_ready` on the stored room, whose answer
        is dropped. */
    method OnReady(poolName: string, socketId: string)
      modifies this
      ensures authentificatedSockets == old(authentificatedSockets)
      ensures rooms == Ready(old(rooms), authentificatedSockets, poolName, socketId)
    {
      if socketId in authentificatedSockets {
        var user := authentificatedSockets[socketId];
        if poolName in rooms {
          var room := rooms[poolName];
          if user.id in room.users {
            var roomUser := room.users[user.id];
            rooms := rooms[poolName := room.(users := room.users[user.id := roomUser.(isReady := !roomUser.isReady)])];
          }
        }
      }
    }
  }
}
