/** The server side of the duel: the `gameStates` registry from room id to
    room, the connection record of each socket (ws.userId, ws.roomId), the
    handlers that go through the registry (join, leave, start and the
    in-room commands) and the 50 ms interval over every room. Database rows
    reach the handlers as inputs: `db` is what Room.findByPk returned. */
module DuelServer {
  import opened Common
  import opened DuelRules
  import opened DuelPass
  import opened DuelRoom

  /** The socket's own record: ws.userId (set by auth), ws.roomId (set by
      join, cleared by leave) and the socket itself. */
  datatype Conn = Conn(userId: Option<UserId>, roomId: Option<RoomId>, socket: Session)

  /** The row Room.findByPk returns. */
  datatype DbRoom = DbRoom(status: Status, hostId: UserId)

  /** JavaScript truthiness of an id that may be null: 0 is falsy too. */
  predicate Truthy(o: Option<nat>) { o.Some? && o.value != 0 }

  /** The in-room commands, with what the client sent (and, for an attack,
      the velocity aimed at the target and the new projectile's id). */
  datatype Command =
    | MoveTo(x: real, y: real)
    | AttackAt(aimX: real, aimY: real, vx: real, vy: real, projId: nat)
    | FlashTo(x: real, y: real)
    | GhostOn

  class Server {
    var rooms: map<RoomId, GameState>
    /** The order in which `rooms` iterates (Map insertion order). */
    var roomOrder: seq<RoomId>

    /** The registry itself: each room under its own id (so no room object
        sits under two ids), and `roomOrder` listing every id once. */
    ghost predicate Registry()
      reads this
    {
      && (forall r :: r in rooms ==> rooms[r].roomId == r)
      && (forall k :: 0 <= k < |roomOrder| ==> roomOrder[k] in rooms)
      && (forall r :: r in rooms ==> r in roomOrder)
      && Distinct(roomOrder)
    }

    ghost predicate Valid()
      reads this, rooms.Values
    {
      Registry() && forall r :: r in rooms ==> rooms[r].Valid()
    }

    /** The registered rooms with nobody in them. */
    ghost function Empties(): set<RoomId>
      reads this, rooms.Values
    {
      set r | r in rooms && |rooms[r].order| == 0
    }

    /** A room stays registered only while someone is in it. */
    ghost predicate NoEmptyRoom()
      reads this, rooms.Values
    {
      Empties() == {}
    }

    /** The room object registered under `r`, if any. */
    function Touch(r: Option<RoomId>): set<GameState>
      reads this
    {
      if r.Some? && r.value in rooms then {rooms[r.value]} else {}
    }

    /** A change confined to the fields of room `r` keeps the registry
        valid when that room is still valid itself, and keeps every other
        room as occupied as it was. */
    twostate lemma OnlyRoomChanged(r: RoomId)
      requires old(Valid()) && r in rooms && rooms == old(rooms) && roomOrder == old(roomOrder)
      requires rooms[r].Valid()
      requires forall q :: q in rooms && q != r ==> unchanged(rooms[q])
      ensures Valid()
      ensures Empties() == if |rooms[r].order| == 0 then old(Empties()) + {r} else old(Empties()) - {r}
    {
    }

    constructor ()
      ensures Valid() && NoEmptyRoom() && rooms == map[] && roomOrder == []
    {
      rooms := map[];
      roomOrder := [];
    }

    /** gameStates.set for a new room. */
    method Register(r: RoomId) returns (gs: GameState)
      requires Valid() && r !in rooms
      modifies this
      ensures Valid() && fresh(gs)
      ensures rooms == old(rooms)[r := gs] && roomOrder == old(roomOrder) + [r]
      ensures gs.players == map[] && gs.order == [] && gs.projectiles == [] && gs.status == Waiting
      ensures Empties() == old(Empties()) + {r}
    {
      gs := new GameState(r);
      rooms := rooms[r := gs];
      roomOrder := roomOrder + [r];
    }

    /** gameStates.delete. */
    method Unregister(r: RoomId)
      requires Valid() && r in rooms
      modifies this
      ensures Valid()
      ensures rooms == old(rooms) - {r} && roomOrder == Without(old(roomOrder), r)
      ensures Empties() == old(Empties()) - {r}
    {
      var kept := Without(roomOrder, r);
      assert forall k :: 0 <= k < |kept| ==> kept[k] in kept;
      rooms := rooms - {r};
      roomOrder := kept;
    }

    /** handleLeave. Nothing happens without a caller id and a room id
        (both JavaScript-truthy); it is refused while the room is playing
        and the caller is in it; otherwise the caller is removed, the
        connection forgets the room and an empty room is dropped from the
        registry. */
    method Leave(conn: Conn, roomId: Option<RoomId>) returns (after: Conn, reply: Reply, events: seq<Outbound>)
      requires Valid()
      modifies this, Touch(roomId)
      ensures Valid()
      ensures Empties() <= old(Empties())
      ensures forall r :: r in rooms ==> r in old(rooms)
      ensures forall r :: r in old(rooms) && Some(r) != roomId ==> r in rooms && rooms[r] == old(rooms[r])
      ensures Truthy(conn.userId) && Truthy(roomId) && roomId.value in rooms ==> |rooms[roomId.value].order| > 0
      ensures !Truthy(conn.userId) || !Truthy(roomId) ==>
        after == conn && reply == NoReply && events == [] && rooms == old(rooms) && roomOrder == old(roomOrder)
      ensures Truthy(conn.userId) && Truthy(roomId) ==>
        var u, r := conn.userId.value, roomId.value;
        if r in old(rooms) && old(rooms[r].status) == Playing && u in old(rooms[r].players) then
          && after == conn && reply == Refused(LeaveWhilePlaying) && events == []
          && rooms == old(rooms) && roomOrder == old(roomOrder) && unchanged(old(rooms[r]))
        else
          && after == conn.(roomId := None) && reply == Accepted
          && (r !in old(rooms) ==> rooms == old(rooms) && roomOrder == old(roomOrder) && events == [])
          && (r in old(rooms) ==>
                var left := old(rooms[r].players) - {u};
                if |left| == 0 then
                  && rooms == old(rooms) - {r} && roomOrder == Without(old(roomOrder), r) && events == []
                else
                  && rooms == old(rooms) && roomOrder == old(roomOrder)
                  && rooms[r].players == left && rooms[r].status == old(rooms[r].status)
                  && rooms[r].order == Without(old(rooms[r].order), u)
                  && rooms[r].projectiles == old(rooms[r].projectiles)
                  && events == [Outbound(Everyone, PlayerLeft(u, |left|))])
    {
      if !Truthy(conn.userId) || !Truthy(roomId) {
        return conn, NoReply, [];
      }
      var u, r := conn.userId.value, roomId.value;
      if r !in rooms {
        return conn.(roomId := None), Accepted, [];
      }
      var gs := rooms[r];
      if gs.status == Playing && u in gs.players {
        return conn, Refused(LeaveWhilePlaying), [];
      }
      events := LeaveRoom(u, r);
      after, reply := conn.(roomId := None), Accepted;
    }

    /** The registered half of handleLeave: removePlayer, then either
        gameStates.delete of the emptied room or the playerLeft broadcast. */
    method LeaveRoom(u: UserId, r: RoomId) returns (events: seq<Outbound>)
      requires Valid() && r in rooms && !(rooms[r].status == Playing && u in rooms[r].players)
      modifies this, rooms[r]
      ensures Valid()
      ensures Empties() <= old(Empties())
      ensures
        var left := old(rooms[r].players) - {u};
        if |left| == 0 then
          && rooms == old(rooms) - {r} && roomOrder == Without(old(roomOrder), r) && events == []
        else
          && rooms == old(rooms) && roomOrder == old(roomOrder)
          && rooms[r].players == left && rooms[r].status == old(rooms[r].status)
          && rooms[r].order == Without(old(rooms[r].order), u)
          && rooms[r].projectiles == old(rooms[r].projectiles)
          && |rooms[r].order| > 0
          && events == [Outbound(Everyone, PlayerLeft(u, |left|))]
    {
      var gs := rooms[r];
      assert forall q :: q in rooms && q != r ==> rooms[q] != gs;
      gs.RemovePlayer(u);
      OnlyRoomChanged(r);
      ListsSize(gs.order, gs.players);
      if |gs.players| == 0 {
        Unregister(r);
        events := [];
      } else {
        OnlyRoomChanged(r);
        events := [Outbound(Everyone, PlayerLeft(u, |gs.players|))];
      }
    }

    /** handleJoin. In order: not authenticated, room row missing, room row
        playing; then the room is registered if new; a player already in it
        only gets its socket rebound; a third player is refused; otherwise
        the caller first leaves the room it was in, then takes the next
        spawn slot. */
    method Join(conn: Conn, roomId: RoomId, db: Option<DbRoom>, now: int)
      returns (after: Conn, replies: seq<Reply>, events: seq<Outbound>)
      requires Valid()
      modifies this, Touch(Some(roomId)), Touch(conn.roomId)
      ensures Valid()
      ensures Empties() <= old(Empties())
      ensures forall r :: r in old(rooms) && r != roomId && Some(r) != conn.roomId ==>
        r in rooms && rooms[r] == old(rooms[r])
      ensures !Truthy(conn.userId) ==>
        after == conn && replies == [Refused(NotAuthenticated)] && events == [] && rooms == old(rooms)
      ensures Truthy(conn.userId) && db.None? ==>
        after == conn && replies == [Refused(RoomNotFound)] && events == [] && rooms == old(rooms)
      ensures Truthy(conn.userId) && db.Some? && db.value.status == Playing ==>
        after == conn && replies == [Refused(GameInProgress)] && events == [] && rooms == old(rooms)
      ensures Truthy(conn.userId) && db.Some? && db.value.status != Playing ==>
        JoinedRoom(conn, roomId, now, after, replies, events)
    {
      if !Truthy(conn.userId) {
        return conn, [Refused(NotAuthenticated)], [];
      }
      if db.None? {
        return conn, [Refused(RoomNotFound)], [];
      }
      if db.value.status == Playing {
        return conn, [Refused(GameInProgress)], [];
      }
      after, replies, events := JoinRegistered(conn, roomId, now);
    }

    /** Steps 3 to 10 of handleJoin, for an authenticated caller once the
        room row was found and is not playing: the room is registered (by
        now); a reconnecting player is Rejoined, a third one refused, any
        other one has Entered. */
    twostate predicate JoinedRoom(conn: Conn, roomId: RoomId, now: int, after: Conn, replies: seq<Reply>, events: seq<Outbound>)
      requires Truthy(conn.userId)
      reads this, rooms.Values
    {
      var u := conn.userId.value;
      && roomId in rooms
      && (roomId in old(rooms) ==> rooms[roomId] == old(rooms[roomId]))
      && (roomId in old(rooms) && u in old(rooms[roomId].players) ==>
            && rooms[roomId].status == old(rooms[roomId].status)
            && rooms[roomId].order == old(rooms[roomId].order)
            && rooms[roomId].projectiles == old(rooms[roomId].projectiles)
            && Rejoined(conn, roomId, old(rooms[roomId].players), after, replies, events))
      && (roomId in old(rooms) && u !in old(rooms[roomId].players) && |old(rooms[roomId].players)| >= 2 ==>
            && unchanged(rooms[roomId])
            && after == conn && replies == [Refused(RoomFull)] && events == [])
      && (roomId !in old(rooms) || (u !in old(rooms[roomId].players) && |old(rooms[roomId].players)| < 2) ==>
            && Entered(conn, roomId, now, if roomId in old(rooms) then old(rooms[roomId].players) else map[],
                       after, replies, events)
            && rooms[roomId].order == (if roomId in old(rooms) then old(rooms[roomId].order) else []) + [u]
            && rooms[roomId].status == (if roomId in old(rooms) then old(rooms[roomId].status) else Waiting)
            && rooms[roomId].projectiles == (if roomId in old(rooms) then old(rooms[roomId].projectiles) else [])
            && (Truthy(conn.roomId) && conn.roomId.value != roomId ==> LeftRoom(u, conn.roomId.value, replies[0])))
    }

    /** Step 4 of handleJoin, as the caller sees it: the reconnecting
        player's record, which was `before[u]`, only has the new socket;
        the connection is bound to the room and the reply is the
        reconnected roster. */
    ghost predicate Rejoined(conn: Conn, r: RoomId, before: map<UserId, Player>,
                             after: Conn, replies: seq<Reply>, events: seq<Outbound>)
      requires Truthy(conn.userId)
      reads this, rooms.Values
    {
      var u := conn.userId.value;
      && r in rooms && u in before
      && rooms[r].players == before[u := before[u].(socket := conn.socket)]
      && after == conn.(roomId := Some(r))
      && Covers(rooms[r].order, rooms[r].players)
      && replies == [Joined(Roster(rooms[r].players, rooms[r].order), true)]
      && events == []
    }

    /** Steps 6 to 10 of handleJoin, as the caller sees them: the caller
        has the spawn record for the next slot in room `r`, which held
        `before`; the connection is bound to the room; the `joined` roster
        is the last reply, after the reply to the nested leave when there
        was one; the `playerJoined` notice is the last event. */
    ghost predicate Entered(conn: Conn, r: RoomId, now: int, before: map<UserId, Player>,
                            after: Conn, replies: seq<Reply>, events: seq<Outbound>)
      requires Truthy(conn.userId)
      reads this, rooms.Values
    {
      var u := conn.userId.value;
      var p := Spawn(|before| > 0, conn.socket, now);
      && r in rooms
      && rooms[r].players == before[u := p]
      && Covers(rooms[r].order, rooms[r].players)
      && after.roomId == Some(r) && after.userId == conn.userId && after.socket == conn.socket
      && |replies| >= 1
      && replies[|replies| - 1] == Joined(Roster(rooms[r].players, rooms[r].order), false)
      && (|replies| == 2 <==> Truthy(conn.roomId) && conn.roomId.value != r)
      && |events| >= 1
      && events[|events| - 1] == Outbound(EveryoneBut(u), PlayerJoined(u, p.x, p.y, p.hp, |before| + 1))
    }

    method JoinRegistered(conn: Conn, roomId: RoomId, now: int)
      returns (after: Conn, replies: seq<Reply>, events: seq<Outbound>)
      requires Valid() && Truthy(conn.userId)
      modifies this, Touch(Some(roomId)), Touch(conn.roomId)
      ensures Valid()
      ensures Empties() <= old(Empties())
      ensures forall r :: r in old(rooms) && r != roomId && Some(r) != conn.roomId ==>
        r in rooms && rooms[r] == old(rooms[r])
      ensures JoinedRoom(conn, roomId, now, after, replies, events)
    {
      if roomId !in rooms {
        after, replies, events := JoinNew(conn, roomId, now);
      } else {
        after, replies, events := JoinExisting(conn, roomId, now);
      }
    }

    /** Step 3 of handleJoin for a room that is not registered yet: the
        new room is empty, so the rejoin and full-room checks cannot fire
        and the caller enters it directly. */
    method JoinNew(conn: Conn, roomId: RoomId, now: int)
      returns (after: Conn, replies: seq<Reply>, events: seq<Outbound>)
      requires Valid() && Truthy(conn.userId) && roomId !in rooms
      modifies this, Touch(conn.roomId)
      ensures Valid()
      ensures Empties() <= old(Empties())
      ensures forall r :: r in old(rooms) && r != roomId && Some(r) != conn.roomId ==>
        r in rooms && rooms[r] == old(rooms[r])
      ensures JoinedRoom(conn, roomId, now, after, replies, events)
    {
      var created := Register(roomId);
      after, replies, events := JoinFresh(conn, roomId, now);
    }

    /** Steps 4 to 10 of handleJoin, once the room is registered. */
    method JoinExisting(conn: Conn, roomId: RoomId, now: int)
      returns (after: Conn, replies: seq<Reply>, events: seq<Outbound>)
      requires Valid() && Truthy(conn.userId) && roomId in rooms
      modifies this, Touch(Some(roomId)), Touch(conn.roomId)
      ensures Valid()
      ensures Empties() <= old(Empties())
      ensures |old(rooms[roomId].order)| == 0 ==> Empties() <= old(Empties()) - {roomId}
      ensures forall r :: r in old(rooms) && r != roomId && Some(r) != conn.roomId ==>
        r in rooms && rooms[r] == old(rooms[r])
      ensures JoinedRoom(conn, roomId, now, after, replies, events)
    {
      var u := conn.userId.value;
      var gs := rooms[roomId];
      if u in gs.players {
        Rejoin(u, roomId, conn.socket);
        return conn.(roomId := Some(roomId)), [Joined(Roster(gs.players, gs.order), true)], [];
      }
      ListsSize(gs.order, gs.players);
      if |gs.players| >= 2 {
        return conn, [Refused(RoomFull)], [];
      }
      after, replies, events := JoinFresh(conn, roomId, now);
    }

    /** Steps 6 to 10 of handleJoin: leave the previous room, if any and
        other than this one, then addPlayer and the two notifications. */
    method JoinFresh(conn: Conn, roomId: RoomId, now: int)
      returns (after: Conn, replies: seq<Reply>, events: seq<Outbound>)
      requires Valid() && Truthy(conn.userId) && roomId in rooms
      requires conn.userId.value !in rooms[roomId].players && |rooms[roomId].players| < 2
      modifies this, rooms[roomId], Touch(conn.roomId)
      ensures Valid()
      ensures Empties() <= old(Empties()) - {roomId}
      ensures roomId in rooms && rooms[roomId] == old(rooms[roomId])
      ensures forall r :: r in old(rooms) && r != roomId && Some(r) != conn.roomId ==>
        r in rooms && rooms[r] == old(rooms[r])
      ensures Entered(conn, roomId, now, old(rooms[roomId].players), after, replies, events)
      ensures rooms[roomId].order == old(rooms[roomId].order) + [conn.userId.value]
      ensures rooms[roomId].status == old(rooms[roomId].status)
      ensures rooms[roomId].projectiles == old(rooms[roomId].projectiles)
      ensures Truthy(conn.roomId) && conn.roomId.value != roomId ==>
        LeftRoom(conn.userId.value, conn.roomId.value, replies[0])
    {
      var u := conn.userId.value;
      var gs := rooms[roomId];
      after, replies, events := LeavePrevious(conn, roomId);
      var p := Admit(u, roomId, conn.socket, now);
      after := after.(roomId := Some(roomId));
      replies := replies + [Joined(Roster(gs.players, gs.order), false)];
      events := events + [Outbound(EveryoneBut(u), PlayerJoined(u, p.x, p.y, p.hp, |gs.players|))];
    }

    /** What handleLeave did to room `r` for user `u`, as the reply says:
        refused while the room was playing with `u` in it (the room is as
        it was), or accepted, after which `u` is no longer in the room and
        a room that is still registered kept its other players. */
    twostate predicate LeftRoom(u: UserId, r: RoomId, reply: Reply)
      reads this, rooms.Values
    {
      if r in old(rooms) && old(rooms[r].status) == Playing && u in old(rooms[r].players) then
        && reply == Refused(LeaveWhilePlaying)
        && r in rooms && rooms[r] == old(rooms[r])
        && rooms[r].players == old(rooms[r].players) && rooms[r].status == old(rooms[r].status)
        && rooms[r].order == old(rooms[r].order) && rooms[r].projectiles == old(rooms[r].projectiles)
      else
        && reply == Accepted
        && (r in rooms ==>
              && r in old(rooms) && rooms[r].players == old(rooms[r].players) - {u}
              && rooms[r].order == Without(old(rooms[r].order), u)
              && rooms[r].projectiles == old(rooms[r].projectiles)
              && rooms[r].status == old(rooms[r].status))
    }

    /** Step 6 of handleJoin: a connection bound to another room leaves it
        first; room `roomId` itself is not touched. */
    method LeavePrevious(conn: Conn, roomId: RoomId) returns (after: Conn, replies: seq<Reply>, events: seq<Outbound>)
      requires Valid() && roomId in rooms
      modifies this, Touch(conn.roomId)
      ensures Valid()
      ensures roomId in rooms && rooms[roomId] == old(rooms[roomId]) && unchanged(rooms[roomId])
      ensures Empties() <= old(Empties())
      ensures forall r :: r in old(rooms) && r != roomId && Some(r) != conn.roomId ==>
        r in rooms && rooms[r] == old(rooms[r])
      ensures after.userId == conn.userId && after.socket == conn.socket
      ensures |replies| <= 1 && (|replies| == 1 <==> Truthy(conn.roomId) && conn.roomId.value != roomId)
      ensures !(Truthy(conn.roomId) && conn.roomId.value != roomId) ==>
        after == conn && events == [] && rooms == old(rooms) && roomOrder == old(roomOrder)
      ensures Truthy(conn.userId) && Truthy(conn.roomId) && conn.roomId.value != roomId ==>
        LeftRoom(conn.userId.value, conn.roomId.value, replies[0])
    {
      after, replies, events := conn, [], [];
      if Truthy(conn.roomId) && conn.roomId.value != roomId {
        assert rooms[roomId] !in Touch(conn.roomId);
        var leaveReply;
        after, leaveReply, events := Leave(conn, conn.roomId);
        replies := [leaveReply];
      }
    }

    /** Step 4 of handleJoin: the reconnecting player keeps its record and
        only gets the new socket. */
    method Rejoin(u: UserId, r: RoomId, socket: Session)
      requires Valid() && r in rooms && u in rooms[r].players
      modifies rooms[r]
      ensures Valid()
      ensures Empties() == old(Empties())
      ensures rooms[r].players == old(rooms[r].players)[u := old(rooms[r].players[u]).(socket := socket)]
      ensures rooms[r].order == old(rooms[r].order) && rooms[r].status == old(rooms[r].status)
      ensures rooms[r].projectiles == old(rooms[r].projectiles)
    {
      var gs := rooms[r];
      assert forall q :: q in rooms && q != r ==> rooms[q] != gs;
      gs.Rebind(u, socket);
      OnlyRoomChanged(r);
    }

    /** Step 8 of handleJoin: addPlayer into a registered room that has
        room for one more, after which every room is occupied. */
    method Admit(u: UserId, r: RoomId, socket: Session, now: int) returns (p: Player)
      requires Valid() && r in rooms && u !in rooms[r].players && |rooms[r].players| < 2
      modifies rooms[r]
      ensures Valid()
      ensures Empties() == old(Empties()) - {r}
      ensures p == Spawn(|old(rooms[r].players)| > 0, socket, now)
      ensures rooms[r].players == old(rooms[r].players)[u := p]
      ensures |rooms[r].players| == |old(rooms[r].players)| + 1
      ensures rooms[r].order == old(rooms[r].order) + [u] && rooms[r].status == old(rooms[r].status)
      ensures rooms[r].projectiles == old(rooms[r].projectiles)
    {
      var gs := rooms[r];
      assert forall q :: q in rooms && q != r ==> rooms[q] != gs;
      p := gs.AddPlayer(u, socket, now);
      OnlyRoomChanged(r);
      ListsSize(gs.order, gs.players);
    }

    /** handleStart: room row missing, caller not its host, room not
        registered, then the room's own checks. */
    method Start(conn: Conn, roomId: RoomId, db: Option<DbRoom>, now: int) returns (reply: Reply, events: seq<Outbound>)
      requires Valid()
      modifies Touch(Some(roomId))
      ensures Valid()
      ensures Empties() == old(Empties())
      ensures db.None? ==> reply == Refused(RoomNotFound) && events == [] && unchanged(Touch(Some(roomId)))
      ensures db.Some? && conn.userId != Some(db.value.hostId) ==>
        reply == Refused(NotHost) && events == [] && unchanged(Touch(Some(roomId)))
      ensures db.Some? && conn.userId == Some(db.value.hostId) && roomId !in rooms ==>
        reply == Refused(StateNotFound) && events == []
      ensures reply == Accepted <==>
        && db.Some? && conn.userId == Some(db.value.hostId) && roomId in rooms
        && old(rooms[roomId].status) == Waiting && |old(rooms[roomId].players)| >= 2
        && old(AllOpen(rooms[roomId].players))
      ensures db.Some? && conn.userId == Some(db.value.hostId) && roomId in rooms ==>
        var gs := rooms[roomId];
        && (old(gs.status) != Waiting ==> unchanged(gs) && reply == Refused(AlreadyStarted) && events == [])
        && (old(gs.status) == Waiting && |old(gs.players)| < 2 ==>
              unchanged(gs) && reply == Refused(NeedTwoPlayers) && events == [])
        && (old(gs.status) == Waiting && |old(gs.players)| >= 2 && !old(AllOpen(gs.players)) ==>
              unchanged(gs) && reply == Refused(NotAllConnected) && events == [])
      ensures reply == Accepted ==>
        var gs := rooms[roomId];
        && gs.status == Playing && gs.order == old(gs.order) && gs.projectiles == old(gs.projectiles)
        && gs.players.Keys == old(gs.players).Keys
        && (forall id :: id in gs.players ==> gs.players[id] == Reset(old(gs.players[id]), now))
        && events == [Outbound(Everyone, GameStarted(Roster(old(gs.players), gs.order)))]
    {
      if db.None? {
        return Refused(RoomNotFound), [];
      }
      if conn.userId != Some(db.value.hostId) {
        return Refused(NotHost), [];
      }
      if roomId !in rooms {
        return Refused(StateNotFound), [];
      }
      var gs := rooms[roomId];
      assert forall q :: q in rooms && q != roomId ==> rooms[q] != gs;
      reply, events := gs.Start(now);
      OnlyRoomChanged(roomId);
    }

    /** handleMove / handleAttack / handleFlash / handleGhost all look the
        caller's room up in the registry and do nothing when it is not
        there; the room's own handler does the rest. */
    method Dispatch(conn: Conn, cmd: Command, now: int) returns (reply: Reply, events: seq<Outbound>)
      requires Valid()
      requires cmd.AttackAt? ==> AtSpeed(cmd.vx, cmd.vy)
      requires conn.roomId.Some? ==> conn.userId.Some?
      modifies Touch(conn.roomId)
      ensures Valid()
      ensures Empties() == old(Empties())
      ensures Touch(conn.roomId) == {} ==> reply == NoReply && events == []
    {
      if conn.roomId.None? || conn.roomId.value !in rooms {
        return NoReply, [];
      }
      var r := conn.roomId.value;
      var gs := rooms[r];
      assert forall q :: q in rooms && q != r ==> rooms[q] != gs;
      var u := conn.userId.value;
      match cmd {
        case MoveTo(x, y) => reply, events := gs.Move(u, x, y);
        case AttackAt(aimX, aimY, vx, vy, projId) => reply, events := gs.Attack(u, aimX, aimY, vx, vy, projId, now);
        case FlashTo(x, y) => reply, events := gs.Flash(u, x, y, now);
        case GhostOn => reply, events := gs.Ghost(u, now);
      }
      OnlyRoomChanged(r);
    }

    /** The setInterval body: every room in the registry is ticked once, in
        registry order; what one tick does to a room is TickRoom's
        contract, of which Ticked keeps the part that outlives the call. */
    method TickAll(now: int, sqrt: real -> real) returns (events: seq<Outbound>)
      requires Valid() && IsSqrt(sqrt)
      modifies rooms.Values
      ensures Valid()
      ensures Empties() == old(Empties())
      ensures rooms == old(rooms) && roomOrder == old(roomOrder)
      ensures forall k :: 0 <= k < |roomOrder| ==> Ticked(rooms[roomOrder[k]], now)
    {
      events := [];
      var i := 0;
      while i < |roomOrder|
        invariant 0 <= i <= |roomOrder|
        invariant rooms == old(rooms) && roomOrder == old(roomOrder)
        invariant Valid()
        invariant Empties() == old(Empties())
        invariant forall k :: 0 <= k < i ==> Ticked(rooms[roomOrder[k]], now)
        invariant forall k :: i <= k < |roomOrder| ==> unchanged(rooms[roomOrder[k]])
      {
        var r := roomOrder[i];
        assert forall k :: 0 <= k < |roomOrder| && k != i ==> rooms[roomOrder[k]] != rooms[r];
        var ticked := TickRoom(r, now, sqrt);
        events := events + ticked;
        i := i + 1;
      }
    }

    /** One iteration of `gameStates.forEach` in the interval body. */
    method TickRoom(r: RoomId, now: int, sqrt: real -> real) returns (events: seq<Outbound>)
      requires Valid() && IsSqrt(sqrt) && r in rooms
      modifies rooms[r]
      ensures Valid()
      ensures Empties() == old(Empties())
      ensures Ticked(rooms[r], now)
      ensures old(rooms[r].status) != Playing ==> unchanged(rooms[r]) && events == []
      ensures old(rooms[r].status) == Playing ==>
        var t := TickOutcome(old(rooms[r].players), rooms[r].order, old(rooms[r].projectiles), now, sqrt, r);
        rooms[r].players == t.players && rooms[r].projectiles == t.projectiles && events == t.events
    {
      var gs := rooms[r];
      assert forall q :: q in rooms && q != r ==> rooms[q] != gs;
      events := gs.Tick(now, sqrt);
      OnlyRoomChanged(r);
    }
  }

  /** The part of one room's tick that the registry loop keeps track of:
      order, status and the set of players are kept, a room that is not
      playing is left as it was, and 0 <= hp <= maxHp survives when no
      player's clock was ahead of `now`. */
  twostate predicate Ticked(gs: GameState, now: int)
    reads gs
  {
    && gs.order == old(gs.order) && gs.status == old(gs.status) && gs.players.Keys == old(gs.players).Keys
    && (old(gs.status) != Playing ==> gs.players == old(gs.players) && gs.projectiles == old(gs.projectiles))
    && (old(gs.HpNonNegative()) && old(gs.ClockAhead(now)) ==> gs.HpNonNegative() && gs.ClockAhead(now))
  }
}
