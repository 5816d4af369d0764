/** The room lobby kept in the database: the rooms table, the
    room_participants table, the members' win counters and the game
    records, and the five guarded transactions over them (start a game,
    join, save a result, leave, delete).  Each transaction either fails
    with the first guard that is violated and leaves every table as it
    was (a managed transaction rolls back on any throw), or commits all of
    its writes.

    The tables are first described as a value, `Tables`, with one pure
    function per transaction; the class `Lobby` then holds the tables as
    fields and performs each transaction step by step, and each method is
    proved to reach the state its function describes. */
module Lobby {
  import opened Common

  /** One row of the rooms table (only the columns the service reads). */
  datatype RoomRow = RoomRow(status: Status, hostId: UserId, playerCount: int)

  /** One row of room_participants; (roomId, memberId) is a unique index. */
  datatype Participant = Participant(roomId: RoomId, memberId: UserId)

  /** One row of game_records. */
  datatype GameRecord = GameRecord(roomId: RoomId, winnerId: UserId, loserId: UserId)

  /** Why a transaction was rolled back, one constructor per thrown error. */
  datatype Failure =
    | RoomNotFound        // the room row does not exist
    | NotHost             // only the host may start or delete the room
    | AlreadyStarted      // startGame on a room that is not waiting
    | NotTwoPlayers       // startGame needs playerCount == 2
    | RoomInProgress      // joinRoom on a room that is not waiting
    | RoomFull            // joinRoom with playerCount >= 2
    | AlreadyJoined       // the (room, member) row already exists
    | NotTwoParticipants  // saveGameResult needs exactly two rows
    | LoserNotFound       // no participant other than the winner (or id 0)
    | WinnerNotFound      // the winner's member row is missing
    | NotParticipant      // leaveRoom by a member who has no row
    | LeaveWhilePlaying   // leaveRoom while the game is on
    | DeleteWhilePlaying  // deleteRoom while the game is on

  datatype Outcome = Success | Failed(reason: Failure)

  /** The tables the service touches. Participants keep table order,
      which is the order `findAll` returns them in. */
  datatype Tables = Tables(
    rooms: map<RoomId, RoomRow>,
    participants: seq<Participant>,
    totalWins: map<UserId, nat>,
    records: seq<GameRecord>)

  datatype Result = Result(outcome: Outcome, tables: Tables)

  // ---------------------------------------------------------------------
  // Queries over the participants table

  /** No participant row occurs twice (the unique index). */
  predicate Unique(ps: seq<Participant>) {
    forall i, j :: 0 <= i < j < |ps| ==> ps[i] != ps[j]
  }

  lemma UniqueSnoc(ps: seq<Participant>, x: Participant)
    requires Unique(ps) && x !in ps
    ensures Unique(ps + [x])
  {
    forall i, j | 0 <= i < j < |ps + [x]|
      ensures (ps + [x])[i] != (ps + [x])[j]
    {
      if j == |ps| {
        assert (ps + [x])[i] == ps[i];
      }
    }
  }

  lemma UniqueSplit(ps: seq<Participant>)
    requires Unique(ps) && ps != []
    ensures Unique(ps[..|ps| - 1]) && ps[|ps| - 1] !in ps[..|ps| - 1]
  {
    var pre := ps[..|ps| - 1];
    forall i, j | 0 <= i < j < |pre| ensures pre[i] != pre[j] {
      assert pre[i] == ps[i] && pre[j] == ps[j];
    }
    forall i | 0 <= i < |pre| ensures pre[i] != ps[|ps| - 1] {
      assert pre[i] == ps[i];
    }
  }

  /** A filter of a unique table stays unique when the last row is kept. */
  lemma SnocKeepsUnique(ps: seq<Participant>, q: seq<Participant>)
    requires ps != []
    requires Unique(ps[..|ps| - 1]) ==> Unique(q)
    requires forall y :: y in q ==> y in ps[..|ps| - 1]
    ensures Unique(ps) ==> Unique(q + [ps[|ps| - 1]])
  {
    if Unique(ps) {
      UniqueSplit(ps);
      UniqueSnoc(q, ps[|ps| - 1]);
    }
  }

  /** `findAll({ where: { roomId } })`: the rows of one room, in table order. */
  function InRoom(ps: seq<Participant>, r: RoomId): (q: seq<Participant>)
    ensures forall x :: x in q <==> x in ps && x.roomId == r
    ensures Unique(ps) ==> Unique(q)
    ensures |q| <= |ps|
    decreases |ps|
  {
    if ps == [] then []
    else
      var pre, x := ps[..|ps| - 1], ps[|ps| - 1];
      assert ps == pre + [x];
      var q' := InRoom(pre, r);
      if x.roomId == r then
        SnocKeepsUnique(ps, q'); q' + [x]
      else q'
  }

  /** Removes the given row (`participant.destroy()`). */
  function WithoutRow(ps: seq<Participant>, p: Participant): (q: seq<Participant>)
    ensures forall x :: x in q <==> x in ps && x != p
    ensures Unique(ps) ==> Unique(q)
    decreases |ps|
  {
    if ps == [] then []
    else
      var pre, x := ps[..|ps| - 1], ps[|ps| - 1];
      assert ps == pre + [x];
      var q' := WithoutRow(pre, p);
      if x != p then
        SnocKeepsUnique(ps, q'); q' + [x]
      else q'
  }

  /** Removes every row of room r (`RoomParticipant.destroy({ where: { roomId } })`). */
  function OutsideRoom(ps: seq<Participant>, r: RoomId): (q: seq<Participant>)
    ensures forall x :: x in q <==> x in ps && x.roomId != r
    ensures Unique(ps) ==> Unique(q)
    decreases |ps|
  {
    if ps == [] then []
    else
      var pre, x := ps[..|ps| - 1], ps[|ps| - 1];
      assert ps == pre + [x];
      var q' := OutsideRoom(pre, r);
      if x.roomId != r then
        SnocKeepsUnique(ps, q'); q' + [x]
      else q'
  }

  /** `participants.find(p => p.memberId !== w)` as an index: the first row
      whose member is not w, or |q| when there is none. */
  function FindOther(q: seq<Participant>, w: UserId): (k: nat)
    ensures k <= |q|
    ensures forall j :: 0 <= j < k ==> q[j].memberId == w
    ensures k < |q| ==> q[k].memberId != w
  {
    if q == [] then 0
    else if q[0].memberId != w then 0
    else 1 + FindOther(q[1..], w)
  }

  /** `participants.find(...)?.memberId`: None stands for `undefined`. */
  function LoserId(q: seq<Participant>, w: UserId): Option<UserId>
  {
    var k := FindOther(q, w);
    if k < |q| then Some(q[k].memberId) else None
  }

  /** `!loserId`: undefined and the id 0 are both rejected. */
  predicate LoserMissing(l: Option<UserId>) {
    l.None? || l.value == 0
  }

  // ---------------------------------------------------------------------
  // The invariant the transactions keep

  /** Every participant row names an existing room, no row is repeated,
      and each room's playerCount equals its number of rows, never more
      than two. */
  ghost predicate Consistent(t: Tables) {
    && (forall x :: x in t.participants ==> x.roomId in t.rooms)
    && Unique(t.participants)
    && (forall r :: r in t.rooms ==>
          t.rooms[r].playerCount == |InRoom(t.participants, r)| <= 2)
  }

  lemma InRoomSnoc(ps: seq<Participant>, x: Participant, r: RoomId)
    ensures InRoom(ps + [x], r) == InRoom(ps, r) + (if x.roomId == r then [x] else [])
  {
    assert (ps + [x])[..|ps|] == ps;
  }

  /** Removing one row lowers the count of its own room by one and of no
      other room. */
  lemma {:induction false} CountWithoutRow(ps: seq<Participant>, p: Participant, r: RoomId)
    requires Unique(ps)
    ensures |InRoom(WithoutRow(ps, p), r)|
         == |InRoom(ps, r)| - (if p in ps && p.roomId == r then 1 else 0)
    decreases |ps|
  {
    if ps != [] {
      var pre, x := ps[..|ps| - 1], ps[|ps| - 1];
      assert ps == pre + [x];
      UniqueSplit(ps);
      CountWithoutRow(pre, p, r);
      InRoomSnoc(pre, x, r);
      if x != p {
        InRoomSnoc(WithoutRow(pre, p), x, r);
      }
    }
  }

  /** After every row of room r is removed, r has none left and every
      other room keeps exactly its rows. */
  lemma {:induction false} InRoomOutside(ps: seq<Participant>, r: RoomId, s: RoomId)
    ensures InRoom(OutsideRoom(ps, r), s) == if s == r then [] else InRoom(ps, s)
    decreases |ps|
  {
    if ps != [] {
      var pre, x := ps[..|ps| - 1], ps[|ps| - 1];
      assert ps == pre + [x];
      InRoomOutside(pre, r, s);
      InRoomSnoc(pre, x, s);
      if x.roomId != r {
        InRoomSnoc(OutsideRoom(pre, r), x, s);
      }
    }
  }

  /** Removing a row that is not there changes nothing. */
  lemma {:induction false} WithoutAbsentRow(ps: seq<Participant>, p: Participant)
    requires p !in ps
    ensures WithoutRow(ps, p) == ps
    decreases |ps|
  {
    if ps != [] {
      var pre := ps[..|ps| - 1];
      assert ps == pre + [ps[|ps| - 1]];
      WithoutAbsentRow(pre, p);
    }
  }

  // ---------------------------------------------------------------------
  // The transactions, as functions of the tables

  /** u differs from t at most in the status of room r, which is s when
      the room exists; the participants are the same rows. */
  predicate OnlyStatusChanged(t: Tables, u: Tables, r: RoomId, s: Status) {
    && u.participants == t.participants
    && u.rooms.Keys == t.rooms.Keys
    && (r in t.rooms ==> u.rooms[r] == t.rooms[r].(status := s))
    && (forall q :: q in t.rooms && q != r ==> u.rooms[q] == t.rooms[q])
  }

  /** startGame: the host of a waiting room with two players sets it to
      playing. */
  function StartGameOn(t: Tables, roomId: RoomId, memberId: UserId): (res: Result)
    ensures res.outcome.Failed? ==> res.tables == t
    ensures roomId !in t.rooms ==> res.outcome == Failed(RoomNotFound)
    ensures roomId in t.rooms && t.rooms[roomId].hostId != memberId ==>
      res.outcome == Failed(NotHost)
    ensures (roomId in t.rooms && t.rooms[roomId].hostId == memberId
       && t.rooms[roomId].status != Waiting)
      ==> res.outcome == Failed(AlreadyStarted)
    ensures (roomId in t.rooms && t.rooms[roomId].hostId == memberId
       && t.rooms[roomId].status == Waiting && t.rooms[roomId].playerCount != 2)
      ==> res.outcome == Failed(NotTwoPlayers)
    ensures res.outcome == Success <==>
      roomId in t.rooms && t.rooms[roomId].hostId == memberId
      && t.rooms[roomId].status == Waiting && t.rooms[roomId].playerCount == 2
    ensures res.outcome == Success ==>
      OnlyStatusChanged(t, res.tables, roomId, Playing)
      && res.tables.totalWins == t.totalWins && res.tables.records == t.records
  {
    if roomId !in t.rooms then Result(Failed(RoomNotFound), t)
    else
      var room := t.rooms[roomId];
      if room.hostId != memberId then Result(Failed(NotHost), t)
      else if room.status != Waiting then Result(Failed(AlreadyStarted), t)
      else if room.playerCount != 2 then Result(Failed(NotTwoPlayers), t)
      else Result(Success, t.(rooms := t.rooms[roomId := room.(status := Playing)]))
  }

  /** joinRoom: a member enters a waiting room that is not full and that
      they have not joined yet. */
  function JoinRoomOn(t: Tables, roomId: RoomId, memberId: UserId): (res: Result)
    ensures res.outcome.Failed? ==> res.tables == t
    ensures roomId !in t.rooms ==> res.outcome == Failed(RoomNotFound)
    ensures roomId in t.rooms && t.rooms[roomId].status != Waiting ==>
      res.outcome == Failed(RoomInProgress)
    ensures (roomId in t.rooms && t.rooms[roomId].status == Waiting
       && t.rooms[roomId].playerCount >= 2)
      ==> res.outcome == Failed(RoomFull)
    ensures (roomId in t.rooms && t.rooms[roomId].status == Waiting
       && t.rooms[roomId].playerCount < 2 && Participant(roomId, memberId) in t.participants)
      ==> res.outcome == Failed(AlreadyJoined)
    ensures res.outcome == Success <==>
      roomId in t.rooms && t.rooms[roomId].status == Waiting
      && t.rooms[roomId].playerCount < 2 && Participant(roomId, memberId) !in t.participants
    ensures res.outcome == Success ==>
      && Participant(roomId, memberId) in res.tables.participants
      && |res.tables.participants| == |t.participants| + 1
      && res.tables.rooms.Keys == t.rooms.Keys
      && res.tables.rooms[roomId].playerCount == t.rooms[roomId].playerCount + 1 <= 2
      && res.tables.totalWins == t.totalWins && res.tables.records == t.records
    ensures res.outcome == Success ==>
      && res.tables.participants == t.participants + [Participant(roomId, memberId)]
      && res.tables.rooms[roomId] == t.rooms[roomId].(playerCount := t.rooms[roomId].playerCount + 1)
      && (forall q :: q in t.rooms && q != roomId ==> res.tables.rooms[q] == t.rooms[q])
  {
    if roomId !in t.rooms then Result(Failed(RoomNotFound), t)
    else
      var room := t.rooms[roomId];
      if room.status != Waiting then Result(Failed(RoomInProgress), t)
      else if room.playerCount >= 2 then Result(Failed(RoomFull), t)
      else if Participant(roomId, memberId) in t.participants then Result(Failed(AlreadyJoined), t)
      else Result(Success, t.(
        participants := t.participants + [Participant(roomId, memberId)],
        rooms := t.rooms[roomId := room.(playerCount := room.playerCount + 1)]))
  }

  /** saveGameResult: with exactly two rows in the room, the first other
      participant is the loser; a record is added, the winner's wins go up
      by one and the room (if its row exists) becomes finished. */
  function SaveGameResultOn(t: Tables, roomId: RoomId, winnerId: UserId): (res: Result)
    ensures res.outcome.Failed? ==> res.tables == t
    ensures |InRoom(t.participants, roomId)| != 2 ==> res.outcome == Failed(NotTwoParticipants)
    ensures (|InRoom(t.participants, roomId)| == 2
       && LoserMissing(LoserId(InRoom(t.participants, roomId), winnerId)))
      ==> res.outcome == Failed(LoserNotFound)
    ensures (|InRoom(t.participants, roomId)| == 2
       && !LoserMissing(LoserId(InRoom(t.participants, roomId), winnerId))
       && winnerId !in t.totalWins)
      ==> res.outcome == Failed(WinnerNotFound)
    ensures res.outcome == Success <==>
      |InRoom(t.participants, roomId)| == 2
      && !LoserMissing(LoserId(InRoom(t.participants, roomId), winnerId))
      && winnerId in t.totalWins
    ensures res.outcome == Success ==>
      OnlyStatusChanged(t, res.tables, roomId, Finished)
      && res.tables.records
         == t.records + [GameRecord(roomId, winnerId, LoserId(InRoom(t.participants, roomId), winnerId).value)]
      && res.tables.totalWins == t.totalWins[winnerId := t.totalWins[winnerId] + 1]
  {
    var inRoom := InRoom(t.participants, roomId);
    if |inRoom| != 2 then Result(Failed(NotTwoParticipants), t)
    else
      var loser := LoserId(inRoom, winnerId);
      if LoserMissing(loser) then Result(Failed(LoserNotFound), t)
      else if winnerId !in t.totalWins then Result(Failed(WinnerNotFound), t)
      else Result(Success, t.(
        records := t.records + [GameRecord(roomId, winnerId, loser.value)],
        totalWins := t.totalWins[winnerId := t.totalWins[winnerId] + 1],
        rooms := if roomId in t.rooms
                 then t.rooms[roomId := t.rooms[roomId].(status := Finished)]
                 else t.rooms))
  }

  /** leaveRoom: a participant of a room that is not playing leaves it;
      the room row is deleted when its count read before the decrement
      was at most one. */
  function LeaveRoomOn(t: Tables, roomId: RoomId, memberId: UserId): (res: Result)
    ensures res.outcome.Failed? ==> res.tables == t
    ensures roomId !in t.rooms ==> res.outcome == Failed(RoomNotFound)
    ensures roomId in t.rooms && Participant(roomId, memberId) !in t.participants ==>
      res.outcome == Failed(NotParticipant)
    ensures (roomId in t.rooms && Participant(roomId, memberId) in t.participants
       && t.rooms[roomId].status == Playing)
      ==> res.outcome == Failed(LeaveWhilePlaying)
    ensures res.outcome == Success <==>
      roomId in t.rooms && Participant(roomId, memberId) in t.participants
      && t.rooms[roomId].status != Playing
    ensures res.outcome == Success ==>
      res.tables.totalWins == t.totalWins && res.tables.records == t.records
      && Participant(roomId, memberId) !in res.tables.participants
      && (roomId in res.tables.rooms <==> t.rooms[roomId].playerCount > 1)
    ensures res.outcome == Success ==>
      && res.tables.participants == WithoutRow(t.participants, Participant(roomId, memberId))
      && res.tables.rooms.Keys <= t.rooms.Keys
      && (roomId in res.tables.rooms ==>
            res.tables.rooms[roomId]
            == t.rooms[roomId].(playerCount := t.rooms[roomId].playerCount - 1))
      && (forall q :: q in t.rooms && q != roomId ==> q in res.tables.rooms && res.tables.rooms[q] == t.rooms[q])
  {
    if roomId !in t.rooms then Result(Failed(RoomNotFound), t)
    else
      var room := t.rooms[roomId];
      var p := Participant(roomId, memberId);
      if p !in t.participants then Result(Failed(NotParticipant), t)
      else if room.status == Playing then Result(Failed(LeaveWhilePlaying), t)
      else Result(Success, t.(
        participants := WithoutRow(t.participants, p),
        rooms := if room.playerCount <= 1 then t.rooms - {roomId}
                 else t.rooms[roomId := room.(playerCount := room.playerCount - 1)]))
  }

  /** deleteRoom: the host removes a room that is not playing, together
      with all of its participant rows. */
  function DeleteRoomOn(t: Tables, roomId: RoomId, memberId: UserId): (res: Result)
    ensures res.outcome.Failed? ==> res.tables == t
    ensures roomId !in t.rooms ==> res.outcome == Failed(RoomNotFound)
    ensures roomId in t.rooms && t.rooms[roomId].hostId != memberId ==>
      res.outcome == Failed(NotHost)
    ensures (roomId in t.rooms && t.rooms[roomId].hostId == memberId
       && t.rooms[roomId].status == Playing)
      ==> res.outcome == Failed(DeleteWhilePlaying)
    ensures res.outcome == Success <==>
      roomId in t.rooms && t.rooms[roomId].hostId == memberId
      && t.rooms[roomId].status != Playing
    ensures res.outcome == Success ==>
      res.tables.rooms == t.rooms - {roomId}
      && (forall x :: x in res.tables.participants <==> x in t.participants && x.roomId != roomId)
      && res.tables.totalWins == t.totalWins && res.tables.records == t.records
  {
    if roomId !in t.rooms then Result(Failed(RoomNotFound), t)
    else
      var room := t.rooms[roomId];
      if room.hostId != memberId then Result(Failed(NotHost), t)
      else if room.status == Playing then Result(Failed(DeleteWhilePlaying), t)
      else Result(Success, t.(
        participants := OutsideRoom(t.participants, roomId),
        rooms := t.rooms - {roomId}))
  }

  // ---------------------------------------------------------------------
  // Properties of the transactions

  lemma StartKeepsConsistent(t: Tables, roomId: RoomId, memberId: UserId)
    requires Consistent(t)
    ensures Consistent(StartGameOn(t, roomId, memberId).tables)
  {
  }

  /** A started room has exactly two participant rows. */
  lemma StartedRoomHasTwoParticipants(t: Tables, roomId: RoomId, memberId: UserId)
    requires Consistent(t) && StartGameOn(t, roomId, memberId).outcome == Success
    ensures |InRoom(StartGameOn(t, roomId, memberId).tables.participants, roomId)| == 2
  {
  }

  /** Joining keeps the tables consistent; in particular no room ever
      gets a third player. */
  lemma JoinKeepsConsistent(t: Tables, roomId: RoomId, memberId: UserId)
    requires Consistent(t)
    ensures Consistent(JoinRoomOn(t, roomId, memberId).tables)
  {
    var res := JoinRoomOn(t, roomId, memberId);
    if res.outcome == Success {
      var p := Participant(roomId, memberId);
      UniqueSnoc(t.participants, p);
      forall r | r in res.tables.rooms
        ensures res.tables.rooms[r].playerCount == |InRoom(res.tables.participants, r)| <= 2
      {
        InRoomSnoc(t.participants, p, r);
      }
    }
  }

  lemma SaveKeepsConsistent(t: Tables, roomId: RoomId, winnerId: UserId)
    requires Consistent(t)
    ensures Consistent(SaveGameResultOn(t, roomId, winnerId).tables)
  {
  }

  /** Leaving keeps the tables consistent: in particular a room row is
      deleted exactly when its last participant leaves, so no row is left
      pointing at a deleted room. */
  lemma LeaveKeepsConsistent(t: Tables, roomId: RoomId, memberId: UserId)
    requires Consistent(t)
    ensures Consistent(LeaveRoomOn(t, roomId, memberId).tables)
  {
    var res := LeaveRoomOn(t, roomId, memberId);
    if res.outcome == Success {
      var p := Participant(roomId, memberId);
      var ps' := res.tables.participants;
      forall r | r in t.rooms {
        CountWithoutRow(t.participants, p, r);
      }
      assert p in InRoom(t.participants, roomId);
    }
  }

  lemma DeleteKeepsConsistent(t: Tables, roomId: RoomId, memberId: UserId)
    requires Consistent(t)
    ensures Consistent(DeleteRoomOn(t, roomId, memberId).tables)
  {
    var res := DeleteRoomOn(t, roomId, memberId);
    if res.outcome == Success {
      forall r | r in res.tables.rooms
        ensures res.tables.rooms[r].playerCount == |InRoom(res.tables.participants, r)| <= 2
      {
        InRoomOutside(t.participants, roomId, r);
      }
    }
  }

  /** Leaving right after joining a room that already had someone in it
      gives back exactly the tables before the join. */
  lemma LeaveUndoesJoin(t: Tables, roomId: RoomId, memberId: UserId)
    requires JoinRoomOn(t, roomId, memberId).outcome == Success
    requires t.rooms[roomId].playerCount >= 1
    ensures LeaveRoomOn(JoinRoomOn(t, roomId, memberId).tables, roomId, memberId) == Result(Success, t)
  {
    var p := Participant(roomId, memberId);
    var room := t.rooms[roomId];
    var joined := t.(
      participants := t.participants + [p],
      rooms := t.rooms[roomId := room.(playerCount := room.playerCount + 1)]);
    assert JoinRoomOn(t, roomId, memberId).tables == joined;
    WithoutAbsentRow(t.participants, p);
    LeaveJoined(t.participants, p);
    assert joined.rooms[roomId].(playerCount := room.playerCount) == room;
    assert t.rooms[roomId := room] == t.rooms;
  }

  lemma LeaveJoined(ps: seq<Participant>, p: Participant)
    requires WithoutRow(ps, p) == ps
    ensures WithoutRow(ps + [p], p) == ps
  {
    var qs := ps + [p];
    assert qs[..|qs| - 1] == ps && qs[|qs| - 1] == p;
  }

  /** When the winner is one of the two participants, the recorded loser
      is the other one, and the two of them are the room's players. */
  lemma LoserIsTheOtherPlayer(t: Tables, roomId: RoomId, winnerId: UserId)
    requires Consistent(t)
    requires |InRoom(t.participants, roomId)| == 2
    requires Participant(roomId, winnerId) in t.participants
    ensures LoserId(InRoom(t.participants, roomId), winnerId).Some?
    ensures var l := LoserId(InRoom(t.participants, roomId), winnerId).value;
      l != winnerId && Participant(roomId, l) in t.participants
      && forall x :: x in t.participants && x.roomId == roomId ==> x.memberId in {winnerId, l}
  {
    var q := InRoom(t.participants, roomId);
    assert q[0] != q[1];
    assert q[0].roomId == roomId && q[1].roomId == roomId;
    assert q[0].memberId != q[1].memberId;
    var w := Participant(roomId, winnerId);
    assert w in q;
    assert q == [q[0], q[1]];
    var k := FindOther(q, winnerId);
    assert k < 2;
    forall x | x in t.participants && x.roomId == roomId
      ensures x.memberId in {winnerId, q[k].memberId}
    {
      assert x in q;
    }
  }

  /** The winner is not checked against the room: a winner who is not a
      participant is accepted, and the first row of the room is recorded
      as the loser. */
  lemma OutsiderWinnerIsAccepted(t: Tables, roomId: RoomId, winnerId: UserId)
    requires Consistent(t)
    requires |InRoom(t.participants, roomId)| == 2
    requires Participant(roomId, winnerId) !in t.participants
    ensures LoserId(InRoom(t.participants, roomId), winnerId)
         == Some(InRoom(t.participants, roomId)[0].memberId)
  {
    var q := InRoom(t.participants, roomId);
    assert q[0] in q;
    assert q[0].memberId != winnerId;
  }

  // ---------------------------------------------------------------------
  // The service, performing each transaction on the stored tables

  class Lobby {
    var rooms: map<RoomId, RoomRow>
    var participants: seq<Participant>
    var totalWins: map<UserId, nat>
    var records: seq<GameRecord>

    function Snapshot(): Tables
      reads this
    {
      Tables(rooms, participants, totalWins, records)
    }

    ghost predicate Valid()
      reads this
    {
      Consistent(Snapshot())
    }

    constructor(t: Tables)
      ensures Snapshot() == t
    {
      rooms, participants, totalWins, records := t.rooms, t.participants, t.totalWins, t.records;
    }

    method StartGame(roomId: RoomId, memberId: UserId) returns (outcome: Outcome)
      modifies this
      ensures Result(outcome, Snapshot()) == StartGameOn(old(Snapshot()), roomId, memberId)
      ensures old(Valid()) ==> Valid()
    {
      if roomId !in rooms {
        return Failed(RoomNotFound);
      }
      var room := rooms[roomId];
      if room.hostId != memberId {
        return Failed(NotHost);
      }
      if room.status != Waiting {
        return Failed(AlreadyStarted);
      }
      if room.playerCount != 2 {
        return Failed(NotTwoPlayers);
      }
      ghost var t := Snapshot();
      rooms := rooms[roomId := room.(status := Playing)];
      outcome := Success;
      assert StartGameOn(t, roomId, memberId) == Result(Success, Snapshot());
      if old(Valid()) {
        StartKeepsConsistent(t, roomId, memberId);
      }
    }

    method JoinRoom(roomId: RoomId, memberId: UserId) returns (outcome: Outcome)
      modifies this
      ensures Result(outcome, Snapshot()) == JoinRoomOn(old(Snapshot()), roomId, memberId)
      ensures old(Valid()) ==> Valid()
    {
      if roomId !in rooms {
        return Failed(RoomNotFound);
      }
      var room := rooms[roomId];
      if room.status != Waiting {
        return Failed(RoomInProgress);
      }
      if room.playerCount >= 2 {
        return Failed(RoomFull);
      }
      if Participant(roomId, memberId) in participants {
        return Failed(AlreadyJoined);
      }
      ghost var t := Snapshot();
      participants := participants + [Participant(roomId, memberId)];
      rooms := rooms[roomId := room.(playerCount := room.playerCount + 1)];
      outcome := Success;
      assert JoinRoomOn(t, roomId, memberId) == Result(Success, Snapshot());
      if old(Valid()) {
        JoinKeepsConsistent(t, roomId, memberId);
      }
    }

    method SaveGameResult(roomId: RoomId, winnerId: UserId) returns (outcome: Outcome)
      modifies this
      ensures Result(outcome, Snapshot()) == SaveGameResultOn(old(Snapshot()), roomId, winnerId)
      ensures old(Valid()) ==> Valid()
    {
      ghost var t := Snapshot();
      var inRoom := InRoom(participants, roomId);
      if |inRoom| != 2 {
        return Failed(NotTwoParticipants);
      }
      var loser := LoserId(inRoom, winnerId);
      if LoserMissing(loser) {
        return Failed(LoserNotFound);
      }
      var saved := records;
      records := records + [GameRecord(roomId, winnerId, loser.value)];
      if winnerId !in totalWins {
        // incrementing a missing member throws: the record is rolled back
        records := saved;
        return Failed(WinnerNotFound);
      }
      totalWins := totalWins[winnerId := totalWins[winnerId] + 1];
      if roomId in rooms {
        rooms := rooms[roomId := rooms[roomId].(status := Finished)];
      }
      outcome := Success;
      assert SaveGameResultOn(t, roomId, winnerId) == Result(Success, Snapshot());
      if old(Valid()) {
        SaveKeepsConsistent(t, roomId, winnerId);
      }
    }

    method LeaveRoom(roomId: RoomId, memberId: UserId) returns (outcome: Outcome)
      modifies this
      ensures Result(outcome, Snapshot()) == LeaveRoomOn(old(Snapshot()), roomId, memberId)
      ensures old(Valid()) ==> Valid()
    {
      if roomId !in rooms {
        return Failed(RoomNotFound);
      }
      var room := rooms[roomId];
      var participant := Participant(roomId, memberId);
      if participant !in participants {
        return Failed(NotParticipant);
      }
      if room.status == Playing {
        return Failed(LeaveWhilePlaying);
      }
      ghost var t := Snapshot();
      participants := WithoutRow(participants, participant);
      rooms := rooms[roomId := room.(playerCount := room.playerCount - 1)];
      // the count compared is the one read before the decrement
      if room.playerCount <= 1 {
        rooms := rooms - {roomId};
      }
      outcome := Success;
      assert LeaveRoomOn(t, roomId, memberId) == Result(Success, Snapshot());
      if old(Valid()) {
        LeaveKeepsConsistent(t, roomId, memberId);
      }
    }

    method DeleteRoom(roomId: RoomId, memberId: UserId) returns (outcome: Outcome)
      modifies this
      ensures Result(outcome, Snapshot()) == DeleteRoomOn(old(Snapshot()), roomId, memberId)
      ensures old(Valid()) ==> Valid()
    {
      if roomId !in rooms {
        return Failed(RoomNotFound);
      }
      var room := rooms[roomId];
      if room.hostId != memberId {
        return Failed(NotHost);
      }
      if room.status == Playing {
        return Failed(DeleteWhilePlaying);
      }
      ghost var t := Snapshot();
      participants := OutsideRoom(participants, roomId);
      rooms := rooms - {roomId};
      outcome := Success;
      assert DeleteRoomOn(t, roomId, memberId) == Result(Success, Snapshot());
      if old(Valid()) {
        DeleteKeepsConsistent(t, roomId, memberId);
      }
    }
  }
}
