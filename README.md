# Two-player duel server: a Dafny model

This project models the server core of a two-player real-time duel game. It has two parts.

- **The in-memory duel engine** (`back/src/utils/websocket.js`). It keeps a `gameStates`
  registry from room id to a `GameState`. Each `GameState` holds at most two player
  records, the projectiles in flight and a `waiting`/`playing`/`finished` status. The
  engine also has:
  - per-player rules: spawn slot, passive regeneration with expiry of the ghost and slow
    effects, effective move speed, and a bounded step toward the move target;
  - the projectile pass: the position is recomputed from the spawn point, there is a range
    cut-off, then hit resolution, then reverse-order splicing;
  - the 50 ms tick;
  - the command handlers: join, leave, start, move, attack, flash and ghost.
- **The lobby transactions** (`back/src/services/gameService.js`): `startGame`,
  `joinRoom`, `saveGameResult`, `leaveRoom` and `deleteRoom`. They act on the rooms
  table, the room_participants table, the members' `totalWins` column and the game
  records. Each runs in a managed transaction, so any thrown error rolls back every write.

## Modules

| file | module | contents |
|---|---|---|
| `common.dfy` | `Common` | ids, `Option`, the room `Status`, real `Min`/`Max` |
| `duel_rules.dfy` | `DuelRules` | the constants, player and projectile records, the per-player rules, distance comparisons, hit resolution, the cooldown countdown, outbound events |
| `duel_pass.dfy` | `DuelPass` | the projectile pass as functions (`Sweep`, `VisitTargets`, `VisitTarget`), the reverse splice (`SpliceAll`) and its meaning (`Keep`), and what the pass removes and keeps |
| `duel_room.dfy` | `DuelRoom` | class `GameState`: its fields `players`, `order`, `projectiles` and `status`, the in-room handlers, the projectile method with its loops, and the tick |
| `duel_server.dfy` | `DuelServer` | class `Server`: the `gameStates` registry, the socket's `userId`/`roomId` record, the join/leave/start handlers, command routing and the interval over all rooms |
| `lobby.dfy` | `Lobby` | the tables as a value with one function per transaction, and class `Lobby`, whose methods perform each transaction on the stored tables |

### How the model represents the engine

- **Player records.** A player record is a value. `GameState.players` maps user ids to
  records, and `GameState.order` keeps the JavaScript `Map`'s insertion order. Each
  per-player rule returns the new record and the handler writes it back. That is how the
  in-place field updates appear here.
- **Time.** `Date.now()` becomes a `now` parameter in milliseconds. One tick uses one
  instant.
- **Sockets.** A socket is a `Session` with an id and an `open` flag, which stands for
  `readyState === OPEN`.
- **Outbound messages.** They are returned as a list of `Outbound(audience, event)`
  values, in order.
- **Distances.** Comparisons use squared distances. `CompareDistance` proves that this
  agrees with comparing `Math.sqrt`.
- **Movement step.** The step receives the distance to its target as a parameter that
  satisfies `IsDistance`. The tick receives a `sqrt` oracle that satisfies `IsSqrt`.

### How the model represents the lobby

- **Tables.** The four tables are the value `Tables`. The functions `StartGameOn`,
  `JoinRoomOn`, `SaveGameResultOn`, `LeaveRoomOn` and `DeleteRoomOn` give each
  transaction's outcome and resulting tables.
- **Methods.** The methods of class `Lobby` perform the same guards and writes step by
  step on fields. Each method is proved to reach exactly the state its function describes.
- **Invariant.** `Lobby.Consistent` is the invariant that every transaction preserves:
  - every participant row names an existing room;
  - no (room, member) row is repeated, which is the unique index;
  - each room's `playerCount` equals its number of rows and is at most 2.

### Behaviour of the code that the model keeps

- A hit needs a distance below 30, the projectile radius alone. It is not the sum of the
  two radii (websocket.js:169-171).
- A kill or a self-elimination leaves `status` at `playing`. The model sends the finish
  event only (websocket.js:275-284, 780-784).
- Neither a finished game nor a kill removes the room from `gameStates`. Only a leave
  that empties the room does (websocket.js:594).
- `handleStart` resets effects and cooldowns, but not hp or position
  (websocket.js:698-711).
- `handleMove` does not clamp the target to the map (websocket.js:749-750).

## Model

| member | source | states |
|---|---|---|
| DuelRules.Spawn | back/src/utils/websocket.js:49-84 | the first joiner spawns at (25, 300) and the second at (775, 300), both inside the map; the target is the spawn point; hp = maxHp = 1000; not dead, not ghost, no slow; all cooldowns 0; the record holds the given socket and join time |
| DuelRules.UpdatePlayerHP | back/src/utils/websocket.js:130-149 | a dead record is unchanged; otherwise hp becomes min(maxHp, hp + 2 × elapsed seconds): it equals maxHp exactly when the regenerated hp reaches maxHp, and below the cap it rose by exactly 2 per second; it never decreases and stays non-negative on a forward clock; ghost and slow are cleared exactly when their end time is positive and reached; no other field changes |
| DuelRules.CurrentMoveSpeed | back/src/utils/websocket.js:151-163 | speed = 355 × 1.24 when ghost × (1 − slowPercent); it lies in [0, 440.2] for a slow in [0, 1] and is positive for a sane record |
| DuelRules.CompareDistance | back/src/utils/websocket.js:165-167 | for a distance d whose square is the squared distance, d < c, d ≤ c, d > c and d ≥ c each hold iff the squared distance compares the same way with c² |
| DuelRules.CollidesIffWithinRadius | back/src/utils/websocket.js:169-171 | the squared-distance collision test `Collides` holds iff the projectile is closer than 30 to the player |
| DuelRules.FlashInRangeIffWindow | back/src/utils/websocket.js:822-824 | the squared-distance flash test `FlashInRange` holds iff 100 ≤ distance ≤ 400 |
| DuelRules.Step | back/src/utils/websocket.js:191-220 | a dead player does not move and reports false; within 5 of the target the player snaps onto it and reports whether it was elsewhere; from 5 or farther it always reports a move and lands on the target when speed·dt reaches the distance; only x and y change |
| DuelRules.StepApproachesTarget | back/src/utils/websocket.js:207-217 | a partial step covers exactly speed·dt along the segment, and the remaining distance is the old distance minus speed·dt, which is between 0 and the old distance |
| DuelRules.StepNeverRecedes | back/src/utils/websocket.js:191-220 | no step increases the distance to the target or changes the target |
| DuelRules.Damage | back/src/utils/websocket.js:251-254 | damage is max(80, 0.2 × the attacker's hp) |
| DuelRules.Struck | back/src/utils/websocket.js:256-277 | the target's hp becomes max(0, hp − damage); it is dead iff it was dead or hp − damage ≤ 0; it is slowed by 40% until now + 2000; nothing else changes |
| DuelRules.Healed | back/src/utils/websocket.js:262-263 | the attacker's hp becomes min(maxHp, hp + 50); nothing else changes |
| DuelRules.HitKeepsHpInRange | back/src/utils/websocket.js:251-277 | a hit keeps both records sane with 0 ≤ hp ≤ maxHp; the target's hp drops or is 0; the attacker's hp never drops |
| DuelRules.NewProjectile | back/src/utils/websocket.js:115-128 | the projectile starts at the attacker's position, with the given velocity, owner and start time |
| DuelRules.Advanced | back/src/utils/websocket.js:230-232 | the position is the start point plus velocity × elapsed seconds; nothing else changes |
| DuelRules.RangeCutoffTime | back/src/utils/websocket.js:235-236 | at projectile speed 1200, the range test `OutOfRange` (travel beyond 2000) holds iff more than 5000/3 ms have elapsed |
| DuelRules.RemainingSeconds | back/src/utils/websocket.js:177-180 | `max(0, ceil((deadline − now)/1000))`: 0 iff the deadline has passed, otherwise the least whole number of seconds covering what is left |
| DuelRules.CoolTimeOf | back/src/utils/websocket.js:173-182 | the countdown message carries, field by field, `RemainingSeconds` of the rune, attack, ghost and flash deadlines; each is 0 iff that deadline is not in the future |
| DuelPass.OneOpponent | back/src/utils/websocket.js:242-244 | in a room of at most two distinct players, a player present has at most one opponent |
| DuelPass.VisitTarget | back/src/utils/websocket.js:242-288 | a non-qualifying player changes nothing; a hit with the owner absent only queues the index; a hit with the owner present damages and slows the target, heals the owner, queues the index once and emits hit, then finish when the target dies; positions and all other players are kept |
| DuelPass.VisitTargets | back/src/utils/websocket.js:242-289 | testing one projectile against the players keeps positions, only appends the projectile's own index, at most once per non-owner, and changes nobody when the owner is absent |
| DuelPass.Sweep | back/src/utils/websocket.js:229-290 | the whole pass keeps every position and queues only indices of existing projectiles |
| DuelPass.AdvancedAll | back/src/utils/websocket.js:229-232 | every projectile is moved to its recomputed position, in place |
| DuelPass.SweepQueueIncreasing | back/src/utils/websocket.js:229-290 | with at most one opponent per owner, the queued indices are strictly increasing, so no index is queued twice |
| DuelPass.SweepQueuesOutOfRange | back/src/utils/websocket.js:234-238 | every projectile past its range is queued |
| DuelPass.SweepQueuesHit | back/src/utils/websocket.js:242-288 | every projectile that strikes an alive non-owner in the players as they stand at that point of the pass is queued |
| DuelPass.SweepQueuedOnlyForCause | back/src/utils/websocket.js:229-290 | a queued projectile is past its range or strikes an alive non-owner in the players as they stand when the pass reaches it; with `SweepQueuesOutOfRange` and `SweepQueuesHit` this is an if-and-only-if |
| DuelPass.VisitTargetsQueuesOnlyForCause | back/src/utils/websocket.js:242-289 | the player loop queues the index only if it strikes some visited alive non-owner as the players stood before the loop |
| DuelPass.VisitTargetsQueuesHit | back/src/utils/websocket.js:242-289 | the player loop queues the index if some visited player is struck |
| DuelPass.SweepKeepsHp | back/src/utils/websocket.js:229-290 | the pass keeps every record sane, keeps 0 ≤ hp ≤ maxHp, and keeps the clock bound |
| DuelPass.Splice | back/src/utils/websocket.js:294 | removing index k shifts the later elements down by one, and an index past the end removes nothing |
| DuelPass.Keep | back/src/utils/websocket.js:292-295 | the unlisted elements, in order: never more elements, and only elements of the source |
| DuelPass.SpliceAllIsKeep | back/src/utils/websocket.js:292-295 | splicing increasing, in-range indices from the last to the first leaves exactly the unlisted elements in their order |
| DuelPass.KeepOnlyUnlisted | back/src/utils/websocket.js:292-295 | every survivor is an unlisted element of the source |
| DuelPass.KeepSurvivor | back/src/utils/websocket.js:292-295 | every unlisted element survives, after the survivors before it |
| DuelRoom.Without | back/src/utils/websocket.js:86-88 | removing a user from the join order keeps exactly the other ids, still distinct |
| DuelRoom.Roster | back/src/utils/websocket.js:486-491 | one entry per player in join order, carrying id, position and hp |
| DuelRoom.Reset | back/src/utils/websocket.js:698-711 | alive, not ghost, no slow, all cooldowns 0; hp, position and target kept |
| DuelRoom.TickPlayers | back/src/utils/websocket.js:306-323 | the per-player tick keeps the set of players and emits at most one move and one countdown per player |
| DuelRoom.TickPlayersPointwise | back/src/utils/websocket.js:306-323 | each player with an open socket becomes `TickedPlayer` of itself: regeneration followed by one 0.05 s step; a player with a closed socket is untouched |
| DuelRoom.TickPlayersKeepHp | back/src/utils/websocket.js:306-323 | the per-player tick keeps records sane and, on a forward clock, keeps 0 ≤ hp ≤ maxHp |
| DuelRoom.TickOutcome | back/src/utils/websocket.js:301-334 | one tick of a room keeps its set of players |
| DuelRoom.PassOutcome | back/src/utils/websocket.js:223-296 | after the pass, the reverse splice equals "keep the unqueued", hp stays in range, and every remaining projectile's owner is still present |
| DuelRoom.GameState.constructor | back/src/utils/websocket.js:42-47 | a new room is waiting, with no players and no projectiles |
| DuelRoom.GameState.AddPlayer | back/src/utils/websocket.js:49-84 | the spawned record is added under the user id and appended to the join order; the room invariant is kept |
| DuelRoom.GameState.RemovePlayer | back/src/utils/websocket.js:86-88 | the user's record and order entry are removed; nothing else changes |
| DuelRoom.GameState.Rebind | back/src/utils/websocket.js:480-483 | only the player's socket changes |
| DuelRoom.GameState.AllConnected | back/src/utils/websocket.js:676-682 | true iff every player's socket is open |
| DuelRoom.GameState.ResetPlayers | back/src/utils/websocket.js:697-711 | every record becomes its `Reset` |
| DuelRoom.GameState.Start | back/src/utils/websocket.js:658-726 | refused, with nothing changed, when not waiting, under two players, or some socket closed, in that order; accepted iff none holds; then playing, every record reset, and the game-started roster sent to everyone |
| DuelRoom.GameState.Move | back/src/utils/websocket.js:739-761 | outside play, for an absent player or a dead one, nothing changes and nothing is sent; otherwise only the target changes, unclamped, and the other player is told |
| DuelRoom.GameState.Attack | back/src/utils/websocket.js:764-806 | outside play nothing happens; dead, absent or on cooldown is refused with nothing changed; otherwise hp drops by 50, and at ≤ 0 the attacker is dead at hp 0 with no projectile and a suicide finish; otherwise the cooldown is now + 3700, exactly one projectile is appended at the attacker's position, and the cast and countdown are sent |
| DuelRoom.GameState.Flash | back/src/utils/websocket.js:809-843 | refused with nothing changed on cooldown, or outside the 100–400 window; otherwise position and target both move to the destination and the cooldown is now + 5000 |
| DuelRoom.GameState.Ghost | back/src/utils/websocket.js:846-870 | refused with nothing changed on cooldown; otherwise ghost until now + 10000, cooldown now + 15000, and the new speed 355 × 1.24 × (1 − slow) is reported |
| DuelRoom.GameState.UpdateProjectiles | back/src/utils/websocket.js:223-296 | outside play nothing changes; otherwise players and events are those of `Sweep`, and the projectiles are the advanced ones minus the queued ones, in order |
| DuelRoom.GameState.SweepProjectiles | back/src/utils/websocket.js:229-290 | the two nested loops produce exactly `Sweep`'s players, queue and events, and leave the projectiles advanced in place |
| DuelRoom.GameState.TestTargets | back/src/utils/websocket.js:242-289 | the inner loop over the players produces exactly `VisitTargets` |
| DuelRoom.GameState.SpliceQueued | back/src/utils/websocket.js:292-295 | the reverse loop of splices produces `SpliceAll` of the queue |
| DuelRoom.GameState.Tick | back/src/utils/websocket.js:299-335 | outside play nothing changes and nothing is sent; otherwise the new players, projectiles and events are those of `TickOutcome`; the invariant, and hp ≥ 0 on a forward clock, are kept |
| DuelServer.Server.constructor | back/src/utils/websocket.js:38 | the registry starts empty |
| DuelServer.Server.Register | back/src/utils/websocket.js:473-475 | a fresh waiting room is added under the id |
| DuelServer.Server.Unregister | back/src/utils/websocket.js:594 | the room's entry is removed from the registry |
| DuelServer.Server.Leave | back/src/utils/websocket.js:561-612 | nothing without a truthy user and room id (`Truthy`: present and non-zero); refused with the room unchanged while playing with the user present; otherwise the connection forgets the room and the user is removed; the entry is deleted when the room becomes empty, else the room keeps its status and projectiles, its order loses the user, and the rest are told the new count; no room is left empty |
| DuelServer.Server.LeaveRoom | back/src/utils/websocket.js:579-608 | the user is removed and the room is deleted exactly when no player is left; otherwise its order loses exactly the user, its status and projectiles are kept, and the others are told the new count |
| DuelServer.Server.Join | back/src/utils/websocket.js:444-549 | refused for no truthy user (`Truthy`), a missing row or a playing row, in that order; otherwise the room is registered if new; a present user only has the socket rebound, with order, status and projectiles kept; a full room refuses unchanged; otherwise a previous other room is left first, with the leave's reply as the first reply (`LeftRoom`), then the user is spawned and appended to the order, status and projectiles kept (a new room: waiting, no projectiles), the caller gets the roster and the others a join notice |
| DuelServer.Server.JoinRegistered | back/src/utils/websocket.js:473-549 | registering when absent, then joining, gives `JoinedRoom`, which carries the joined room's order, status and projectiles in each branch |
| DuelServer.Server.JoinNew | back/src/utils/websocket.js:473-549 | a room that was not registered is registered empty and entered fresh: `JoinedRoom` with order [u], waiting, no projectiles |
| DuelServer.Server.JoinExisting | back/src/utils/websocket.js:479-549 | on a registered room: a rejoin rebinds only the socket, keeping order, status and projectiles; a third player is refused with the room unchanged; otherwise a fresh entry appends the user; an empty room stops being empty |
| DuelServer.Server.JoinFresh | back/src/utils/websocket.js:511-549 | a previous other room is left, with the leave's reply first (`LeftRoom`); the user is spawned and appended to the order, with status and projectiles kept, and the roster reply and join notice of `Entered` are produced |
| DuelServer.Server.LeavePrevious | back/src/utils/websocket.js:512-514 | without a previous other room nothing changes and nothing is sent; otherwise the one reply is the leave's and `LeftRoom` holds: refused with the room as it was while playing with the user in it, else the room is deleted or the user is gone from it, its order loses exactly the user and its status and projectiles are kept; the room being joined is never touched |
| DuelServer.Server.Rejoin | back/src/utils/websocket.js:480-483 | only the player's socket changes: the other records, the order, the status and the projectiles are kept |
| DuelServer.Server.Admit | back/src/utils/websocket.js:522-524 | the spawned record is added and appended to the order, the room grows by one, and status and projectiles are kept |
| DuelServer.Server.Start | back/src/utils/websocket.js:624-726 | refused for a missing row, a non-host or an unregistered room, in that order; then the room's refusals (not waiting, under two players, a closed socket), in that order, with the room unchanged; accepted iff none holds; then the room is playing, every record is its `Reset`, order and projectiles are kept, and the game-started roster goes to everyone |
| DuelServer.Server.Dispatch | back/src/utils/websocket.js:361-372 | a command with no registered room sends nothing and changes nothing |
| DuelServer.Server.TickAll | back/src/utils/websocket.js:299-336 | every registered room is ticked once, in registry order, each meeting `Ticked`; the registry is unchanged |
| DuelServer.Server.TickRoom | back/src/utils/websocket.js:300-335 | a room outside play is unchanged and sends nothing; a playing room's new players, projectiles and events are those of `TickOutcome`; order, status and player set are kept |
| Lobby.InRoom | back/src/services/gameService.js:134-137 | exactly the rows of the room, unique when the table is |
| Lobby.WithoutRow | back/src/services/gameService.js:198 | exactly the other rows, unique when the table is |
| Lobby.OutsideRoom | back/src/services/gameService.js:237-240 | exactly the rows of other rooms, unique when the table is |
| Lobby.FindOther | back/src/services/gameService.js:144 | the index of the first row whose member is not the winner, or the length when every row is the winner's |
| Lobby.CountWithoutRow | back/src/services/gameService.js:198 | removing a present row lowers its own room's count by one and no other room's |
| Lobby.InRoomOutside | back/src/services/gameService.js:237-243 | after the room's rows are removed, it has none and every other room keeps its rows |
| Lobby.StartGameOn | back/src/services/gameService.js:9-44 | fails with nothing changed, with RoomNotFound, NotHost, AlreadyStarted or NotTwoPlayers for the first guard violated (room exists, caller is host, waiting, two players); succeeds iff none is violated; then only that room's status changes, to playing |
| Lobby.JoinRoomOn | back/src/services/gameService.js:85-126 | fails with nothing changed, with RoomNotFound, RoomInProgress, RoomFull or AlreadyJoined for the first guard violated; succeeds iff none is; then exactly the new row is appended, the room's count goes up by one to at most 2, and every other room, the wins and the records are kept |
| Lobby.SaveGameResultOn | back/src/services/gameService.js:131-168 | fails with nothing changed, with NotTwoParticipants, LoserNotFound or WinnerNotFound for the first guard violated (exactly two rows, a non-winner with a truthy id, so `LoserMissing` of `LoserId` is false, the winner's member row); succeeds iff none is; then one record (room, winner, first non-winner) is added, only the winner's wins go up by one, and only the room's status changes, to finished, if the room exists |
| Lobby.LeaveRoomOn | back/src/services/gameService.js:174-213 | fails with nothing changed, with RoomNotFound, NotParticipant or LeaveWhilePlaying for the first guard violated; succeeds iff none is; then the participants are `WithoutRow` of the caller's row, the room row is deleted iff its count before the decrement was at most 1, otherwise it keeps its columns with the count lowered by one; every other room, the wins and the records are kept |
| Lobby.DeleteRoomOn | back/src/services/gameService.js:218-247 | fails with nothing changed, with RoomNotFound, NotHost or DeleteWhilePlaying for the first guard violated; succeeds iff none is; then the room and exactly its rows are removed, and all else is kept |
| Lobby.StartedRoomHasTwoParticipants | back/src/services/gameService.js:34-39 | on consistent tables, a started room has exactly two participant rows |
| Lobby.JoinKeepsConsistent | back/src/services/gameService.js:101-122 | joining preserves `Consistent`; in particular no room exceeds two players |
| Lobby.LeaveKeepsConsistent | back/src/services/gameService.js:198-209 | leaving preserves `Consistent`; a room row is deleted exactly when its last participant leaves, so no row points at a deleted room |
| Lobby.DeleteKeepsConsistent | back/src/services/gameService.js:237-243 | deleting preserves `Consistent` |
| Lobby.LeaveUndoesJoin | back/src/services/gameService.js:116-209 | joining a room that already had a player and then leaving it gives back exactly the tables from before |
| Lobby.LoserIsTheOtherPlayer | back/src/services/gameService.js:139-147 | when the winner is one of the two participants, `LoserId` finds the other one as the loser, and those two are the room's players |
| Lobby.OutsiderWinnerIsAccepted | back/src/services/gameService.js:139-147 | a winner who is not a participant is not rejected: the room's first row is recorded as the loser |
| Lobby.Lobby.constructor | back/src/services/gameService.js:3 | the service starts on the given tables |
| Lobby.Lobby.StartGame | back/src/services/gameService.js:9-44 | performs `startGame` step by step, reaching `StartGameOn`, and keeps `Consistent` |
| Lobby.Lobby.JoinRoom | back/src/services/gameService.js:85-126 | performs `joinRoom`, reaching `JoinRoomOn`, and keeps `Consistent` |
| Lobby.Lobby.SaveGameResult | back/src/services/gameService.js:131-168 | performs `saveGameResult`, including the rollback of the created record when the winner's row is missing, reaching `SaveGameResultOn`, and keeps `Consistent` |
| Lobby.Lobby.LeaveRoom | back/src/services/gameService.js:174-213 | performs `leaveRoom` with the pre-decrement count test, reaching `LeaveRoomOn`, and keeps `Consistent` |
| Lobby.Lobby.DeleteRoom | back/src/services/gameService.js:218-247 | performs `deleteRoom`, reaching `DeleteRoomOn`, and keeps `Consistent` |

## Left out

- **WebSocket transport.** The server setup, `JSON.parse`/`stringify`, `send`,
  `broadcastToRoom`/`broadcastToAll` and the error replies for a thrown exception are left
  out. Broadcasts are returned as an event list with their audience. Delivery only to
  open sockets is not modelled.
- **Clocks and randomness.** `Date.now()` and `Math.random()` are parameters (`now`, the
  projectile id). The `setInterval` timer is not modelled; `TickAll` is one firing of it.
- **Floating point.** Coordinates and hp are mathematical reals, so rounding in the
  JavaScript doubles is not modelled.
- **Trigonometry and square roots.** `Math.atan2`/`cos`/`sin` become a given velocity at
  projectile speed (`AtSpeed`). `Math.sqrt` becomes the `IsSqrt` oracle or a given
  `IsDistance` value.
- **Database calls inside the socket handlers.** These are `Room.findByPk`,
  `RoomParticipant.findOrCreate`/`destroy`/`count`, `room.update` and `Room.destroy`. The
  row the handler reads is an input (`db`). The writes are not modelled in the handlers;
  the lobby module models those tables on their own.
- **The close handler.** When the connection has both a `userId` and a `roomId`, it calls
  `handleDisconnect`, which is never defined, so it throws (websocket.js:388). Otherwise it
  only drops the `playerSockets` entry when a `userId` is set (websocket.js:391-393). The
  room cleanup after that (websocket.js:396-415) has the same guard as the throwing call,
  so it never runs.
- **The auth handler.** It verifies a token, sets the connection's `userId` and records
  the socket in `playerSockets` (websocket.js:426-440). The model takes `userId` as an
  input.
- **`playerSockets`.** This map from user id to socket (websocket.js:39) is written by the
  auth and close handlers and never read, so no behaviour depends on it.
- **async/await interleaving.** Each handler runs as one sequential step.
- **Other parts of the repository.** The front end, the HTTP controllers and routes, the
  auth middleware and the Sequelize model declarations carry no engine logic.
- **Elided service bodies.** The bodies of `createRoom`, `getRoomList` and
  `getGameRecord` are elided in the repository, so there is nothing to model. A room
  therefore enters the lobby model only through the `Lobby` constructor's initial tables.
- **Player identity.** Player records are values, so aliasing of a JavaScript player
  object is not modelled. `getPlayer` is a map lookup.
- DuelRoom.GameState.RemovePlayer: requires that no projectile of the leaving player is in
  flight. That holds at every call site: outside play there are no projectiles, and
  during play `Leave` removes only a user who is not in the room, who owns none
  (`Owned`).
- DuelRoom.GameState.Tick: keeps hp ≥ 0 only when the clock has not gone backwards for
  any player (`ClockAhead`). Regeneration over a negative interval could lower hp.
- DuelServer.Server.TickAll: states per room only `Ticked`: order, status and the player
  set are kept, a room outside play is unchanged, and hp stays in range. A room left as
  it was also meets `Ticked`; what one tick does to a playing room (`TickOutcome`) is
  stated by `TickRoom`, not carried through the loop. The order in which the rooms'
  events are concatenated is not stated either.
- DuelServer.Server.LeavePrevious: states the reply of the nested leave and what became
  of the previous room (`LeftRoom`), not the `playerLeft` notice that leave broadcasts;
  the notice is `Leave`'s contract.
- DuelServer.Server.Dispatch: states only the routing: no room means no effect. The
  per-command effects are the contracts of the room's `Move`, `Attack`, `Flash` and
  `Ghost`.
- Lobby.WithoutRow: removes every row equal to the given pair, where `destroy` removes
  the one row found. Under the unique index these are the same.
- Lobby.InRoom: returns the rows in table order, the order in which `findAll` is assumed
  to return them. The loser choice depends on that order only when the winner is not a
  participant.
