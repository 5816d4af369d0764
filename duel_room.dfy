/** One duel room (GameState): its players in join order, the projectiles
    in flight and the room status, with the in-room command handlers
    (start, move, attack, flash, ghost), the 50 ms tick body and the
    projectile pass. Every handler is a guard followed by an in-place update
    of one player record, the projectile list or the status; each method's
    postcondition gives the new state, and Valid() is the invariant all of
    them keep: at most two players, every record sane, and every projectile
    in flight fired by a player still in the room at full projectile speed. */
module DuelRoom {
  import opened Common
  import opened DuelRules
  import opened DuelPass

  /** Why a command was refused: one per failure message of the handlers. */
  datatype Refusal =
    | NotAuthenticated | RoomNotFound | GameInProgress | RoomFull
    | NotHost | StateNotFound | AlreadyStarted | NeedTwoPlayers | NotAllConnected
    | LeaveWhilePlaying | OnCooldownOrDead | OnCooldown | BadFlashDistance

  /** What a handler sends back on the caller's own socket. */
  datatype Reply =
    | NoReply
    | Refused(reason: Refusal)
    | Accepted
    | AttackAccepted(x: real, y: real)
    | FlashAccepted(x: real, y: real)
    | GhostAccepted(newSpeed: real)
    | Joined(players: seq<RosterEntry>, reconnected: bool)

  predicate Distinct(s: seq<UserId>) {
    forall a, b :: 0 <= a < b < |s| ==> s[a] != s[b]
  }

  /** `order` lists every key of `ps` exactly once: the insertion order in
      which a JavaScript Map iterates its entries. */
  predicate Lists(order: seq<UserId>, ps: map<UserId, Player>) {
    && Covers(order, ps)
    && (forall id :: id in ps ==> id in order)
    && Distinct(order)
  }

  /** players.size is the length of the iteration order. */
  lemma {:induction false} ListsSize(order: seq<UserId>, ps: map<UserId, Player>)
    requires Lists(order, ps)
    ensures |ps| == |order|
    decreases |order|
  {
    if order == [] {
      assert ps.Keys == {};
    } else {
      var n := |order| - 1;
      var rest := ps - {order[n]};
      assert forall k :: 0 <= k < n ==> order[..n][k] == order[k];
      assert Lists(order[..n], rest);
      ListsSize(order[..n], rest);
      assert rest.Keys == ps.Keys - {order[n]};
    }
  }

  /** Map.delete on the iteration order. */
  function Without(s: seq<UserId>, id: UserId): (r: seq<UserId>)
    ensures forall x :: x in r <==> x in s && x != id
    ensures Distinct(s) ==> Distinct(r)
    ensures |r| <= |s|
    decreases |s|
  {
    if s == [] then []
    else
      var n := |s| - 1;
      assert forall k :: 0 <= k < n ==> s[..n][k] == s[k];
      assert Distinct(s) ==> s[n] !in s[..n];
      Without(s[..n], id) + (if s[n] == id then [] else [s[n]])
  }

  /** Array.from(players.entries()).map(...): id, position and hp of every
      player, in join order. */
  function Roster(ps: map<UserId, Player>, order: seq<UserId>): (r: seq<RosterEntry>)
    requires Covers(order, ps)
    ensures |r| == |order|
    ensures forall k :: 0 <= k < |r| ==>
      r[k] == RosterEntry(order[k], ps[order[k]].x, ps[order[k]].y, ps[order[k]].hp)
  {
    seq(|order|, k requires 0 <= k < |order| => RosterEntry(order[k], ps[order[k]].x, ps[order[k]].y, ps[order[k]].hp))
  }

  /** createProjectile derives the velocity from cos/sin of the aim angle,
      so it always has length PROJECTILE_SPEED. */
  predicate AtSpeed(vx: real, vy: real) {
    vx * vx + vy * vy == Q_PROJECTILE_SPEED * Q_PROJECTILE_SPEED
  }

  /** Every projectile was fired by a player in `ps`, at full speed. */
  predicate Owned(projs: seq<Projectile>, ps: map<UserId, Player>) {
    forall k :: 0 <= k < |projs| ==> projs[k].attackerId in ps && AtSpeed(projs[k].vx, projs[k].vy)
  }

  predicate AllOpen(ps: map<UserId, Player>) {
    forall id :: id in ps ==> ps[id].socket.open
  }

  /** What handleStart does to each player record: alive, no ghost, no
      slow, nothing on cooldown and the regeneration clock restarted. */
  function Reset(p: Player, now: int): (q: Player)
    ensures !q.isDead && !q.isGhost && q.slowPercent == 0.0 && q.cooldowns == NoCooldowns
    ensures q.hp == p.hp && q.x == p.x && q.y == p.y && q.targetX == p.targetX && q.targetY == p.targetY
    ensures Sane(p) ==> Sane(q)
    ensures HpInRange(p) ==> HpInRange(q)
  {
    p.(lastUpdateTime := now, isDead := false, isGhost := false, ghostEndTime := 0,
       slowEndTime := 0, slowPercent := 0.0, cooldowns := NoCooldowns)
  }

  // ---------------------------------------------------------------------
  // The player half of the tick (players.forEach in the setInterval body)
  // ---------------------------------------------------------------------

  /** One player in the tick: regeneration and effect expiry, then a 50 ms
      movement step with the distance Math.sqrt gives. */
  function TickedPlayer(p: Player, now: int, sqrt: real -> real): (r: (Player, bool))
    requires IsSqrt(sqrt)
  {
    var q := UpdatePlayerHP(p, now);
    DistSqNonNegative(q.x, q.y, q.targetX, q.targetY);
    Step(q, TICK_SECONDS, sqrt(DistToTargetSq(q)))
  }

  /** What the player loop of the tick carries: the players, the
      `positionUpdates` array and the coolTime messages sent so far. */
  datatype TickPass = TickPass(players: map<UserId, Player>, moves: seq<PositionEntry>, sent: seq<Outbound>)

  /** The player loop over `ids` in order; players whose socket is not open
      are skipped. */
  function TickPlayers(ps: map<UserId, Player>, ids: seq<UserId>, now: int, sqrt: real -> real): (r: TickPass)
    requires IsSqrt(sqrt) && Covers(ids, ps)
    ensures r.players.Keys == ps.Keys
    ensures |r.moves| <= |ids| && |r.sent| <= |ids|
    decreases |ids|
  {
    if ids == [] then TickPass(ps, [], [])
    else
      var n := |ids| - 1;
      var prev := TickPlayers(ps, ids[..n], now, sqrt);
      var id := ids[n];
      var p := prev.players[id];
      if !p.socket.open then prev
      else
        var t := TickedPlayer(p, now, sqrt);
        var q := t.0;
        TickPass(prev.players[id := q],
                 prev.moves + (if t.1 then [PositionEntry(id, q.x, q.y)] else []),
                 prev.sent + [Outbound(OnlyTo(id), CoolTimeOf(q.cooldowns, now))])
  }

  /** Reference definition of the player loop: with every player listed
      once, each one with an open socket ends up as TickedPlayer makes it,
      every other one is untouched. */
  lemma {:induction false} TickPlayersPointwise(ps: map<UserId, Player>, ids: seq<UserId>, now: int,
                                                sqrt: real -> real, id: UserId)
    requires IsSqrt(sqrt) && Covers(ids, ps) && Distinct(ids) && id in ps
    ensures TickPlayers(ps, ids, now, sqrt).players[id] ==
      if id in ids && ps[id].socket.open then TickedPlayer(ps[id], now, sqrt).0 else ps[id]
    decreases |ids|
  {
    if ids != [] {
      var n := |ids| - 1;
      assert forall k :: 0 <= k < n ==> ids[..n][k] == ids[k];
      TickPlayersPointwise(ps, ids[..n], now, sqrt, id);
      if ids[n] != id {
        assert id in ids[..n] <==> id in ids;
      } else {
        assert id !in ids[..n];
        TickPlayersPointwise(ps, ids[..n], now, sqrt, ids[n]);
      }
    }
  }

  /** A ticked player stays sane; with a clock that has not gone back,
      HP stays within 0..maxHp. */
  lemma TickedPlayerKeepsHp(p: Player, now: int, sqrt: real -> real)
    requires IsSqrt(sqrt) && Sane(p)
    ensures Sane(TickedPlayer(p, now, sqrt).0)
    ensures HpInRange(p) && p.lastUpdateTime <= now ==> HpInRange(TickedPlayer(p, now, sqrt).0)
  {
  }

  lemma {:induction false} TickPlayersKeepHp(ps: map<UserId, Player>, ids: seq<UserId>, now: int, sqrt: real -> real)
    requires IsSqrt(sqrt) && Covers(ids, ps) && AllSane(ps)
    ensures AllSane(TickPlayers(ps, ids, now, sqrt).players)
    ensures AllHpInRange(ps) && ClockAheadOf(ps, now) ==> AllHpInRange(TickPlayers(ps, ids, now, sqrt).players)
    ensures ClockAheadOf(ps, now) ==> ClockAheadOf(TickPlayers(ps, ids, now, sqrt).players, now)
    decreases |ids|
  {
    if ids != [] {
      var n := |ids| - 1;
      TickPlayersKeepHp(ps, ids[..n], now, sqrt);
      var prev := TickPlayers(ps, ids[..n], now, sqrt);
      TickedPlayerKeepsHp(prev.players[ids[n]], now, sqrt);
    }
  }

  /** What one tick makes of a playing room, on values. */
  datatype RoomTick = RoomTick(players: map<UserId, Player>, projectiles: seq<Projectile>, events: seq<Outbound>)

  /** The tick body for one playing room: the player loop, the
      `positionUpdate` broadcast when someone moved, then the projectile
      pass. */
  function TickOutcome(ps: map<UserId, Player>, order: seq<UserId>, projs: seq<Projectile>,
                       now: int, sqrt: real -> real, roomId: RoomId): (r: RoomTick)
    requires IsSqrt(sqrt) && Covers(order, ps)
    ensures r.players.Keys == ps.Keys
  {
    var t := TickPlayers(ps, order, now, sqrt);
    assert Covers(order, t.players);
    var pass := Sweep(t.players, order, projs, now, roomId);
    RoomTick(pass.players, Keep(AdvancedAll(projs, now), pass.toRemove),
             t.sent + (if t.moves == [] then [] else [Outbound(Everyone, PositionUpdate(t.moves))]) + pass.events)
  }

  /** What the projectile pass leaves, on values: the reverse splice keeps
      the unqueued projectiles in order, and the room invariant survives. */
  lemma PassOutcome(ps: map<UserId, Player>, order: seq<UserId>, projs: seq<Projectile>, now: int, roomId: RoomId)
    requires Lists(order, ps) && |order| <= 2 && AllSane(ps) && Owned(projs, ps)
    ensures var r := Sweep(ps, order, projs, now, roomId);
      var left := Keep(AdvancedAll(projs, now), r.toRemove);
      && SpliceAll(AdvancedAll(projs, now), r.toRemove) == left
      && r.players.Keys == ps.Keys
      && AllSane(r.players)
      && (AllHpInRange(ps) ==> AllHpInRange(r.players))
      && (forall t :: ClockAheadOf(ps, t) ==> ClockAheadOf(r.players, t))
      && Owned(left, r.players)
  {
    var r := Sweep(ps, order, projs, now, roomId);
    var advanced := AdvancedAll(projs, now);
    forall a | a in order ensures Others(order, a) <= 1 {
      OneOpponent(order, a);
    }
    SweepQueueIncreasing(ps, order, projs, now, roomId);
    SpliceAllIsKeep(advanced, r.toRemove);
    SweepKeepsHp(ps, order, projs, now, roomId);
    var left := Keep(advanced, r.toRemove);
    forall k | 0 <= k < |left| ensures left[k].attackerId in r.players && AtSpeed(left[k].vx, left[k].vy) {
      assert left[k] in advanced;
      var m :| 0 <= m < |advanced| && advanced[m] == left[k];
    }
  }

  class GameState {
    const roomId: RoomId
    var players: map<UserId, Player>
    /** The order in which `players` iterates (Map insertion order). */
    var order: seq<UserId>
    var projectiles: seq<Projectile>
    var status: Status

    ghost predicate Valid()
      reads this
    {
      && Lists(order, players)
      && |order| <= 2
      && AllSane(players)
      && (status != Playing ==> projectiles == [])
      && Owned(projectiles, players)
    }

    /** 0 <= hp <= maxHp for everyone. Regeneration keeps it only while the
        clock does not go back, so it is kept apart from Valid(). */
    ghost predicate HpNonNegative()
      reads this
    {
      AllHpInRange(players)
    }

    ghost predicate ClockAhead(now: int)
      reads this
    {
      ClockAheadOf(players, now)
    }

    constructor (roomId: RoomId)
      ensures Valid() && HpNonNegative()
      ensures this.roomId == roomId && players == map[] && order == [] && projectiles == [] && status == Waiting
    {
      this.roomId := roomId;
      players := map[];
      order := [];
      projectiles := [];
      status := Waiting;
    }

    /** GameState.addPlayer: the first player takes the left slot, the
        second the right one. */
    method AddPlayer(userId: UserId, socket: Session, now: int) returns (p: Player)
      requires Valid() && userId !in players && |players| < 2
      modifies this
      ensures Valid()
      ensures old(HpNonNegative()) ==> HpNonNegative()
      ensures p == Spawn(|old(players)| > 0, socket, now)
      ensures players == old(players)[userId := p] && order == old(order) + [userId]
      ensures projectiles == old(projectiles) && status == old(status)
    {
      ListsSize(order, players);
      p := Spawn(|players| > 0, socket, now);
      players := players[userId := p];
      order := order + [userId];
    }

    /** GameState.removePlayer (Map.delete). */
    method RemovePlayer(userId: UserId)
      requires Valid()
      requires forall k :: 0 <= k < |projectiles| ==> projectiles[k].attackerId != userId
      modifies this
      ensures Valid()
      ensures old(HpNonNegative()) ==> HpNonNegative()
      ensures players == old(players) - {userId} && order == Without(old(order), userId)
      ensures projectiles == old(projectiles) && status == old(status)
    {
      var kept := Without(order, userId);
      assert forall k :: 0 <= k < |kept| ==> kept[k] in kept;
      players := players - {userId};
      order := kept;
    }

    /** The reconnect branch of handleJoin: only the socket changes. */
    method Rebind(userId: UserId, socket: Session)
      requires Valid() && userId in players
      modifies this
      ensures Valid()
      ensures old(HpNonNegative()) ==> HpNonNegative()
      ensures players == old(players)[userId := old(players[userId]).(socket := socket)]
      ensures order == old(order) && projectiles == old(projectiles) && status == old(status)
    {
      players := players[userId := players[userId].(socket := socket)];
    }

    /** Steps 4 to 9 of handleStart (the room lookup and the host check are
        the server's). */
    method Start(now: int) returns (reply: Reply, events: seq<Outbound>)
      requires Valid()
      modifies this
      ensures Valid()
      ensures players.Keys == old(players).Keys
      ensures old(HpNonNegative()) ==> HpNonNegative()
      ensures old(status) != Waiting ==> unchanged(this) && reply == Refused(AlreadyStarted) && events == []
      ensures old(status) == Waiting && |old(players)| < 2 ==>
        unchanged(this) && reply == Refused(NeedTwoPlayers) && events == []
      ensures old(status) == Waiting && |old(players)| >= 2 && !old(AllOpen(players)) ==>
        unchanged(this) && reply == Refused(NotAllConnected) && events == []
      ensures reply == Accepted <==> old(status) == Waiting && |old(players)| >= 2 && old(AllOpen(players))
      ensures reply == Accepted ==>
        && status == Playing && order == old(order) && projectiles == old(projectiles)
        && players.Keys == old(players).Keys
        && (forall id :: id in players ==> players[id] == Reset(old(players[id]), now))
        && events == [Outbound(Everyone, GameStarted(Roster(old(players), order)))]
        && ClockAhead(now)
    {
      if status != Waiting {
        return Refused(AlreadyStarted), [];
      }
      ListsSize(order, players);
      if |order| < 2 {
        return Refused(NeedTwoPlayers), [];
      }
      var allConnected := AllConnected();
      if !allConnected {
        return Refused(NotAllConnected), [];
      }
      status := Playing;
      ghost var before := players;
      ResetPlayers(now);
      assert Roster(before, order) == Roster(players, order);
      reply := Accepted;
      events := [Outbound(Everyone, GameStarted(Roster(players, order)))];
    }

    /** The `allConnected` loop of handleStart. */
    method AllConnected() returns (allConnected: bool)
      requires Valid()
      ensures allConnected <==> AllOpen(players)
    {
      allConnected := true;
      var i := 0;
      while i < |order|
        invariant 0 <= i <= |order|
        invariant allConnected <==> forall k :: 0 <= k < i ==> players[order[k]].socket.open
      {
        if !players[order[i]].socket.open {
          allConnected := false;
        }
        i := i + 1;
      }
    }

    /** The reset loop of handleStart over every player. */
    method ResetPlayers(now: int)
      requires Valid()
      modifies this
      ensures Valid() && ClockAhead(now)
      ensures old(HpNonNegative()) ==> HpNonNegative()
      ensures players.Keys == old(players).Keys
      ensures forall id :: id in players ==> players[id] == Reset(old(players[id]), now)
      ensures order == old(order) && projectiles == old(projectiles) && status == old(status)
    {
      var j := 0;
      while j < |order|
        invariant 0 <= j <= |order|
        invariant order == old(order) && projectiles == old(projectiles) && status == old(status)
        invariant players.Keys == old(players).Keys
        invariant forall id :: id in players ==>
          players[id] == if id in order[..j] then Reset(old(players[id]), now) else old(players[id])
      {
        var id := order[j];
        assert order[..j + 1] == order[..j] + [id];
        assert id !in order[..j];
        players := players[id := Reset(players[id], now)];
        j := j + 1;
      }
      assert order[..j] == order;
    }

    /** handleMove: only a target is set; it is not clamped to the map. */
    method Move(userId: UserId, x: real, y: real) returns (reply: Reply, events: seq<Outbound>)
      requires Valid()
      modifies this
      ensures Valid()
      ensures players.Keys == old(players).Keys
      ensures old(HpNonNegative()) ==> HpNonNegative()
      ensures old(status) != Playing || userId !in old(players) || old(players[userId]).isDead ==>
        unchanged(this) && reply == NoReply && events == []
      ensures old(status) == Playing && userId in old(players) && !old(players[userId]).isDead ==>
        && players == old(players)[userId := old(players[userId]).(targetX := x, targetY := y)]
        && order == old(order) && projectiles == old(projectiles) && status == old(status)
        && reply == Accepted
        && events == [Outbound(EveryoneBut(userId), PlayerMoveTarget(userId, x, y))]
    {
      if status != Playing || userId !in players || players[userId].isDead {
        return NoReply, [];
      }
      players := players[userId := players[userId].(targetX := x, targetY := y)];
      reply := Accepted;
      events := [Outbound(EveryoneBut(userId), PlayerMoveTarget(userId, x, y))];
    }

    /** handleAttack: pay 50 hp; at 0 hp the attacker dies (self-elimination,
        with no cooldown and no projectile), otherwise the cooldown starts and
        one projectile is fired from where the attacker stands. The aim point
        only reaches the messages; (vx, vy) is the velocity aimed at it. */
    method Attack(userId: UserId, aimX: real, aimY: real, vx: real, vy: real, projId: nat, now: int)
      returns (reply: Reply, events: seq<Outbound>)
      requires Valid() && AtSpeed(vx, vy)
      modifies this
      ensures Valid()
      ensures old(HpNonNegative()) ==> HpNonNegative()
      ensures order == old(order) && status == old(status) && players.Keys == old(players).Keys
      ensures old(status) != Playing ==> unchanged(this) && reply == NoReply && events == []
      ensures old(status) == Playing &&
              (userId !in old(players) || old(players[userId]).isDead || old(players[userId]).cooldowns.attack > now) ==>
        unchanged(this) && reply == Refused(OnCooldownOrDead) && events == []
      ensures old(status) == Playing && userId in old(players) && !old(players[userId]).isDead &&
              old(players[userId]).cooldowns.attack <= now ==>
        var a := old(players[userId]);
        if a.hp - Q_HP_COST <= 0.0 then
          && players == old(players)[userId := a.(hp := 0.0, isDead := true)]
          && projectiles == old(projectiles)
          && reply == NoReply
          && events == [Outbound(Everyone, Finish(Suicide, roomId))]
        else
          var c := a.cooldowns.(attack := now + Q_COOLDOWN);
          && players == old(players)[userId := a.(hp := a.hp - Q_HP_COST, cooldowns := c)]
          && projectiles == old(projectiles) + [NewProjectile(projId, userId, a.x, a.y, vx, vy, now)]
          && reply == AttackAccepted(aimX, aimY)
          && events == [Outbound(Everyone, AttackCast(userId, aimX, aimY, a.x, a.y)),
                        Outbound(OnlyTo(userId), CoolTimeOf(c, now))]
    {
      if status != Playing {
        return NoReply, [];
      }
      if userId !in players || players[userId].isDead || players[userId].cooldowns.attack > now {
        return Refused(OnCooldownOrDead), [];
      }
      var a := players[userId];
      a := a.(hp := a.hp - Q_HP_COST);
      if a.hp <= 0.0 {
        players := players[userId := a.(hp := 0.0, isDead := true)];
        return NoReply, [Outbound(Everyone, Finish(Suicide, roomId))];
      }
      a := a.(cooldowns := a.cooldowns.(attack := now + Q_COOLDOWN));
      players := players[userId := a];
      var projectile := NewProjectile(projId, userId, a.x, a.y, vx, vy, now);
      projectiles := projectiles + [projectile];
      events := [Outbound(Everyone, AttackCast(userId, aimX, aimY, a.x, a.y)),
                 Outbound(OnlyTo(userId), CoolTimeOf(a.cooldowns, now))];
      reply := AttackAccepted(aimX, aimY);
    }

    /** handleFlash: a jump to a point between 100 and 400 away (compared on
        squares, see FlashInRangeIffWindow). */
    method Flash(userId: UserId, x: real, y: real, now: int) returns (reply: Reply, events: seq<Outbound>)
      requires Valid()
      modifies this
      ensures Valid()
      ensures players.Keys == old(players).Keys
      ensures old(HpNonNegative()) ==> HpNonNegative()
      ensures old(status) != Playing ==> unchanged(this) && reply == NoReply && events == []
      ensures old(status) == Playing &&
              (userId !in old(players) || old(players[userId]).isDead || old(players[userId]).cooldowns.flash > now) ==>
        unchanged(this) && reply == Refused(OnCooldown) && events == []
      ensures old(status) == Playing && userId in old(players) && !old(players[userId]).isDead &&
              old(players[userId]).cooldowns.flash <= now ==>
        var p := old(players[userId]);
        if !FlashInRange(p.x, p.y, x, y) then
          unchanged(this) && reply == Refused(BadFlashDistance) && events == []
        else
          var c := p.cooldowns.(flash := now + FLASH_COOLDOWN);
          && players == old(players)[userId := p.(x := x, y := y, targetX := x, targetY := y, cooldowns := c)]
          && order == old(order) && projectiles == old(projectiles) && status == old(status)
          && reply == FlashAccepted(x, y)
          && events == [Outbound(Everyone, PlayerFlashed(userId, x, y)), Outbound(OnlyTo(userId), CoolTimeOf(c, now))]
    {
      if status != Playing {
        return NoReply, [];
      }
      if userId !in players || players[userId].isDead || players[userId].cooldowns.flash > now {
        return Refused(OnCooldown), [];
      }
      var p := players[userId];
      if !FlashInRange(p.x, p.y, x, y) {
        return Refused(BadFlashDistance), [];
      }
      p := p.(x := x, y := y, targetX := x, targetY := y, cooldowns := p.cooldowns.(flash := now + FLASH_COOLDOWN));
      players := players[userId := p];
      events := [Outbound(Everyone, PlayerFlashed(userId, x, y)), Outbound(OnlyTo(userId), CoolTimeOf(p.cooldowns, now))];
      reply := FlashAccepted(x, y);
    }

    /** handleGhost: 24% faster for 10 s, 15 s cooldown; the reply carries
        the new effective speed. */
    method Ghost(userId: UserId, now: int) returns (reply: Reply, events: seq<Outbound>)
      requires Valid()
      modifies this
      ensures Valid()
      ensures players.Keys == old(players).Keys
      ensures old(HpNonNegative()) ==> HpNonNegative()
      ensures old(status) != Playing ==> unchanged(this) && reply == NoReply && events == []
      ensures old(status) == Playing &&
              (userId !in old(players) || old(players[userId]).isDead || old(players[userId]).cooldowns.ghostSpell > now) ==>
        unchanged(this) && reply == Refused(OnCooldown) && events == []
      ensures old(status) == Playing && userId in old(players) && !old(players[userId]).isDead &&
              old(players[userId]).cooldowns.ghostSpell <= now ==>
        var p := old(players[userId]);
        var c := p.cooldowns.(ghostSpell := now + GHOST_COOLDOWN);
        && players == old(players)[userId := p.(isGhost := true, ghostEndTime := now + GHOST_DURATION, cooldowns := c)]
        && order == old(order) && projectiles == old(projectiles) && status == old(status)
        && reply == GhostAccepted(BASE_MOVE_SPEED * (1.0 + GHOST_SPEED_BONUS) * (1.0 - p.slowPercent))
        && events == [Outbound(Everyone, GhostActivated(userId)), Outbound(OnlyTo(userId), CoolTimeOf(c, now))]
    {
      if status != Playing {
        return NoReply, [];
      }
      if userId !in players || players[userId].isDead || players[userId].cooldowns.ghostSpell > now {
        return Refused(OnCooldown), [];
      }
      var p := players[userId];
      p := p.(isGhost := true, ghostEndTime := now + GHOST_DURATION,
              cooldowns := p.cooldowns.(ghostSpell := now + GHOST_COOLDOWN));
      players := players[userId := p];
      var newSpeed := CurrentMoveSpeed(p);
      events := [Outbound(Everyone, GhostActivated(userId)), Outbound(OnlyTo(userId), CoolTimeOf(p.cooldowns, now))];
      reply := GhostAccepted(newSpeed);
    }

    /** updateProjectiles: every projectile is moved to where its flight puts
        it at `now`, the hit pass runs, and the queued indices are spliced
        out from the last to the first; what is left is exactly the
        projectiles not queued, in their original order. */
    method UpdateProjectiles(now: int) returns (events: seq<Outbound>)
      requires Valid()
      modifies this
      ensures Valid()
      ensures old(HpNonNegative()) ==> HpNonNegative()
      ensures old(ClockAhead(now)) ==> ClockAhead(now)
      ensures order == old(order) && status == old(status)
      ensures old(status) != Playing ==> unchanged(this) && events == []
      ensures old(status) == Playing ==>
        var r := Sweep(old(players), order, old(projectiles), now, roomId);
        && players == r.players
        && events == r.events
        && projectiles == Keep(AdvancedAll(old(projectiles), now), r.toRemove)
    {
      if status != Playing {
        return [];
      }
      ghost var ps0, projs := players, projectiles;
      var toRemove;
      toRemove, events := SweepProjectiles(now);
      SpliceQueued(toRemove);
      PassOutcome(ps0, order, projs, now, roomId);
    }

    /** The `projectiles.forEach` of updateProjectiles: positions are
        rewritten in place, hits change the players, removal is queued. */
    method SweepProjectiles(now: int) returns (toRemove: seq<nat>, events: seq<Outbound>)
      requires Valid()
      modifies this
      ensures order == old(order) && status == old(status)
      ensures projectiles == AdvancedAll(old(projectiles), now)
      ensures Pass(players, toRemove, events) == Sweep(old(players), order, old(projectiles), now, roomId)
    {
      ghost var ps0 := players;
      var projs := projectiles;
      toRemove, events := [], [];
      var i := 0;
      while i < |projs|
        invariant 0 <= i <= |projs|
        invariant order == old(order) && status == old(status)
        invariant Pass(players, toRemove, events) == Sweep(ps0, order, projs[..i], now, roomId)
        invariant Covers(order, players)
        invariant |projectiles| == |projs|
        invariant forall k :: 0 <= k < |projs| ==> projectiles[k] == if k < i then Advanced(projs[k], now) else projs[k]
      {
        assert projs[..i + 1][..i] == projs[..i] && projs[..i + 1][i] == projs[i];
        SweepLast(ps0, order, projs[..i + 1], now, roomId);
        var p := Advanced(projs[i], now);
        toRemove, events := SweepOne(i, p, now, toRemove, events);
        projectiles := projectiles[i := p];
        i := i + 1;
      }
      assert projs[..i] == projs;
    }

    /** One iteration of the projectile loop, after the position update:
        queue a projectile past its range, else run the hit test. */
    method SweepOne(i: nat, p: Projectile, now: int, toRemove0: seq<nat>, events0: seq<Outbound>)
      returns (toRemove: seq<nat>, events: seq<Outbound>)
      requires Covers(order, players)
      modifies this
      ensures order == old(order) && status == old(status) && projectiles == old(projectiles)
      ensures Covers(order, players)
      ensures var st := Pass(old(players), toRemove0, events0);
        Pass(players, toRemove, events) ==
          if OutOfRange(p) then st.(toRemove := st.toRemove + [i]) else VisitTargets(st, order, i, p, now, roomId)
    {
      if OutOfRange(p) {
        toRemove, events := toRemove0 + [i], events0;
      } else {
        toRemove, events := TestTargets(i, p, now, toRemove0, events0);
      }
    }

    /** The `players.forEach` hit test of projectile `i`. */
    method TestTargets(i: nat, p: Projectile, now: int, toRemove0: seq<nat>, events0: seq<Outbound>)
      returns (toRemove: seq<nat>, events: seq<Outbound>)
      requires Covers(order, players)
      modifies this
      ensures order == old(order) && status == old(status) && projectiles == old(projectiles)
      ensures Covers(order, players)
      ensures Pass(players, toRemove, events) == VisitTargets(Pass(old(players), toRemove0, events0), order, i, p, now, roomId)
    {
      var st := Pass(players, toRemove0, events0);
      var cur := st;
      var j := 0;
      while j < |order|
        invariant 0 <= j <= |order|
        invariant Covers(order, st.players) && Covers(order, cur.players)
        invariant cur == VisitTargets(st, order[..j], i, p, now, roomId)
        modifies {}
      {
        assert order[..j + 1][..j] == order[..j] && order[..j + 1][j] == order[j];
        VisitTargetsLast(st, order[..j + 1], i, p, now, roomId);
        cur := VisitTarget(cur, order[j], i, p, now, roomId);
        j := j + 1;
      }
      assert order[..j] == order;
      players, toRemove, events := cur.players, cur.toRemove, cur.events;
    }

    /** `for (i = toRemove.length - 1; i >= 0; i--) projectiles.splice(toRemove[i], 1)`. */
    method SpliceQueued(toRemove: seq<nat>)
      modifies this
      ensures projectiles == SpliceAll(old(projectiles), toRemove)
      ensures players == old(players) && order == old(order) && status == old(status)
    {
      var k := |toRemove|;
      assert toRemove[..k] == toRemove;
      while k > 0
        invariant 0 <= k <= |toRemove|
        invariant players == old(players) && order == old(order) && status == old(status)
        invariant SpliceAll(projectiles, toRemove[..k]) == SpliceAll(old(projectiles), toRemove)
      {
        assert toRemove[..k][..k - 1] == toRemove[..k - 1];
        k := k - 1;
        projectiles := Splice(projectiles, toRemove[k]);
      }
    }

    /** The body of the 50 ms interval for this room: each connected player
        regenerates and steps toward its target and is sent its cooldowns;
        the players that moved are broadcast; then the projectile pass. */
    method Tick(now: int, sqrt: real -> real) returns (events: seq<Outbound>)
      requires Valid() && IsSqrt(sqrt)
      modifies this
      ensures Valid()
      ensures old(HpNonNegative()) && old(ClockAhead(now)) ==> HpNonNegative() && ClockAhead(now)
      ensures order == old(order) && status == old(status) && players.Keys == old(players).Keys
      ensures old(status) != Playing ==> unchanged(this) && events == []
      ensures old(status) == Playing ==>
        var r := TickOutcome(old(players), order, old(projectiles), now, sqrt, roomId);
        players == r.players && projectiles == r.projectiles && events == r.events
    {
      if status != Playing {
        return [];
      }
      ghost var ps0 := players;
      var moves: seq<PositionEntry> := [];
      var sent: seq<Outbound> := [];
      var i := 0;
      while i < |order|
        invariant 0 <= i <= |order|
        invariant order == old(order) && status == old(status) && projectiles == old(projectiles)
        invariant TickPass(players, moves, sent) == TickPlayers(ps0, order[..i], now, sqrt)
      {
        assert order[..i + 1][..i] == order[..i];
        var id := order[i];
        var p := players[id];
        if p.socket.open {
          var q := UpdatePlayerHP(p, now);
          DistSqNonNegative(q.x, q.y, q.targetX, q.targetY);
          var stepped := Step(q, TICK_SECONDS, sqrt(DistToTargetSq(q)));
          q := stepped.0;
          players := players[id := q];
          if stepped.1 {
            moves := moves + [PositionEntry(id, q.x, q.y)];
          }
          sent := sent + [Outbound(OnlyTo(id), CoolTimeOf(q.cooldowns, now))];
        }
        i := i + 1;
      }
      assert order[..i] == order;
      TickPlayersKeepHp(ps0, order, now, sqrt);
      events := sent + (if moves == [] then [] else [Outbound(Everyone, PositionUpdate(moves))]);
      var hits := UpdateProjectiles(now);
      events := events + hits;
    }
  }
}
