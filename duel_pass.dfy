/** The projectile and hit pass of one room (updateProjectiles), stated as
    functions over the room's values. The pass walks the projectiles in
    order; each gets its position recomputed, is queued for removal when
    it has travelled past its range, and otherwise is checked against every
    player in the players map's insertion order. A hit on an alive player
    who is not the owner applies damage, slow and heal (only when the owner
    is still in the room) and queues the projectile's index. The queued
    indices are then spliced out from the last one to the first.

    The method in DuelRoom runs the same pass with loops and is proved to
    produce exactly these values. */
module DuelPass {
  import opened Common
  import opened DuelRules

  /** What the projectile loop carries from one step to the next: the
      players map (changed by hits), the `toRemove` list and the broadcasts. */
  datatype Pass = Pass(players: map<UserId, Player>, toRemove: seq<nat>, events: seq<Outbound>)

  predicate Covers(ids: seq<UserId>, ps: map<UserId, Player>) {
    forall k :: 0 <= k < |ids| ==> ids[k] in ps
  }

  /** Same players, standing where they stood: a pass only changes hp,
      slow and liveness. */
  predicate SamePositions(a: map<UserId, Player>, b: map<UserId, Player>) {
    && a.Keys == b.Keys
    && forall id :: id in a ==> b[id].x == a[id].x && b[id].y == a[id].y
  }

  /** `r`'s removal list is `st`'s followed only by copies of `i`. */
  predicate PushedOnly(st: Pass, r: Pass, i: nat) {
    && |st.toRemove| <= |r.toRemove|
    && r.toRemove[..|st.toRemove|] == st.toRemove
    && forall k :: |st.toRemove| <= k < |r.toRemove| ==> r.toRemove[k] == i
  }

  lemma PushedOnlyTrans(a: Pass, b: Pass, c: Pass, i: nat)
    requires PushedOnly(a, b, i) && PushedOnly(b, c, i)
    ensures PushedOnly(a, c, i)
  {
    assert c.toRemove[..|a.toRemove|] == c.toRemove[..|b.toRemove|][..|a.toRemove|];
  }

  /** How many entries of `ids` are not `a`: the players a projectile owned
      by `a` can be checked against. */
  function Others(ids: seq<UserId>, a: UserId): nat
    decreases |ids|
  {
    if ids == [] then 0
    else Others(ids[..|ids| - 1], a) + (if ids[|ids| - 1] == a then 0 else 1)
  }

  /** With at most two players in the room and the owner among them, a
      projectile has at most one possible target. */
  lemma OneOpponent(ids: seq<UserId>, a: UserId)
    requires |ids| <= 2 && a in ids
    requires forall j, k :: 0 <= j < k < |ids| ==> ids[j] != ids[k]
    ensures Others(ids, a) <= 1
  {
    if |ids| == 2 {
      assert ids[..1][..0] == [];
      assert Others(ids[..1], a) == (if ids[0] == a then 0 else 1);
    } else {
      assert ids[..0] == [];
    }
  }

  /** Projectile `proj` strikes player `id`: not its owner, alive, and
      closer than the hit radius. */
  predicate Strikes(ps: map<UserId, Player>, id: UserId, proj: Projectile)
    requires id in ps
  {
    id != proj.attackerId && !ps[id].isDead && Collides(proj.x, proj.y, ps[id].x, ps[id].y)
  }

  /** One target inside `players.forEach` of the hit test. */
  function VisitTarget(st: Pass, id: UserId, i: nat, proj: Projectile, now: int, roomId: RoomId): (r: Pass)
    requires id in st.players
    ensures SamePositions(st.players, r.players)
    ensures PushedOnly(st, r, i)
    ensures |r.toRemove| <= |st.toRemove| + (if id == proj.attackerId then 0 else 1)
    ensures forall x :: x in st.players && x != id && x != proj.attackerId ==> r.players[x] == st.players[x]
    ensures !Strikes(st.players, id, proj) ==> r == st
    ensures Strikes(st.players, id, proj) && proj.attackerId !in st.players ==>
      r == st.(toRemove := st.toRemove + [i])
    ensures Strikes(st.players, id, proj) && proj.attackerId in st.players ==>
      var t, a := st.players[id], st.players[proj.attackerId];
      var damage := Damage(a.hp);
      && r.toRemove == st.toRemove + [i]
      && r.players[id].hp == Max(0.0, t.hp - damage)
      && (r.players[id].isDead <==> t.hp - damage <= 0.0)
      && r.players[id].slowPercent == Q_SLOW_PERCENT
      && r.players[id].slowEndTime == now + Q_SLOW_DURATION
      && r.players[proj.attackerId] == a.(hp := Min(a.maxHp, a.hp + Q_HP_COST))
      && r.events == st.events + [Outbound(Everyone, Hit(id, r.players[id].hp, t.x, t.y))] +
                     (if r.players[id].isDead then [Outbound(Everyone, Finish(ByPlayer(proj.attackerId), roomId))] else [])
  {
    var target := st.players[id];
    if !Strikes(st.players, id, proj) then st
    else if proj.attackerId !in st.players then st.(toRemove := st.toRemove + [i])
    else
      var attacker := st.players[proj.attackerId];
      var t := Struck(target, Damage(attacker.hp), now);
      var hit := Outbound(Everyone, Hit(id, t.hp, t.x, t.y));
      var finish := if t.isDead then [Outbound(Everyone, Finish(ByPlayer(proj.attackerId), roomId))] else [];
      Pass(st.players[id := t][proj.attackerId := Healed(attacker)],
           st.toRemove + [i],
           st.events + [hit] + finish)
  }

  /** The whole `players.forEach` for projectile `i`, over `ids` in order. */
  function VisitTargets(st: Pass, ids: seq<UserId>, i: nat, proj: Projectile, now: int, roomId: RoomId): (r: Pass)
    requires Covers(ids, st.players)
    ensures SamePositions(st.players, r.players)
    ensures PushedOnly(st, r, i)
    ensures |r.toRemove| <= |st.toRemove| + Others(ids, proj.attackerId)
    ensures proj.attackerId !in st.players ==> r.players == st.players
    ensures forall x :: x in st.players && x !in ids && x != proj.attackerId ==> r.players[x] == st.players[x]
    ensures |r.toRemove| == |st.toRemove| ==> r == st
    decreases |ids|
  {
    if ids == [] then st
    else
      var prev := VisitTargets(st, ids[..|ids| - 1], i, proj, now, roomId);
      var r := VisitTarget(prev, ids[|ids| - 1], i, proj, now, roomId);
      PushedOnlyTrans(st, prev, r, i);
      r
  }

  /** The `projectiles.forEach` loop over `projs` with the room's player
      order: the state after all of them. */
  function Sweep(ps: map<UserId, Player>, order: seq<UserId>, projs: seq<Projectile>,
                 now: int, roomId: RoomId): (r: Pass)
    requires Covers(order, ps)
    ensures SamePositions(ps, r.players)
    ensures forall k :: 0 <= k < |r.toRemove| ==> r.toRemove[k] < |projs|
    decreases |projs|
  {
    if projs == [] then Pass(ps, [], [])
    else
      var i := |projs| - 1;
      var prev := Sweep(ps, order, projs[..i], now, roomId);
      var p := Advanced(projs[i], now);
      if OutOfRange(p) then prev.(toRemove := prev.toRemove + [i])
      else VisitTargets(prev, order, i, p, now, roomId)
  }

  /** The last step of VisitTargets, spelled out for callers that walk the
      players one at a time. */
  lemma VisitTargetsLast(st: Pass, ids: seq<UserId>, i: nat, proj: Projectile, now: int, roomId: RoomId)
    requires Covers(ids, st.players) && ids != []
    ensures var n := |ids| - 1;
      VisitTargets(st, ids, i, proj, now, roomId) ==
        VisitTarget(VisitTargets(st, ids[..n], i, proj, now, roomId), ids[n], i, proj, now, roomId)
  {
  }

  /** The last step of Sweep, spelled out for callers that walk the
      projectiles one at a time. */
  lemma SweepLast(ps: map<UserId, Player>, order: seq<UserId>, projs: seq<Projectile>, now: int, roomId: RoomId)
    requires Covers(order, ps) && projs != []
    ensures var i := |projs| - 1;
      var prev := Sweep(ps, order, projs[..i], now, roomId);
      var p := Advanced(projs[i], now);
      Sweep(ps, order, projs, now, roomId) ==
        if OutOfRange(p) then prev.(toRemove := prev.toRemove + [i]) else VisitTargets(prev, order, i, p, now, roomId)
  {
  }

  /** Every projectile with its position recomputed for `now`. */
  function AdvancedAll(projs: seq<Projectile>, now: int): (r: seq<Projectile>)
    ensures |r| == |projs|
    ensures forall k :: 0 <= k < |r| ==> r[k] == Advanced(projs[k], now)
  {
    seq(|projs|, k requires 0 <= k < |projs| => Advanced(projs[k], now))
  }

  // ---------------------------------------------------------------------
  // Which projectiles the pass removes
  // ---------------------------------------------------------------------

  predicate Increasing(idx: seq<nat>) {
    forall a, b :: 0 <= a < b < |idx| ==> idx[a] < idx[b]
  }

  /** When no projectile has more than one possible target, every index is
      queued at most once, so the queue is strictly increasing. */
  lemma {:induction false} SweepQueueIncreasing(ps: map<UserId, Player>, order: seq<UserId>,
                                                projs: seq<Projectile>, now: int, roomId: RoomId)
    requires Covers(order, ps)
    requires forall k :: 0 <= k < |projs| ==> Others(order, projs[k].attackerId) <= 1
    ensures Increasing(Sweep(ps, order, projs, now, roomId).toRemove)
    decreases |projs|
  {
    if projs != [] {
      var i := |projs| - 1;
      var prev := Sweep(ps, order, projs[..i], now, roomId);
      var r := Sweep(ps, order, projs, now, roomId);
      assert forall k :: 0 <= k < |projs[..i]| ==> projs[..i][k] == projs[k];
      SweepQueueIncreasing(ps, order, projs[..i], now, roomId);
      SweepStep(ps, order, projs, now, roomId);
      SweepStepGrowth(ps, order, projs, now, roomId);
      if |r.toRemove| == |prev.toRemove| + 1 {
        assert r.toRemove == prev.toRemove + [i];
      } else {
        assert r.toRemove == prev.toRemove;
      }
    }
  }

  /** The queue after the first `n` projectiles is a prefix of the final
      queue, and the entries queued later are all at least `n`: the loop
      only ever appends the index it is at. */
  lemma {:induction false} SweepPrefix(ps: map<UserId, Player>, order: seq<UserId>,
                                       projs: seq<Projectile>, now: int, roomId: RoomId, n: nat)
    requires Covers(order, ps) && n <= |projs|
    ensures var a := Sweep(ps, order, projs[..n], now, roomId).toRemove;
      var b := Sweep(ps, order, projs, now, roomId).toRemove;
      |a| <= |b| && b[..|a|] == a && forall m :: |a| <= m < |b| ==> b[m] >= n
    decreases |projs|
  {
    if n == |projs| {
      assert projs[..n] == projs;
    } else {
      var i := |projs| - 1;
      assert projs[..i][..n] == projs[..n];
      SweepPrefix(ps, order, projs[..i], now, roomId, n);
      var a := Sweep(ps, order, projs[..n], now, roomId).toRemove;
      var prev := Sweep(ps, order, projs[..i], now, roomId);
      var r := Sweep(ps, order, projs, now, roomId);
      SweepStep(ps, order, projs, now, roomId);
      assert r.toRemove[..|a|] == r.toRemove[..|prev.toRemove|][..|a|];
    }
  }

  /** One step of the projectile loop only appends its own index. */
  lemma SweepStep(ps: map<UserId, Player>, order: seq<UserId>, projs: seq<Projectile>, now: int, roomId: RoomId)
    requires Covers(order, ps) && projs != []
    ensures PushedOnly(Sweep(ps, order, projs[..|projs| - 1], now, roomId), Sweep(ps, order, projs, now, roomId), |projs| - 1)
  {
  }

  /** One step of the projectile loop queues its index once when the
      projectile is out of range, else at most once per possible target. */
  lemma SweepStepGrowth(ps: map<UserId, Player>, order: seq<UserId>, projs: seq<Projectile>, now: int, roomId: RoomId)
    requires Covers(order, ps) && projs != []
    ensures |Sweep(ps, order, projs, now, roomId).toRemove| <= |Sweep(ps, order, projs[..|projs| - 1], now, roomId).toRemove| +
      (if OutOfRange(Advanced(projs[|projs| - 1], now)) then 1 else Others(order, projs[|projs| - 1].attackerId))
  {
    assert Advanced(projs[|projs| - 1], now).attackerId == projs[|projs| - 1].attackerId;
  }

  lemma PrefixMember(a: seq<nat>, b: seq<nat>, x: nat)
    requires |a| <= |b| && b[..|a|] == a && x in a
    ensures x in b
  {
    var m :| 0 <= m < |a| && a[m] == x;
    assert b[m] == x;
  }

  /** A projectile past its range is always queued for removal. */
  lemma SweepQueuesOutOfRange(ps: map<UserId, Player>, order: seq<UserId>,
                              projs: seq<Projectile>, now: int, roomId: RoomId, j: nat)
    requires Covers(order, ps)
    requires j < |projs| && OutOfRange(Advanced(projs[j], now))
    ensures j in Sweep(ps, order, projs, now, roomId).toRemove
  {
    var pre := projs[..j + 1];
    assert pre[j] == projs[j] && pre[..j] == projs[..j];
    var prev := Sweep(ps, order, projs[..j], now, roomId);
    assert Sweep(ps, order, pre, now, roomId).toRemove == prev.toRemove + [j];
    SweepPrefix(ps, order, projs, now, roomId, j + 1);
    PrefixMember(Sweep(ps, order, pre, now, roomId).toRemove, Sweep(ps, order, projs, now, roomId).toRemove, j);
  }

  /** A queued projectile either passed its range or strikes some player
      other than its owner who is alive when the pass reaches it (players
      do not move during the pass). */
  lemma SweepQueuedOnlyForCause(ps: map<UserId, Player>, order: seq<UserId>,
                                projs: seq<Projectile>, now: int, roomId: RoomId, j: nat)
    requires Covers(order, ps)
    requires j < |projs| && j in Sweep(ps, order, projs, now, roomId).toRemove
    ensures var p := Advanced(projs[j], now);
      var at := Sweep(ps, order, projs[..j], now, roomId).players;
      || OutOfRange(p)
      || exists k :: 0 <= k < |order| && order[k] in at && Strikes(at, order[k], p)
  {
    var pre := projs[..j + 1];
    assert pre[j] == projs[j] && pre[..j] == projs[..j];
    SweepQueuedIn(ps, order, projs, now, roomId, j);
    SweepQueuedLastForCause(ps, order, pre, now, roomId);
  }

  /** An index queued by the whole pass was queued by the time the pass
      reached it. */
  lemma SweepQueuedIn(ps: map<UserId, Player>, order: seq<UserId>,
                      projs: seq<Projectile>, now: int, roomId: RoomId, j: nat)
    requires Covers(order, ps)
    requires j < |projs| && j in Sweep(ps, order, projs, now, roomId).toRemove
    ensures j in Sweep(ps, order, projs[..j + 1], now, roomId).toRemove
  {
    var a := Sweep(ps, order, projs[..j + 1], now, roomId).toRemove;
    var b := Sweep(ps, order, projs, now, roomId).toRemove;
    SweepPrefix(ps, order, projs, now, roomId, j + 1);
    var m :| 0 <= m < |b| && b[m] == j;
    assert m < |a| && a[m] == j;
  }

  /** The last projectile of a sweep is queued only for a cause. */
  lemma SweepQueuedLastForCause(ps: map<UserId, Player>, order: seq<UserId>,
                                projs: seq<Projectile>, now: int, roomId: RoomId)
    requires Covers(order, ps) && projs != []
    requires |projs| - 1 in Sweep(ps, order, projs, now, roomId).toRemove
    ensures var p := Advanced(projs[|projs| - 1], now);
      var at := Sweep(ps, order, projs[..|projs| - 1], now, roomId).players;
      || OutOfRange(p)
      || exists k :: 0 <= k < |order| && order[k] in at && Strikes(at, order[k], p)
  {
    var i := |projs| - 1;
    var prev := Sweep(ps, order, projs[..i], now, roomId);
    var r := Sweep(ps, order, projs, now, roomId);
    var p := Advanced(projs[i], now);
    if !OutOfRange(p) {
      assert PushedOnly(prev, r, i);
      assert forall k :: 0 <= k < |prev.toRemove| ==> r.toRemove[k] == prev.toRemove[k] < i;
      assert |r.toRemove| > |prev.toRemove|;
      VisitTargetsQueuesOnlyForCause(prev, order, i, p, now, roomId);
    }
  }

  /** The player loop queues the projectile only if it strikes one of the
      visited players as they stood before the loop: until the first
      strike no visit changes anything. */
  lemma {:induction false} VisitTargetsQueuesOnlyForCause(st: Pass, ids: seq<UserId>, i: nat, p: Projectile,
                                                          now: int, roomId: RoomId)
    requires Covers(ids, st.players)
    requires |VisitTargets(st, ids, i, p, now, roomId).toRemove| > |st.toRemove|
    ensures exists k :: 0 <= k < |ids| && ids[k] in st.players && Strikes(st.players, ids[k], p)
    decreases |ids|
  {
    var n := |ids| - 1;
    var prev := VisitTargets(st, ids[..n], i, p, now, roomId);
    if |prev.toRemove| > |st.toRemove| {
      VisitTargetsQueuesOnlyForCause(st, ids[..n], i, p, now, roomId);
      var k :| 0 <= k < n && ids[..n][k] in st.players && Strikes(st.players, ids[..n][k], p);
      assert ids[k] == ids[..n][k];
    } else {
      assert prev == st;
      assert Strikes(st.players, ids[n], p);
    }
  }

  /** A projectile within the hit radius of a non-owner who is still alive
      when the pass reaches it is always queued. With the lemma above this
      says exactly when the player loop queues a projectile; for the whole
      pass SweepQueuesOutOfRange, SweepQueuesHit and SweepQueuedOnlyForCause
      say the same of every projectile. */
  lemma {:induction false} VisitTargetsQueuesHit(st: Pass, ids: seq<UserId>, i: nat, p: Projectile,
                                                 now: int, roomId: RoomId, k: nat)
    requires Covers(ids, st.players)
    requires k < |ids| && ids[k] !in ids[..k] && Strikes(st.players, ids[k], p)
    ensures |VisitTargets(st, ids, i, p, now, roomId).toRemove| > |st.toRemove|
    decreases |ids|
  {
    var n := |ids| - 1;
    var prev := VisitTargets(st, ids[..n], i, p, now, roomId);
    if k < n {
      assert ids[..n][k] == ids[k] && ids[..n][..k] == ids[..k];
      VisitTargetsQueuesHit(st, ids[..n], i, p, now, roomId, k);
    } else {
      assert prev.players[ids[k]] == st.players[ids[k]];
    }
  }

  lemma SweepQueuesHit(ps: map<UserId, Player>, order: seq<UserId>,
                       projs: seq<Projectile>, now: int, roomId: RoomId, j: nat, k: nat)
    requires Covers(order, ps)
    requires j < |projs| && k < |order| && order[k] !in order[..k]
    requires Strikes(Sweep(ps, order, projs[..j], now, roomId).players, order[k], Advanced(projs[j], now))
    ensures j in Sweep(ps, order, projs, now, roomId).toRemove
  {
    var pre := projs[..j + 1];
    assert pre[j] == projs[j] && pre[..j] == projs[..j];
    SweepQueuesLastHit(ps, order, pre, now, roomId, k);
    SweepPrefix(ps, order, projs, now, roomId, j + 1);
    PrefixMember(Sweep(ps, order, pre, now, roomId).toRemove, Sweep(ps, order, projs, now, roomId).toRemove, j);
  }

  lemma SweepQueuesLastHit(ps: map<UserId, Player>, order: seq<UserId>, projs: seq<Projectile>,
                           now: int, roomId: RoomId, k: nat)
    requires Covers(order, ps)
    requires projs != [] && k < |order| && order[k] !in order[..k]
    requires Strikes(Sweep(ps, order, projs[..|projs| - 1], now, roomId).players, order[k],
                     Advanced(projs[|projs| - 1], now))
    ensures |projs| - 1 in Sweep(ps, order, projs, now, roomId).toRemove
  {
    var i := |projs| - 1;
    var prev := Sweep(ps, order, projs[..i], now, roomId);
    var r := Sweep(ps, order, projs, now, roomId);
    var p := Advanced(projs[i], now);
    if !OutOfRange(p) {
      VisitTargetsQueuesHit(prev, order, i, p, now, roomId, k);
      assert r.toRemove[|prev.toRemove|] == i;
    } else {
      assert r.toRemove == prev.toRemove + [i];
    }
  }

  // ---------------------------------------------------------------------
  // Health stays in range through the pass
  // ---------------------------------------------------------------------

  predicate AllSane(ps: map<UserId, Player>) {
    forall id :: id in ps ==> Sane(ps[id])
  }

  predicate AllHpInRange(ps: map<UserId, Player>) {
    forall id :: id in ps ==> HpInRange(ps[id])
  }

  /** No player's regeneration clock is ahead of `t`. */
  predicate ClockAheadOf(ps: map<UserId, Player>, t: int) {
    forall id :: id in ps ==> ps[id].lastUpdateTime <= t
  }

  lemma VisitTargetKeepsHp(st: Pass, id: UserId, i: nat, proj: Projectile, now: int, roomId: RoomId)
    requires id in st.players && AllSane(st.players)
    ensures AllSane(VisitTarget(st, id, i, proj, now, roomId).players)
    ensures AllHpInRange(st.players) ==> AllHpInRange(VisitTarget(st, id, i, proj, now, roomId).players)
    ensures forall t :: ClockAheadOf(st.players, t) ==> ClockAheadOf(VisitTarget(st, id, i, proj, now, roomId).players, t)
  {
    if Strikes(st.players, id, proj) && proj.attackerId in st.players && AllHpInRange(st.players) {
      HitKeepsHpInRange(st.players[id], st.players[proj.attackerId], now);
    }
  }

  lemma {:induction false} VisitTargetsKeepHp(st: Pass, ids: seq<UserId>, i: nat, proj: Projectile,
                                              now: int, roomId: RoomId)
    requires Covers(ids, st.players) && AllSane(st.players)
    ensures AllSane(VisitTargets(st, ids, i, proj, now, roomId).players)
    ensures AllHpInRange(st.players) ==> AllHpInRange(VisitTargets(st, ids, i, proj, now, roomId).players)
    ensures forall t :: ClockAheadOf(st.players, t) ==> ClockAheadOf(VisitTargets(st, ids, i, proj, now, roomId).players, t)
    decreases |ids|
  {
    if ids != [] {
      var n := |ids| - 1;
      VisitTargetsKeepHp(st, ids[..n], i, proj, now, roomId);
      VisitTargetKeepsHp(VisitTargets(st, ids[..n], i, proj, now, roomId), ids[n], i, proj, now, roomId);
    }
  }

  /** The pass keeps every player's record sane and, when all start with
      0 <= hp <= maxHp, keeps that too; it never touches a regeneration
      clock. */
  lemma {:induction false} SweepKeepsHp(ps: map<UserId, Player>, order: seq<UserId>,
                                        projs: seq<Projectile>, now: int, roomId: RoomId)
    requires Covers(order, ps) && AllSane(ps)
    ensures AllSane(Sweep(ps, order, projs, now, roomId).players)
    ensures AllHpInRange(ps) ==> AllHpInRange(Sweep(ps, order, projs, now, roomId).players)
    ensures forall t :: ClockAheadOf(ps, t) ==> ClockAheadOf(Sweep(ps, order, projs, now, roomId).players, t)
    decreases |projs|
  {
    if projs != [] {
      var i := |projs| - 1;
      SweepKeepsHp(ps, order, projs[..i], now, roomId);
      var prev := Sweep(ps, order, projs[..i], now, roomId);
      if !OutOfRange(Advanced(projs[i], now)) {
        VisitTargetsKeepHp(prev, order, i, Advanced(projs[i], now), now, roomId);
      }
    }
  }

  // ---------------------------------------------------------------------
  // The reverse splice loop and what it leaves
  // ---------------------------------------------------------------------

  /** Array.prototype.splice(k, 1): drops position k, no-op past the end. */
  function Splice<T>(s: seq<T>, k: nat): (r: seq<T>)
    ensures k < |s| ==> |r| == |s| - 1 && forall j :: 0 <= j < |r| ==> r[j] == (if j < k then s[j] else s[j + 1])
    ensures k >= |s| ==> r == s
  {
    if k < |s| then s[..k] + s[k + 1..] else s
  }

  /** `for (i = toRemove.length - 1; i >= 0; i--) splice(toRemove[i], 1)`. */
  function SpliceAll<T>(s: seq<T>, idx: seq<nat>): seq<T>
    decreases |idx|
  {
    if idx == [] then s else SpliceAll(Splice(s, idx[|idx| - 1]), idx[..|idx| - 1])
  }

  /** Reference definition: the elements whose position is not listed, in
      their original order. */
  function Keep<T>(s: seq<T>, idx: seq<nat>): (r: seq<T>)
    ensures |r| <= |s|
    ensures forall x :: x in r ==> x in s
    decreases |s|
  {
    if s == [] then []
    else Keep(s[..|s| - 1], idx) + (if |s| - 1 in idx then [] else [s[|s| - 1]])
  }

  lemma {:induction false} KeepAppend<T>(a: seq<T>, b: seq<T>, idx: seq<nat>)
    requires forall j :: |a| <= j < |a| + |b| ==> j !in idx
    ensures Keep(a + b, idx) == Keep(a, idx) + b
    decreases |b|
  {
    if b == [] {
      assert a + b == a;
    } else {
      var n := |b| - 1;
      assert (a + b)[..|a + b| - 1] == a + b[..n];
      KeepAppend(a, b[..n], idx);
      assert b == b[..n] + [b[n]];
    }
  }

  lemma {:induction false} KeepAgree<T>(s: seq<T>, idx1: seq<nat>, idx2: seq<nat>)
    requires forall j :: 0 <= j < |s| ==> (j in idx1 <==> j in idx2)
    ensures Keep(s, idx1) == Keep(s, idx2)
    decreases |s|
  {
    if s != [] {
      KeepAgree(s[..|s| - 1], idx1, idx2);
    }
  }

  /** Dropping a listed position `m` beyond which nothing is listed. */
  lemma KeepDropLast<T>(s: seq<T>, idx: seq<nat>, m: nat)
    requires m < |s| && m in idx
    requires forall j :: m < j < |s| ==> j !in idx
    ensures Keep(s, idx) == Keep(s[..m], idx) + s[m + 1..]
  {
    KeepAppend(s[..m + 1], s[m + 1..], idx);
    assert s[..m + 1] + s[m + 1..] == s;
    assert s[..m + 1][..m] == s[..m];
  }

  /** Splicing increasing, in-bounds indices from the last to the first
      removes exactly the listed positions and keeps the others in order. */
  lemma {:induction false} SpliceAllIsKeep<T>(s: seq<T>, idx: seq<nat>)
    requires Increasing(idx)
    requires forall k :: 0 <= k < |idx| ==> idx[k] < |s|
    ensures SpliceAll(s, idx) == Keep(s, idx)
    decreases |idx|
  {
    if idx == [] {
      KeepAppend([], s, idx);
      assert [] + s == s;
    } else {
      var n := |idx| - 1;
      var m, rest := idx[n], idx[..n];
      LastOfIncreasing(idx, |s|);
      SpliceAllIsKeep(Splice(s, m), rest);
      assert Splice(s, m) == s[..m] + s[m + 1..];
      KeepAppend(s[..m], s[m + 1..], rest);
      KeepDropLast(s, idx, m);
      KeepAgree(s[..m], idx, rest);
    }
  }

  /** Splitting an increasing list into its front and its last entry. */
  lemma LastOfIncreasing(idx: seq<nat>, len: nat)
    requires idx != [] && Increasing(idx)
    requires forall k :: 0 <= k < |idx| ==> idx[k] < len
    ensures Increasing(idx[..|idx| - 1])
    ensures forall k :: 0 <= k < |idx| - 1 ==> idx[k] < idx[|idx| - 1]
    ensures forall j :: idx[|idx| - 1] < j < len ==> j !in idx
    ensures forall j :: 0 <= j < idx[|idx| - 1] ==> (j in idx <==> j in idx[..|idx| - 1])
    ensures idx[|idx| - 1] in idx && idx[|idx| - 1] < len
  {
    var n := |idx| - 1;
    forall j | 0 <= j < idx[n] && j in idx ensures j in idx[..n] {
      var k :| 0 <= k < |idx| && idx[k] == j;
      assert idx[..n][k] == j;
    }
  }

  /** Survivors keep their order: the survivors of a prefix are a prefix of
      the survivors of the whole. */
  lemma {:induction false} KeepPrefix<T>(s: seq<T>, idx: seq<nat>, j: nat)
    requires j <= |s|
    ensures Keep(s[..j], idx) <= Keep(s, idx)
    decreases |s|
  {
    if j < |s| {
      var n := |s| - 1;
      assert s[..n][..j] == s[..j];
      KeepPrefix(s[..n], idx, j);
    } else {
      assert s[..j] == s;
    }
  }

  /** An unlisted element survives, at the position given by the number of
      survivors before it. */
  lemma KeepSurvivor<T>(s: seq<T>, idx: seq<nat>, j: nat)
    requires j < |s| && j !in idx
    ensures |Keep(s[..j], idx)| < |Keep(s, idx)|
    ensures Keep(s, idx)[|Keep(s[..j], idx)|] == s[j]
  {
    assert s[..j + 1][..j] == s[..j];
    assert Keep(s[..j + 1], idx) == Keep(s[..j], idx) + [s[j]];
    KeepPrefix(s, idx, j + 1);
  }

  /** Nothing listed survives. */
  lemma {:induction false} KeepOnlyUnlisted<T>(s: seq<T>, idx: seq<nat>, x: nat)
    requires x < |Keep(s, idx)|
    ensures exists j :: 0 <= j < |s| && j !in idx && s[j] == Keep(s, idx)[x]
    decreases |s|
  {
    var n := |s| - 1;
    if x < |Keep(s[..n], idx)| {
      KeepOnlyUnlisted(s[..n], idx, x);
      var j :| 0 <= j < |s[..n]| && j !in idx && s[..n][j] == Keep(s[..n], idx)[x];
      assert s[j] == s[..n][j];
    } else {
      assert n !in idx && s[n] == Keep(s, idx)[x];
    }
  }
}
