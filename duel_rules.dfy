/** The per-player rules of the authoritative duel engine: the constants
    table, the player and projectile records, spawning, passive
    regeneration with effect expiry, effective move speed, distance
    comparisons, the bounded step toward the move target, hit resolution,
    the cooldown countdown sent to clients, and the outbound events.

    Player records are values here; the room (module DuelRoom) keeps them
    in its `players` map and writes back the record a rule returns, which
    is how the in-place field updates of the server appear in this model. */
module DuelRules {
  import opened Common

  // ---------------------------------------------------------------------
  // GAME_CONSTANTS
  // ---------------------------------------------------------------------

  const MAP_WIDTH: real := 800.0
  const MAP_HEIGHT: real := 600.0
  const PLAYER_RADIUS: real := 25.0
  const PLAYER_MAX_HP: real := 1000.0
  const BASE_HP_REGEN: real := 2.0          // hit points per second
  const BASE_MOVE_SPEED: real := 355.0      // units per second
  const GHOST_SPEED_BONUS: real := 0.24
  const GHOST_DURATION: int := 10000        // ms
  const GHOST_COOLDOWN: int := 15000        // ms
  const FLASH_COOLDOWN: int := 5000         // ms
  const FLASH_MIN_RANGE: real := 100.0
  const FLASH_MAX_RANGE: real := 400.0
  const Q_MIN_DAMAGE: real := 80.0
  const Q_HP_PERCENT_DAMAGE: real := 0.20
  const Q_SLOW_PERCENT: real := 0.40
  const Q_SLOW_DURATION: int := 2000        // ms
  const Q_HP_COST: real := 50.0
  const Q_COOLDOWN: int := 3700             // ms
  const Q_PROJECTILE_SPEED: real := 1200.0  // units per second
  const Q_PROJECTILE_RADIUS: real := 30.0
  const Q_MAX_RANGE: real := 2000.0

  /** The tick runs every 50 ms and moves players by 0.05 s worth of speed. */
  const TICK_SECONDS: real := 0.05
  /** Closer than this to the target, a player snaps onto it. */
  const SNAP_DISTANCE: real := 5.0

  // ---------------------------------------------------------------------
  // Records
  // ---------------------------------------------------------------------

  /** The socket a player is bound to, reduced to an identity and whether
      its readyState is OPEN. */
  datatype Session = Session(id: nat, open: bool)

  /** Expiry timestamps (ms) per ability (`ghostSpell` is the `ghost` key,
      a reserved word here); `rune` is never set by any handler. */
  datatype Cooldowns = Cooldowns(attack: int, flash: int, ghostSpell: int, rune: int)

  const NoCooldowns: Cooldowns := Cooldowns(0, 0, 0, 0)

  datatype Player = Player(
    socket: Session,
    x: real, y: real,
    targetX: real, targetY: real,
    hp: real, maxHp: real,
    moveSpeed: real,
    isGhost: bool, ghostEndTime: int,
    slowEndTime: int, slowPercent: real,
    isDead: bool,
    cooldowns: Cooldowns,
    lastUpdateTime: int)

  /** A basic-attack projectile. Its velocity is taken as given: the server
      derives it from atan2/cos/sin of the aim point, which is not modelled. */
  datatype Projectile = Projectile(
    id: nat, attackerId: UserId,
    x: real, y: real,
    vx: real, vy: real,
    startTime: int,
    startX: real, startY: real)

  /** What every rule keeps true of a player record: the maximum never
      changes, hp never exceeds it, and the only slow ever applied is 40%. */
  predicate Sane(p: Player) {
    && p.maxHp == PLAYER_MAX_HP
    && p.hp <= p.maxHp
    && (p.slowPercent == 0.0 || p.slowPercent == Q_SLOW_PERCENT)
  }

  predicate HpInRange(p: Player) { 0.0 <= p.hp <= p.maxHp }

  // ---------------------------------------------------------------------
  // Spawn slot (GameState.addPlayer)
  // ---------------------------------------------------------------------

  /** The record a joining player starts with: the first joiner on the left
      edge, the second on the right edge, both on the horizontal midline,
      standing still, at full health, with nothing on cooldown. */
  function Spawn(isSecond: bool, socket: Session, now: int): (p: Player)
    ensures p.x == (if isSecond then 775.0 else 25.0) && p.y == 300.0
    ensures PLAYER_RADIUS <= p.x <= MAP_WIDTH - PLAYER_RADIUS && 0.0 < p.y < MAP_HEIGHT
    ensures p.targetX == p.x && p.targetY == p.y
    ensures p.hp == p.maxHp == 1000.0 && Sane(p) && HpInRange(p)
    ensures !p.isDead && !p.isGhost && p.slowPercent == 0.0
    ensures p.cooldowns == Cooldowns(0, 0, 0, 0)
    ensures p.socket == socket && p.lastUpdateTime == now
  {
    var x := if isSecond then MAP_WIDTH - PLAYER_RADIUS else PLAYER_RADIUS;
    var y := MAP_HEIGHT / 2.0;
    Player(socket, x, y, x, y, PLAYER_MAX_HP, PLAYER_MAX_HP, BASE_MOVE_SPEED,
           false, 0, 0, 0.0, false, NoCooldowns, now)
  }

  // ---------------------------------------------------------------------
  // Passive regeneration and effect expiry (updatePlayerHP)
  // ---------------------------------------------------------------------

  /** Regenerates 2 hp per second elapsed since the last update (capped at
      the maximum) and ends the ghost and slow effects whose expiry has
      passed. A dead player is left exactly as it is. */
  function UpdatePlayerHP(p: Player, now: int): (q: Player)
    ensures p.isDead ==> q == p
    ensures !p.isDead ==> q.lastUpdateTime == now && q.hp <= q.maxHp
    ensures !p.isDead && p.hp <= p.maxHp && p.lastUpdateTime <= now ==> p.hp <= q.hp
    ensures !p.isDead && p.lastUpdateTime <= now && 0.0 <= p.hp && 0.0 <= p.maxHp ==> 0.0 <= q.hp
    ensures !p.isDead ==> (q.hp < q.maxHp ==>
              q.hp - p.hp == BASE_HP_REGEN * ((now - p.lastUpdateTime) as real / 1000.0))
    ensures !p.isDead ==> (q.hp == q.maxHp <==>
              p.hp + BASE_HP_REGEN * ((now - p.lastUpdateTime) as real / 1000.0) >= p.maxHp)
    ensures !p.isDead ==> (q.isGhost <==> p.isGhost && !(0 < p.ghostEndTime <= now))
    ensures !p.isDead ==> (q.ghostEndTime == if 0 < p.ghostEndTime <= now then 0 else p.ghostEndTime)
    ensures !p.isDead ==> (q.slowPercent == if 0 < p.slowEndTime <= now then 0.0 else p.slowPercent)
    ensures !p.isDead ==> (q.slowEndTime == if 0 < p.slowEndTime <= now then 0 else p.slowEndTime)
    ensures q == p.(hp := q.hp, lastUpdateTime := q.lastUpdateTime,
                    isGhost := q.isGhost, ghostEndTime := q.ghostEndTime,
                    slowPercent := q.slowPercent, slowEndTime := q.slowEndTime)
    ensures Sane(p) ==> Sane(q)
  {
    if p.isDead then p
    else
      var deltaTime := (now - p.lastUpdateTime) as real / 1000.0;
      var hp := Min(p.maxHp, p.hp + BASE_HP_REGEN * deltaTime);
      var ghostOver := p.ghostEndTime > 0 && now >= p.ghostEndTime;
      var slowOver := p.slowEndTime > 0 && now >= p.slowEndTime;
      p.(hp := hp, lastUpdateTime := now,
         isGhost := if ghostOver then false else p.isGhost,
         ghostEndTime := if ghostOver then 0 else p.ghostEndTime,
         slowPercent := if slowOver then 0.0 else p.slowPercent,
         slowEndTime := if slowOver then 0 else p.slowEndTime)
  }

  // ---------------------------------------------------------------------
  // Effective move speed (getCurrentMoveSpeed)
  // ---------------------------------------------------------------------

  /** The source multiplies by (1 - slowPercent) only when slowPercent > 0;
      for every non-negative slow this is the design formula
      base x (1 + ghost bonus) x (1 - slow). */
  function CurrentMoveSpeed(p: Player): (s: real)
    ensures p.slowPercent >= 0.0 ==>
      s == BASE_MOVE_SPEED * (if p.isGhost then 1.0 + GHOST_SPEED_BONUS else 1.0) * (1.0 - p.slowPercent)
    ensures 0.0 <= p.slowPercent <= 1.0 ==> 0.0 <= s <= 440.2
    ensures Sane(p) ==> 0.0 < s
  {
    var speed := BASE_MOVE_SPEED;
    var speed := if p.isGhost then speed * (1.0 + GHOST_SPEED_BONUS) else speed;
    if p.slowPercent > 0.0 then speed * (1.0 - p.slowPercent) else speed
  }

  // ---------------------------------------------------------------------
  // Distances (distance, checkCollision)
  // ---------------------------------------------------------------------

  /** Squared Euclidean distance; the server's `distance` is its square root. */
  function DistSq(x1: real, y1: real, x2: real, y2: real): real {
    (x2 - x1) * (x2 - x1) + (y2 - y1) * (y2 - y1)
  }

  lemma DistSqNonNegative(x1: real, y1: real, x2: real, y2: real)
    ensures DistSq(x1, y1, x2, y2) >= 0.0
  {
    var dx, dy := x2 - x1, y2 - y1;
    assert dx * dx >= 0.0 by { if dx < 0.0 { assert dx * dx == (-dx) * (-dx); } }
    assert dy * dy >= 0.0 by { if dy < 0.0 { assert dy * dy == (-dy) * (-dy); } }
  }

  /** `d` is the value `distance(x1, y1, x2, y2)` returns (exact arithmetic). */
  predicate IsDistance(d: real, x1: real, y1: real, x2: real, y2: real) {
    d >= 0.0 && d * d == DistSq(x1, y1, x2, y2)
  }

  /** A square-root function, standing in for Math.sqrt. */
  ghost predicate IsSqrt(sqrt: real -> real) {
    forall s: real :: s >= 0.0 ==> sqrt(s) >= 0.0 && sqrt(s) * sqrt(s) == s
  }

  /** Comparing a distance with a non-negative constant is the same as
      comparing its square with the constant's square; this is what lets
      the collision, flash and range tests below use squared distances. */
  lemma CompareDistance(d: real, x1: real, y1: real, x2: real, y2: real, c: real)
    requires IsDistance(d, x1, y1, x2, y2) && c >= 0.0
    ensures d < c <==> DistSq(x1, y1, x2, y2) < c * c
    ensures d <= c <==> DistSq(x1, y1, x2, y2) <= c * c
    ensures d > c <==> DistSq(x1, y1, x2, y2) > c * c
    ensures d >= c <==> DistSq(x1, y1, x2, y2) >= c * c
  {
    var s, dd, dc, cc := DistSq(x1, y1, x2, y2), d * d, d * c, c * c;
    assert dd == s;
    if d < c {
      assert dd <= dc;
      assert dc < cc;
    } else if d > c {
      assert cc <= dc;
      assert dc < dd;
    }
  }

  /** checkCollision: the projectile's centre is closer than
      PROJECTILE_RADIUS (30) to the player's centre. The player's own radius
      is not added. */
  predicate Collides(projX: real, projY: real, playerX: real, playerY: real) {
    DistSq(projX, projY, playerX, playerY) < Q_PROJECTILE_RADIUS * Q_PROJECTILE_RADIUS
  }

  lemma CollidesIffWithinRadius(d: real, projX: real, projY: real, playerX: real, playerY: real)
    requires IsDistance(d, projX, projY, playerX, playerY)
    ensures Collides(projX, projY, playerX, playerY) <==> d < 30.0
  {
    CompareDistance(d, projX, projY, playerX, playerY, Q_PROJECTILE_RADIUS);
  }

  /** The flash window 100 <= distance <= 400, on squared distances. */
  predicate FlashInRange(x1: real, y1: real, x2: real, y2: real) {
    var s := DistSq(x1, y1, x2, y2);
    FLASH_MIN_RANGE * FLASH_MIN_RANGE <= s <= FLASH_MAX_RANGE * FLASH_MAX_RANGE
  }

  lemma FlashInRangeIffWindow(d: real, x1: real, y1: real, x2: real, y2: real)
    requires IsDistance(d, x1, y1, x2, y2)
    ensures FlashInRange(x1, y1, x2, y2) <==> 100.0 <= d <= 400.0
  {
    CompareDistance(d, x1, y1, x2, y2, FLASH_MIN_RANGE);
    CompareDistance(d, x1, y1, x2, y2, FLASH_MAX_RANGE);
  }

  // ---------------------------------------------------------------------
  // Bounded step toward the move target (updatePlayerPosition)
  // ---------------------------------------------------------------------

  function DistToTargetSq(p: Player): real { DistSq(p.x, p.y, p.targetX, p.targetY) }

  /** One movement step of `dt` seconds; `dist` is the distance from the
      player to its target. Returns the new record and whether it moved. */
  function Step(p: Player, dt: real, dist: real): (r: (Player, bool))
    requires IsDistance(dist, p.x, p.y, p.targetX, p.targetY)
    ensures p.isDead ==> r == (p, false)
    ensures !p.isDead && dist < SNAP_DISTANCE ==>
      r.0.x == p.targetX && r.0.y == p.targetY && (r.1 <==> (p.x != p.targetX || p.y != p.targetY))
    ensures !p.isDead && dist >= SNAP_DISTANCE ==> r.1
    ensures !p.isDead && dist >= SNAP_DISTANCE && CurrentMoveSpeed(p) * dt >= dist ==>
      r.0.x == p.targetX && r.0.y == p.targetY
    ensures r.0 == p.(x := r.0.x, y := r.0.y)
  {
    if p.isDead then (p, false)
    else
      var dx := p.targetX - p.x;
      var dy := p.targetY - p.y;
      if dist < SNAP_DISTANCE then
        if p.x != p.targetX || p.y != p.targetY then (p.(x := p.targetX, y := p.targetY), true)
        else (p, false)
      else
        var moveDistance := CurrentMoveSpeed(p) * dt;
        if moveDistance >= dist then (p.(x := p.targetX, y := p.targetY), true)
        else
          var ratio := moveDistance / dist;
          (p.(x := p.x + dx * ratio, y := p.y + dy * ratio), true)
  }

  /** A partial step moves exactly speed x dt along the segment toward the
      target, so the remaining distance shrinks by exactly that much: the
      player never overshoots and never moves away from its target. */
  lemma StepApproachesTarget(p: Player, dt: real, dist: real)
    requires IsDistance(dist, p.x, p.y, p.targetX, p.targetY)
    requires !p.isDead && dist >= SNAP_DISTANCE && Sane(p) && dt >= 0.0
    requires CurrentMoveSpeed(p) * dt < dist
    ensures var q := Step(p, dt, dist).0;
      && DistSq(p.x, p.y, q.x, q.y) == (CurrentMoveSpeed(p) * dt) * (CurrentMoveSpeed(p) * dt)
      && IsDistance(dist - CurrentMoveSpeed(p) * dt, q.x, q.y, q.targetX, q.targetY)
      && 0.0 <= dist - CurrentMoveSpeed(p) * dt <= dist
  {
    var m := CurrentMoveSpeed(p) * dt;
    var q := Step(p, dt, dist).0;
    var dx, dy := p.targetX - p.x, p.targetY - p.y;
    var ratio := m / dist;
    assert m >= 0.0;
    assert q.x == p.x + dx * ratio && q.y == p.y + dy * ratio;
    assert ratio * dist == m;
    var s := dx * dx + dy * dy;
    assert s == dist * dist;
    calc {
      DistSq(p.x, p.y, q.x, q.y);
      (dx * ratio) * (dx * ratio) + (dy * ratio) * (dy * ratio);
      { ScaledSquare(dx, dy, ratio); }
      s * (ratio * ratio);
      (dist * dist) * (ratio * ratio);
      (ratio * dist) * (ratio * dist);
      m * m;
    }
    var k := 1.0 - ratio;
    assert q.targetX - q.x == dx * k && q.targetY - q.y == dy * k;
    assert k * dist == dist - m;
    calc {
      DistSq(q.x, q.y, q.targetX, q.targetY);
      (dx * k) * (dx * k) + (dy * k) * (dy * k);
      { ScaledSquare(dx, dy, k); }
      s * (k * k);
      (dist * dist) * (k * k);
      (k * dist) * (k * dist);
      (dist - m) * (dist - m);
    }
  }

  /** Scaling a displacement by `k` scales its squared length by k * k. */
  lemma ScaledSquare(dx: real, dy: real, k: real)
    ensures (dx * k) * (dx * k) + (dy * k) * (dy * k) == (dx * dx + dy * dy) * (k * k)
  {
    assert (dx * k) * (dx * k) == (dx * dx) * (k * k);
    assert (dy * k) * (dy * k) == (dy * dy) * (k * k);
  }

  /** Whatever branch is taken, the distance to the target never grows. */
  lemma StepNeverRecedes(p: Player, dt: real, dist: real)
    requires IsDistance(dist, p.x, p.y, p.targetX, p.targetY)
    requires Sane(p) && dt >= 0.0
    ensures var q := Step(p, dt, dist).0;
      DistToTargetSq(q) <= DistToTargetSq(p) && q.targetX == p.targetX && q.targetY == p.targetY
  {
    var q := Step(p, dt, dist).0;
    if p.isDead {
      assert q == p;
    } else if dist < SNAP_DISTANCE || CurrentMoveSpeed(p) * dt >= dist {
      assert q.x == q.targetX && q.y == q.targetY;
      assert DistToTargetSq(q) == 0.0;
      DistSqNonNegative(p.x, p.y, p.targetX, p.targetY);
    } else {
      StepApproachesTarget(p, dt, dist);
      var e := dist - CurrentMoveSpeed(p) * dt;
      SquareMonotone(e, dist);
    }
  }

  lemma SquareMonotone(a: real, b: real)
    requires 0.0 <= a <= b
    ensures a * a <= b * b
  {
    assert a * a <= a * b;
    assert a * b <= b * b;
  }

  // ---------------------------------------------------------------------
  // Hit resolution (inside updateProjectiles)
  // ---------------------------------------------------------------------

  /** Math.max(MIN_DAMAGE, attacker.hp * HP_PERCENT_DAMAGE). */
  function Damage(attackerHp: real): (d: real)
    ensures d >= Q_MIN_DAMAGE && d >= Q_HP_PERCENT_DAMAGE * attackerHp
    ensures d == Q_MIN_DAMAGE || d == Q_HP_PERCENT_DAMAGE * attackerHp
  {
    Max(Q_MIN_DAMAGE, attackerHp * Q_HP_PERCENT_DAMAGE)
  }

  /** The target of a hit: loses the damage, is slowed by 40% for 2 s, and
      dies at 0 hp (hp set to exactly 0). */
  function Struck(target: Player, damage: real, now: int): (t: Player)
    ensures t.hp == Max(0.0, target.hp - damage)
    ensures t.isDead <==> (target.isDead || target.hp - damage <= 0.0)
    ensures t.slowPercent == Q_SLOW_PERCENT && t.slowEndTime == now + Q_SLOW_DURATION
    ensures t == target.(hp := t.hp, isDead := t.isDead, slowPercent := t.slowPercent,
                         slowEndTime := t.slowEndTime)
  {
    var hurt := target.(hp := target.hp - damage,
                        slowPercent := Q_SLOW_PERCENT,
                        slowEndTime := now + Q_SLOW_DURATION);
    if hurt.hp <= 0.0 then hurt.(hp := 0.0, isDead := true) else hurt
  }

  /** The attacker of a hit heals by HP_COST, capped at its maximum. */
  function Healed(attacker: Player): (a: Player)
    ensures a.hp == Min(attacker.maxHp, attacker.hp + Q_HP_COST)
    ensures a == attacker.(hp := a.hp)
  {
    attacker.(hp := Min(attacker.maxHp, attacker.hp + Q_HP_COST))
  }

  /** A hit lands: the target loses max(80, 20% of the attacker's hp before
      healing), the attacker heals 50; both keep 0 <= hp <= maxHp. */
  lemma HitKeepsHpInRange(target: Player, attacker: Player, now: int)
    requires Sane(target) && Sane(attacker) && HpInRange(target) && HpInRange(attacker)
    ensures var t := Struck(target, Damage(attacker.hp), now);
      Sane(t) && HpInRange(t) && (t.hp < target.hp || t.hp == 0.0)
    ensures var a := Healed(attacker); Sane(a) && HpInRange(a) && a.hp >= attacker.hp
  {
  }

  // ---------------------------------------------------------------------
  // Projectile kinematics (createProjectile, the position/range part of
  // updateProjectiles)
  // ---------------------------------------------------------------------

  /** createProjectile with the velocity supplied by the caller. */
  function NewProjectile(id: nat, attackerId: UserId, fromX: real, fromY: real,
                         vx: real, vy: real, now: int): (p: Projectile)
    ensures p.x == p.startX == fromX && p.y == p.startY == fromY
    ensures p.vx == vx && p.vy == vy && p.startTime == now && p.attackerId == attackerId
  {
    Projectile(id, attackerId, fromX, fromY, vx, vy, now, fromX, fromY)
  }

  /** Seconds since the projectile was fired. */
  function Elapsed(p: Projectile, now: int): real { (now - p.startTime) as real / 1000.0 }

  /** The position is recomputed from the spawn point, never integrated. */
  function Advanced(p: Projectile, now: int): (q: Projectile)
    ensures q == p.(x := q.x, y := q.y)
    ensures q.x - p.startX == p.vx * Elapsed(p, now) && q.y - p.startY == p.vy * Elapsed(p, now)
  {
    var elapsed := Elapsed(p, now);
    p.(x := p.startX + p.vx * elapsed, y := p.startY + p.vy * elapsed)
  }

  /** Travelled distance exceeds MAX_RANGE (on squares). */
  predicate OutOfRange(p: Projectile) {
    DistSq(p.startX, p.startY, p.x, p.y) > Q_MAX_RANGE * Q_MAX_RANGE
  }

  /** A projectile fired at PROJECTILE_SPEED (1200/s) leaves its 2000 range
      exactly when more than 5000/3 ms have passed since it was fired. */
  lemma RangeCutoffTime(p: Projectile, now: int)
    requires p.vx * p.vx + p.vy * p.vy == Q_PROJECTILE_SPEED * Q_PROJECTILE_SPEED
    requires now >= p.startTime
    ensures OutOfRange(Advanced(p, now)) <==> 3 * (now - p.startTime) > 5000
  {
    var e := Elapsed(p, now);
    var q := Advanced(p, now);
    assert e >= 0.0;
    calc {
      DistSq(q.startX, q.startY, q.x, q.y);
      (p.vx * e) * (p.vx * e) + (p.vy * e) * (p.vy * e);
      { assert (p.vx * e) * (p.vx * e) == (p.vx * p.vx) * (e * e);
        assert (p.vy * e) * (p.vy * e) == (p.vy * p.vy) * (e * e); }
      (p.vx * p.vx + p.vy * p.vy) * (e * e);
      (1200.0 * e) * (1200.0 * e);
    }
    var t := 1200.0 * e;
    assert t >= 0.0;
    assert t * t > 2000.0 * 2000.0 <==> t > 2000.0 by {
      if t > 2000.0 {
        assert t * t > 2000.0 * t;
        assert 2000.0 * t > 2000.0 * 2000.0;
      } else {
        assert t * t <= 2000.0 * t;
        assert 2000.0 * t <= 2000.0 * 2000.0;
      }
    }
    assert t == 1.2 * (now - p.startTime) as real;
  }

  // ---------------------------------------------------------------------
  // Cooldown countdown (sendCooldowns)
  // ---------------------------------------------------------------------

  /** Math.max(0, Math.ceil((deadline - now) / 1000)): whole seconds left,
      rounded up; zero once the deadline has passed. */
  function RemainingSeconds(deadline: int, now: int): (r: nat)
    ensures r == 0 <==> deadline <= now
    ensures r > 0 ==> (r - 1) * 1000 < deadline - now <= r * 1000
  {
    var left := deadline - now;
    if left <= 0 then 0 else (left + 999) / 1000
  }

  // ---------------------------------------------------------------------
  // Outbound messages (broadcasts), reduced to their payloads
  // ---------------------------------------------------------------------

  datatype Winner = ByPlayer(id: UserId) | Suicide

  datatype RosterEntry = RosterEntry(userId: UserId, x: real, y: real, hp: real)

  datatype PositionEntry = PositionEntry(userId: UserId, x: real, y: real)

  datatype Event =
    | Hit(target: UserId, hp: real, x: real, y: real)
    | Finish(winner: Winner, roomId: RoomId)
    | PositionUpdate(moves: seq<PositionEntry>)
    | CoolTime(rune: nat, attack: nat, ghostSpell: nat, flash: nat)
    | PlayerJoined(userId: UserId, x: real, y: real, hp: real, playerCount: nat)
    | PlayerLeft(userId: UserId, playerCount: nat)
    | GameStarted(players: seq<RosterEntry>)
    | PlayerMoveTarget(userId: UserId, targetX: real, targetY: real)
    | AttackCast(userId: UserId, x: real, y: real, fromX: real, fromY: real)
    | PlayerFlashed(userId: UserId, x: real, y: real)
    | GhostActivated(userId: UserId)

  /** broadcastToAll, broadcastToRoom(data, excluded), or a send on one
      player's own socket. Delivery only to OPEN sockets is not modelled. */
  datatype Audience = Everyone | EveryoneBut(excluded: UserId) | OnlyTo(userId: UserId)

  datatype Outbound = Outbound(to: Audience, event: Event)

  /** The `coolTime` message: seconds left on each cooldown. */
  function CoolTimeOf(c: Cooldowns, now: int): (e: Event)
    ensures e == CoolTime(RemainingSeconds(c.rune, now), RemainingSeconds(c.attack, now),
                          RemainingSeconds(c.ghostSpell, now), RemainingSeconds(c.flash, now))
    ensures e.attack == 0 <==> c.attack <= now
    ensures e.flash == 0 <==> c.flash <= now
    ensures e.ghostSpell == 0 <==> c.ghostSpell <= now
    ensures e.rune == 0 <==> c.rune <= now
  {
    CoolTime(RemainingSeconds(c.rune, now), RemainingSeconds(c.attack, now),
             RemainingSeconds(c.ghostSpell, now), RemainingSeconds(c.flash, now))
  }
}
