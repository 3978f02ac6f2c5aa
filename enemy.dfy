/** Enemy: a chaser driven by three flags (`isHurt`, `isDead`, `canAttack`),
    a facing direction, a chase target and the set of player probes inside
    its attack zone. Engine reads (target position, liveness, group
    membership, the velocity after collision resolution) are parameters;
    the areas hit by contact damage are returned to the caller, which sends
    each of them `TakeDamage`. */
module Enemies {
  import opened Engine
  import opened Hurtboxes

  /** Horizontal distance under which the enemy stops chasing. */
  const ChaseDeadZone: real := 5.0
  const Gravity: real := 900.0
  const DefaultContactDamage := 10
  /** `Length() > 10` selects a walk clip; compared squared. */
  const WalkSpeedSquared: real := 100.0
  /** `Length() > 5` makes the velocity the facing; compared squared. */
  const FacingSpeedSquared: real := 25.0

  /** Identity of a physics body that may become the chase target. */
  type BodyId = nat

  /** The animation suffix for a facing: the axis with the larger magnitude
      wins (ties go to the vertical axis), and the sign picks the side. */
  function DirectionSuffix(d: Vec): (s: string)
    ensures s in {"right", "left", "down", "up"}
    ensures s == "right" || s == "left" <==> Abs(d.x) > Abs(d.y)
    ensures s == "right" ==> d.x > 0.0
    ensures s == "left" ==> d.x < 0.0
    ensures s == "down" ==> d.y > 0.0
    ensures s == "up" ==> d.y <= 0.0
  {
    if Abs(d.x) > Abs(d.y) then (if d.x > 0.0 then "right" else "left")
    else (if d.y > 0.0 then "down" else "up")
  }

  /** The zero vector faces up. */
  lemma ZeroFacesUp()
    ensures DirectionSuffix(Zero) == "up"
  {
  }

  /** Scaling a facing by a positive factor keeps its suffix, so storing the
      facing without normalising it picks the same clips. */
  lemma SuffixIgnoresScale(d: Vec, k: real)
    requires k > 0.0
    ensures DirectionSuffix(Scale(k, d)) == DirectionSuffix(d)
  {
    var e := Scale(k, d);
    assert Abs(e.x) == k * Abs(d.x) && Abs(e.y) == k * Abs(d.y);
    assert Abs(e.x) > Abs(e.y) <==> Abs(d.x) > Abs(d.y) by {
      var gap := Abs(d.x) - Abs(d.y);
      assert Abs(e.x) - Abs(e.y) == k * gap;
      if gap > 0.0 {
        assert k * gap > 0.0;
      } else {
        assert k * -gap >= 0.0;
      }
    }
    assert e.x > 0.0 <==> d.x > 0.0;
    assert e.y > 0.0 <==> d.y > 0.0;
  }

  /** Horizontal chase speed: toward a valid target at full speed, unless it
      is within the dead zone; zero without a valid target. */
  function ChaseVelocityX(hasValidTarget: bool, dx: real, speed: real): (vx: real)
    ensures !hasValidTarget || Abs(dx) <= ChaseDeadZone ==> vx == 0.0
    ensures hasValidTarget && Abs(dx) > ChaseDeadZone ==> Abs(vx) == Abs(speed)
    ensures hasValidTarget && Abs(dx) > ChaseDeadZone && speed >= 0.0 ==> vx * dx >= 0.0
  {
    if hasValidTarget && Abs(dx) > ChaseDeadZone then (if dx > 0.0 then speed else -speed)
    else 0.0
  }

  /** With a positive speed the enemy moves strictly toward a target outside
      the dead zone. */
  lemma ChaseClosesDistance(dx: real, speed: real)
    requires speed > 0.0 && Abs(dx) > ChaseDeadZone
    ensures ChaseVelocityX(true, dx, speed) * dx > 0.0
  {
    if dx > 0.0 {
      assert ChaseVelocityX(true, dx, speed) == speed;
    } else {
      assert ChaseVelocityX(true, dx, speed) == -speed;
    }
  }

  /** The direction clips are picked for: the velocity when it is fast
      enough, otherwise the remembered facing. */
  function Facing(velocity: Vec, smooth: Vec): (f: Vec)
    ensures LengthSquared(velocity) > FacingSpeedSquared ==> f == velocity
    ensures LengthSquared(velocity) <= FacingSpeedSquared ==> f == smooth
  {
    if LengthSquared(velocity) > FacingSpeedSquared then velocity else smooth
  }

  /** The clip `UpdateAnimation` leaves playing: the walk or idle clip for the
      facing, else the idle clip, else whatever was playing. */
  function SelectAnimation(velocity: Vec, smooth: Vec, clips: set<string>, current: string): (a: string)
    ensures a == current || a in clips
    ensures
      var s := DirectionSuffix(Facing(velocity, smooth));
      var n := (if LengthSquared(velocity) > WalkSpeedSquared then "walk_" else "idle_") + s;
      && a in {current, n, "idle_" + s}
      && (n in clips ==> a == n)
      && (n !in clips && "idle_" + s in clips ==> a == "idle_" + s)
      && (n !in clips && "idle_" + s !in clips ==> a == current)
    ensures a != current ==> StartsWith(a, "walk_") || StartsWith(a, "idle_")
    ensures a != current ==> !StartsWith(a, "hurt") && !StartsWith(a, "death")
  {
    var suffix := DirectionSuffix(Facing(velocity, smooth));
    var name := (if LengthSquared(velocity) > WalkSpeedSquared then "walk" else "idle") + "_" + suffix;
    var fallback := "idle_" + suffix;
    assert name[..5] == "walk_" || name[..5] == "idle_";
    assert name[..4] == "walk" || name[..4] == "idle";
    assert fallback[..5] == "idle_" && fallback[..4] == "idle";
    if name in clips then name else if fallback in clips then fallback else current
  }

  function HurtClip(facing: Vec): (name: string)
    ensures StartsWith(name, "hurt") && !StartsWith(name, "death")
  {
    var name := "hurt_" + DirectionSuffix(facing);
    assert name[..4] == "hurt";
    name
  }

  function DeathClip(facing: Vec): (name: string)
    ensures StartsWith(name, "death") && !StartsWith(name, "hurt")
  {
    var name := "death_" + DirectionSuffix(facing);
    assert name[..5] == "death";
    assert name[..4] == "deat";
    name
  }

  class Enemy {
    const targetSpeed: real
    /** The enemy itself as a scene node (its QueueFree). */
    const node: Node
    /** Whether the AnimatedSprite2D child exists, and its clip names. */
    const hasSprite: bool
    const clips: set<string>
    /** Whether the AttackCooldownTimer child exists. */
    const hasCooldownTimer: bool
    /** `Damage` of the attack hitbox when it is an EnemyAttackHitbox. */
    const attackHitboxDamage: Option<int>

    var animation: string
    var isHurt: bool
    var isDead: bool
    var canAttack: bool
    /** The remembered facing (kept unnormalised; see SuffixIgnoresScale). */
    var smoothDirection: Vec
    var velocity: Vec
    var target: Option<BodyId>
    var playersInHitbox: set<Hurtbox>
    /** The one-shot cooldown timer has been started and not yet fired. */
    var cooldownRunning: bool

    /** The enemy never gets stuck: a hurt enemy is playing a hurt clip
        whose end clears the flag, a dead enemy is either queued for free or
        playing a death clip whose end frees it, and an enemy that cannot
        attack has a cooldown running whenever it has a timer. */
    ghost predicate Valid()
      reads this, node
    {
      && (isHurt ==> hasSprite)
      && (isHurt && !isDead ==> StartsWith(animation, "hurt"))
      && (isDead && !node.queuedForFree ==> hasSprite && StartsWith(animation, "death"))
      && (hasCooldownTimer && !canAttack ==> cooldownRunning)
    }

    function ContactDamage(): (d: int)
      ensures attackHitboxDamage.None? ==> d == DefaultContactDamage
      ensures attackHitboxDamage.Some? ==> d == attackHitboxDamage.value
    {
      match attackHitboxDamage
      case Some(damage) => damage
      case None => DefaultContactDamage
    }

    /** What UpdateAnimation does when no guard stops it. */
    twostate predicate Reanimated()
      reads this
    {
      && animation == SelectAnimation(velocity, old(smoothDirection), clips, old(animation))
      && smoothDirection == Facing(velocity, old(smoothDirection))
    }

    /** The fields no animation handler touches. */
    twostate predicate CombatUnchanged()
      reads this
    {
      && canAttack == old(canAttack) && velocity == old(velocity) && target == old(target)
      && playersInHitbox == old(playersInHitbox) && cooldownRunning == old(cooldownRunning)
    }

    /** Construction followed by `_Ready`: facing right, able to attack. */
    constructor Ready(targetSpeed: real, node: Node, hasSprite: bool, clips: set<string>, initialAnimation: string,
                      hasCooldownTimer: bool, attackHitboxDamage: Option<int>)
      ensures this.targetSpeed == targetSpeed && this.node == node && this.hasSprite == hasSprite
      ensures this.clips == clips && this.hasCooldownTimer == hasCooldownTimer
      ensures this.attackHitboxDamage == attackHitboxDamage && animation == initialAnimation
      ensures !isHurt && !isDead && canAttack && !cooldownRunning
      ensures smoothDirection == Vec(1.0, 0.0) && velocity == Zero && target == None && playersInHitbox == {}
      ensures Valid()
    {
      this.targetSpeed := targetSpeed;
      this.node := node;
      this.hasSprite := hasSprite;
      this.clips := clips;
      this.hasCooldownTimer := hasCooldownTimer;
      this.attackHitboxDamage := attackHitboxDamage;
      animation := initialAnimation;
      isHurt, isDead, canAttack := false, false, true;
      smoothDirection := Vec(1.0, 0.0);
      velocity := Zero;
      target := None;
      playersInHitbox := {};
      cooldownRunning := false;
    }

    /** Picks the walk or idle clip for the current velocity; does nothing
        without a sprite or while hurt or dead. */
    method UpdateAnimation()
      requires Valid()
      modifies this
      ensures Valid()
      ensures isHurt == old(isHurt) && isDead == old(isDead) && CombatUnchanged()
      ensures !hasSprite || old(isHurt) || old(isDead) ==>
        animation == old(animation) && smoothDirection == old(smoothDirection)
      ensures hasSprite && !old(isHurt) && !old(isDead) ==> Reanimated()
    {
      if !hasSprite || isHurt || isDead {
        return;
      }
      var moving := LengthSquared(velocity) > WalkSpeedSquared;
      var facing := if LengthSquared(velocity) > FacingSpeedSquared then velocity else smoothDirection;
      var suffix := DirectionSuffix(facing);
      var name := (if moving then "walk" else "idle") + "_" + suffix;
      if name in clips {
        if animation != name {
          animation := name;
        }
      } else {
        var fallback := "idle_" + suffix;
        if fallback in clips {
          if animation != fallback {
            animation := fallback;
          }
        }
      }
      if LengthSquared(velocity) > FacingSpeedSquared {
        smoothDirection := velocity;
      }
    }

    /** One physics tick. A dead enemy stops. Otherwise the horizontal speed
        follows the chase rule, the vertical speed gets gravity in the air
        and is zeroed on the floor; `desired` is what is handed to
        MoveAndSlide, `resolved` what the engine leaves in Velocity. */
    method PhysicsProcess(delta: real, onFloor: bool, targetValid: bool, dx: real, resolved: Vec)
      returns (desired: Vec)
      requires Valid()
      modifies this
      ensures Valid()
      ensures isHurt == old(isHurt) && isDead == old(isDead) && canAttack == old(canAttack)
      ensures target == old(target) && playersInHitbox == old(playersInHitbox) && cooldownRunning == old(cooldownRunning)
      ensures old(isDead) ==>
        && velocity == Zero && desired == Zero
        && animation == old(animation) && smoothDirection == old(smoothDirection)
      ensures !old(isDead) ==>
        && desired.x == ChaseVelocityX(target.Some? && targetValid, dx, targetSpeed)
        && desired.y == (if onFloor then 0.0 else old(velocity).y + Gravity * delta)
        && velocity == resolved
      ensures !old(isDead) && hasSprite && !isHurt ==> Reanimated()
      ensures !old(isDead) && (!hasSprite || isHurt) ==>
        animation == old(animation) && smoothDirection == old(smoothDirection)
    {
      if isDead {
        velocity := Zero;
        desired := Zero;
        return;
      }
      var move := velocity;
      if target.Some? && targetValid {
        if Abs(dx) > ChaseDeadZone {
          move := move.(x := if dx > 0.0 then targetSpeed else -targetSpeed);
        } else {
          move := move.(x := 0.0);
        }
      } else {
        move := move.(x := 0.0);
      }
      if !onFloor {
        move := move.(y := move.y + Gravity * delta);
      } else {
        move := move.(y := 0.0);
      }
      velocity := move;
      desired := move;
      velocity := resolved;
      UpdateAnimation();
    }

    /** Starts the hurt clip for the current facing. Ignored while dead or
        already hurt; when the clip is missing the flag is reset at once so
        the enemy is not stuck hurt. */
    method PlayHurtAnimation()
      requires Valid()
      modifies this
      ensures Valid()
      ensures isDead == old(isDead) && CombatUnchanged()
      ensures !hasSprite || old(isDead) || old(isHurt) ==> unchanged(this)
      ensures hasSprite && !old(isDead) && !old(isHurt) ==>
        && (isHurt <==> HurtClip(old(smoothDirection)) in clips)
        && (isHurt ==> animation == HurtClip(old(smoothDirection)) && smoothDirection == old(smoothDirection))
        && (!isHurt ==> Reanimated())
    {
      if !hasSprite || isDead || isHurt {
        return;
      }
      isHurt := true;
      var hurt := HurtClip(smoothDirection);
      if hurt in clips {
        animation := hurt;
      } else {
        isHurt := false;
        UpdateAnimation();
      }
    }

    /** The sprite's `AnimationFinished` signal: a finished death clip frees
        the enemy, a finished hurt clip clears the hurt flag. */
    method OnAnimationFinished()
      requires Valid()
      modifies this, node
      ensures Valid()
      ensures isDead == old(isDead) && CombatUnchanged()
      ensures !hasSprite ==> unchanged(this) && unchanged(node)
      ensures hasSprite && StartsWith(old(animation), "death") ==> node.queuedForFree && unchanged(this)
      ensures hasSprite && !StartsWith(old(animation), "death") && StartsWith(old(animation), "hurt") ==>
        && !isHurt && node.queuedForFree == old(node.queuedForFree)
        && (isDead ==> animation == old(animation) && smoothDirection == old(smoothDirection))
        && (!isDead ==> Reanimated())
      ensures hasSprite && !StartsWith(old(animation), "death") && !StartsWith(old(animation), "hurt") ==>
        unchanged(this) && unchanged(node)
    {
      if !hasSprite {
        return;
      }
      if StartsWith(animation, "death") {
        node.queuedForFree := true;
      } else if StartsWith(animation, "hurt") {
        isHurt := false;
        UpdateAnimation();
      }
    }

    /** The health component's `Died` signal. Takes effect at most once:
        plays the death clip for the facing and leaves freeing to its end,
        or frees at once when there is no sprite or no such clip. */
    method OnDied()
      requires Valid()
      modifies this, node
      ensures Valid()
      ensures isDead
      ensures isHurt == old(isHurt) && smoothDirection == old(smoothDirection) && CombatUnchanged()
      ensures old(isDead) ==> unchanged(this) && unchanged(node)
      ensures !old(isDead) && hasSprite && DeathClip(smoothDirection) in clips ==>
        animation == DeathClip(smoothDirection) && node.queuedForFree == old(node.queuedForFree)
      ensures !old(isDead) && !(hasSprite && DeathClip(smoothDirection) in clips) ==>
        animation == old(animation) && node.queuedForFree
    {
      if isDead {
        return;
      }
      isDead := true;
      if !hasSprite {
        node.queuedForFree := true;
        return;
      }
      var death := DeathClip(smoothDirection);
      if death in clips {
        animation := death;
      } else {
        node.queuedForFree := true;
      }
    }

    /** The cooldown timer fires: the enemy may attack again, every tracked
        probe that still exists is hit once (the returned areas, each to be
        sent ContactDamage()), and while any probe is tracked, valid or not,
        the attack is spent again and the cooldown restarts. */
    method OnAttackCooldownTimeout(live: set<Hurtbox>) returns (hits: seq<Hurtbox>)
      requires Valid()
      modifies this
      ensures Valid()
      ensures canAttack <==> playersInHitbox == {}
      ensures cooldownRunning <==> playersInHitbox != {} && hasCooldownTimer
      ensures forall a :: a in hits <==> a in playersInHitbox && a in live
      ensures forall i, j :: 0 <= i < j < |hits| ==> hits[i] != hits[j]
      ensures playersInHitbox == old(playersInHitbox) && target == old(target) && velocity == old(velocity)
      ensures isHurt == old(isHurt) && isDead == old(isDead) && animation == old(animation)
      ensures smoothDirection == old(smoothDirection)
    {
      cooldownRunning := false;
      canAttack := true;
      hits := [];
      var rest := playersInHitbox;
      while rest != {}
        invariant rest <= playersInHitbox
        invariant forall a :: a in hits <==> a in playersInHitbox - rest && a in live
        invariant forall i, j :: 0 <= i < j < |hits| ==> hits[i] != hits[j]
        decreases rest
      {
        var area :| area in rest;
        if area in live {
          hits := hits + [area];
        }
        rest := rest - {area};
      }
      if |playersInHitbox| > 0 {
        canAttack := false;
        if hasCooldownTimer {
          cooldownRunning := true;
        }
      }
    }

    /** A probe enters the attack zone. A player probe is always tracked;
        if the enemy can attack, that probe alone is hit at once, the attack
        is spent and the cooldown starts. */
    method OnHitboxAreaEntered(area: Hurtbox, inPlayerGroup: bool) returns (hits: seq<Hurtbox>)
      requires Valid()
      modifies this
      ensures Valid()
      ensures !inPlayerGroup ==> hits == [] && unchanged(this)
      ensures inPlayerGroup ==> playersInHitbox == old(playersInHitbox) + {area} && !canAttack
      ensures inPlayerGroup && old(canAttack) ==>
        hits == [area] && cooldownRunning == (old(cooldownRunning) || hasCooldownTimer)
      ensures inPlayerGroup && !old(canAttack) ==> hits == [] && cooldownRunning == old(cooldownRunning)
      ensures isHurt == old(isHurt) && isDead == old(isDead) && animation == old(animation)
      ensures target == old(target) && velocity == old(velocity) && smoothDirection == old(smoothDirection)
    {
      hits := [];
      if inPlayerGroup {
        playersInHitbox := playersInHitbox + {area};
        if canAttack {
          hits := [area];
          canAttack := false;
          if hasCooldownTimer {
            cooldownRunning := true;
          }
        }
      }
    }

    /** A probe leaves the attack zone: a player probe stops being tracked;
        nobody is hit. */
    method OnHitboxAreaExited(area: Hurtbox, inPlayerGroup: bool)
      requires Valid()
      modifies this
      ensures Valid()
      ensures playersInHitbox == if inPlayerGroup then old(playersInHitbox) - {area} else old(playersInHitbox)
      ensures canAttack == old(canAttack) && cooldownRunning == old(cooldownRunning)
      ensures isHurt == old(isHurt) && isDead == old(isDead) && animation == old(animation)
      ensures target == old(target) && velocity == old(velocity) && smoothDirection == old(smoothDirection)
    {
      if inPlayerGroup {
        playersInHitbox := playersInHitbox - {area};
      }
    }

    /** A body enters the aggro radius. A player body becomes the target,
        or clears it when it is not a CharacterBody2D (`body as
        CharacterBody2D` is null). */
    method OnAggroRadiusBodyEntered(body: BodyId, inPlayerGroup: bool, isCharacterBody: bool)
      requires Valid()
      modifies this
      ensures Valid()
      ensures target == if !inPlayerGroup then old(target) else if isCharacterBody then Some(body) else None
      ensures canAttack == old(canAttack) && cooldownRunning == old(cooldownRunning)
      ensures playersInHitbox == old(playersInHitbox)
      ensures isHurt == old(isHurt) && isDead == old(isDead) && animation == old(animation)
      ensures velocity == old(velocity) && smoothDirection == old(smoothDirection)
    {
      if inPlayerGroup {
        target := if isCharacterBody then Some(body) else None;
      }
    }
  }

  /** Two hurt requests in a row: the second changes nothing. */
  method HurtTwice(e: Enemy)
    requires e.Valid() && e.hasSprite && !e.isDead && !e.isHurt
    requires HurtClip(e.smoothDirection) in e.clips
    modifies e
  {
    e.PlayHurtAnimation();
    var afterFirst := e.animation;
    assert e.isHurt;
    e.PlayHurtAnimation();
    assert e.isHurt && e.animation == afterFirst;
  }
}
