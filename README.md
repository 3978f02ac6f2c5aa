# Combat core of a 2D action roguelite, in Dafny

This project models the damage pipeline and the enemy state machine of a small
Godot game written in C#.

- **HealthComponent** keeps an integer health clamped at zero. The
  subtraction is C#'s unchecked 32-bit `int` arithmetic, so it wraps around
  (`Health.Wrap32`). Every hit tints the owner's `Sprite2D` red and schedules
  a 0.1 s revert. A hit that leaves
  zero health emits `Died` and queues the owner node, or the component itself
  when it has no parent, for freeing.
- **Hurtbox** forwards a damage amount, unchanged, to the HealthComponent
  child of its parent. It does nothing when that child is missing.
- **Hitbox** has a `Monitoring` switch. `Enable(d)` turns it on and starts one
  timer that turns it off after `d`; earlier timers are never cancelled. When a
  body enters, the first Hurtbox among the body's children takes `Damage`
  (default 10).
- **Enemy** is a chaser driven by the flags `isHurt`, `isDead` and
  `canAttack`:
  - hurt and death reactions are guarded against re-entry;
  - clip names come from the facing (`DirectionSuffix`);
  - horizontal chase speed follows a 5-unit dead-zone rule;
  - contact damage is dealt to the set of player probes in its attack zone,
    gated by a cooldown timer.
- **Player** covers three things:
  - a recursive search of a scene subtree for a HealthComponent;
  - an attack that enables the sword hitbox for 0.2 s;
  - a tick that turns the four direction keys into an integer intent and a
    velocity of `Speed` along it.

Layout, one module per file:

- `engine.dfy` (`Engine`) holds the scene primitives: `Option`, `Vec`,
  `Node` with its "queued for free" flag, and `Sprite2D` with its tint.
- `health.dfy`, `hurtbox.dfy`, `hitbox.dfy`, `enemy.dfy` and `player.dfy`
  each model one source file.
- `scene.dfy` (`Scene`) connects them. A lethal hit's `Died` runs the enemy's
  `OnDied`, and the probes an enemy's contact handlers pick are each sent
  `TakeDamage`.

How the engine is represented:

- Timers are explicit pending events that the caller fires, in any order:
  `Hitbox.pendingDisables`, `HealthComponent.pendingReverts` and
  `Enemy.cooldownRunning`.
- Everything the code asks the engine is a parameter. That includes
  `IsInstanceValid`, `IsInGroup("player")`, `IsOnFloor`, the target's position
  and the velocity `MoveAndSlide` leaves behind.
- Clips are a set of names.
- C# `int` values are Dafny `int`. The one piece of `int` arithmetic in the
  core, `CurrentHealth -= damageAmount`, is wrapped to 32 bits explicitly.
  Lemmas about series of hits require their values to lie in the `int` range,
  which the source's types guarantee.
- Exported defaults that are never read in code (`Speed` 200, `TargetSpeed`
  120) are constructor parameters. `MaxHealth` defaults to 100
  (`Health.DefaultMaxHealth`).
- A length compared against a threshold is written as a squared length
  compared against the squared threshold.

The object invariant `Enemy.Valid` says an enemy never gets stuck:

- a hurt, living enemy is playing a `hurt*` clip, whose end clears the flag;
- a dead enemy is either queued for free or playing a `death*` clip, whose end
  frees it;
- an enemy that cannot attack has its cooldown running, whenever it has a
  cooldown timer.

Every Enemy handler preserves `Enemy.Valid`.

Where the code does not do what its comments and names suggest, the model
follows the code:

- `Died` is emitted on every call that leaves zero health, not only the first
  one. HealthComponent has no once-only guard; `Enemy.OnDied` has one.
- `Enable` does not re-arm the hitbox timer. An earlier `Enable`'s timer ends a
  later window early. There is no `Disable` operation.
- Damage after death is not ignored by HealthComponent. Each such call tints
  the sprite again, emits `Died` again and queues the owner again.
- Destruction is triggered twice. On a lethal hit HealthComponent queues its
  parent for freeing right away. So an enemy that starts a death clip in
  `OnDied` is freed at the end of the frame anyway, not when the clip ends
  (`Scene.StrikeEnemy`).
- Negative amounts are not rejected, and they raise health, even above the
  maximum (`Health.NegativeDamageHeals`). A heal that would carry health past
  `int.MaxValue` wraps to a negative number, which the clamp turns into 0: it
  kills, and emits `Died` (`Health.OverhealKills`).
- Hitbox reacts to bodies entering (`body_entered`), not to areas.

## Model

| member | source | states |
|---|---|---|
| Health.Wrap32 | scripts/components/HealthComponent.cs:21 | the result is a 32-bit value; an in-range value is unchanged; an overflow past int.MaxValue comes back 2^32 lower |
| Health.Damaged | scripts/components/HealthComponent.cs:21-23 | health after a hit lies in [0, int.MaxValue]; when the 32-bit subtraction does not overflow it is 0 exactly when the amount reaches the old health, otherwise old health minus amount (overkill discarded) |
| Health.DamageStaysInRange | scripts/components/HealthComponent.cs:19-23 | with a non-negative amount, health never increases and stays within [0, MaxHealth] |
| Health.NegativeDamageHeals | scripts/components/HealthComponent.cs:19-23 | a negative amount is not rejected: below int.MaxValue, damage −1 lifts health to MaxHealth + 1 |
| Health.OverhealKills | scripts/components/HealthComponent.cs:21-23 | a negative amount that would carry health past int.MaxValue wraps negative and leaves health 0, so it kills |
| Health.DamageComposes | scripts/components/HealthComponent.cs:21-23 | two non-negative hits take off their sum, clamped at zero: 0 when the sum reaches the health, else health minus the sum |
| Health.HealthAfterIsTotalDamage | scripts/components/HealthComponent.cs:19-23 | a series of non-negative hits on non-negative health leaves max(0, health − total), the total taken over the integers |
| Health.DiedExactlyWhenUsedUp | scripts/components/HealthComponent.cs:42-44 | call i emits Died exactly when the damage dealt so far, that call included, has used up the starting health |
| Health.DiedRepeats | scripts/components/HealthComponent.cs:42-44 | no once-only guard: after one call emits Died, every later non-negative call emits it again |
| Health.ThirtyThenEighty | scripts/components/HealthComponent.cs:7-44 | with the default MaxHealth 100, hits of 30 then 80: health 0 and Died on the second call only; a third hit emits Died again |
| Health.HealthComponent.Ready | scripts/components/HealthComponent.cs:14-17 | after _Ready, CurrentHealth equals MaxHealth; nothing pending, nothing queued |
| Health.HealthComponent.TakeDamage | scripts/components/HealthComponent.cs:19-51 | health becomes the clamped, 32-bit wrapped difference; with a parent sprite, the sprite is tinted and one revert is scheduled; Died is emitted iff health is 0, and then the parent (or, without a parent, the component) is queued for free; non-negative damage keeps health in [0, old] |
| Health.HealthComponent.FireRevert | scripts/components/HealthComponent.cs:33-36 | a fired revert leaves the queue and clears the tint only if the sprite is still valid; health is untouched |
| Hurtboxes.Hurtbox.TakeDamage | scripts/components/Hurtbox.cs:23-26 | forwards exactly the same amount: the owner's HealthComponent takes that damage, once; without one nothing changes |
| Hurtboxes.Hurtbox.OnDamaged | scripts/components/Hurtbox.cs:14-21 | one TakeDamage call on the parent's HealthComponent; a missing parent or component is a silent no-op; only that component's footprint can change |
| Hitboxes.FirstHurtbox | scripts/components/Hitbox.cs:20-27 | returns nothing iff no child is a Hurtbox; otherwise the index of a Hurtbox child with no Hurtbox before it |
| Hitboxes.FindHurtbox | scripts/components/Hitbox.cs:18-27 | the foreach-with-break returns null iff the body has no Hurtbox child, otherwise the earliest Hurtbox child |
| Hitboxes.Hitbox.Ready | scripts/components/Hitbox.cs:7-13 | after _Ready, Monitoring is off and no timer is pending |
| Hitboxes.Hitbox.Enable | scripts/components/Hitbox.cs:35-38 | Monitoring on at once, and exactly one more disable timer of the given duration is pending, earlier ones kept |
| Hitboxes.Hitbox.FireDisable | scripts/components/Hitbox.cs:38 | any expiring timer leaves Monitoring off, whatever later Enable calls are still pending |
| Hitboxes.Hitbox.OnBodyEntered | scripts/components/Hitbox.cs:15-33 | the first Hurtbox child takes exactly Damage, once; no Hurtbox child means no damage |
| Hitboxes.Hitbox.BodyOverlaps | scripts/components/Hitbox.cs:11-12 | the body_entered handler only runs while monitoring, so a disabled hitbox changes nothing |
| Enemies.DirectionSuffix | scripts/nodes/Enemy.cs:132-142 | the suffix is horizontal iff \|x\| > \|y\| (ties go vertical); right/left/down point along the positive or negative axis; up covers y ≤ 0 |
| Enemies.ZeroFacesUp | scripts/nodes/Enemy.cs:132-142 | the zero vector gives "up" |
| Enemies.SuffixIgnoresScale | scripts/nodes/Enemy.cs:126-129 | scaling a facing by a positive factor keeps its suffix, so the normalised and raw velocity choose the same clips |
| Enemies.ChaseVelocityX | scripts/nodes/Enemy.cs:63-78 | zero without a valid target or inside the 5-unit dead zone; otherwise full speed, in the target's direction |
| Enemies.ChaseClosesDistance | scripts/nodes/Enemy.cs:65-69 | with positive speed the chase velocity points strictly toward a target outside the dead zone |
| Enemies.Facing | scripts/nodes/Enemy.cs:101 | clips follow the velocity once it is faster than 5, otherwise the remembered facing; slow movement never turns the enemy |
| Enemies.SelectAnimation | scripts/nodes/Enemy.cs:96-123 | with suffix s from the facing and n the walk_ clip when faster than 10 else the idle_ clip: n when it exists, else idle_s when that exists, else the old clip; never a hurt or death clip |
| Enemies.HurtClip | scripts/nodes/Enemy.cs:152-153 | the hurt clip name starts with "hurt" and not with "death" |
| Enemies.DeathClip | scripts/nodes/Enemy.cs:206-207 | the death clip name starts with "death" and not with "hurt" |
| Enemies.Enemy.ContactDamage | scripts/nodes/Enemy.cs:224 | the attack hitbox's own Damage when it is an EnemyAttackHitbox, otherwise 10 |
| Enemies.Enemy.Ready | scripts/nodes/Enemy.cs:25-50 | after _Ready the enemy faces right, is neither hurt nor dead, can attack, tracks no probe and satisfies Valid |
| Enemies.Enemy.UpdateAnimation | scripts/nodes/Enemy.cs:92-130 | no change without a sprite or while hurt or dead; otherwise the clip from SelectAnimation and the new facing; Valid kept |
| Enemies.Enemy.PhysicsProcess | scripts/nodes/Enemy.cs:52-90 | dead: velocity zero and nothing else; alive: horizontal speed by ChaseVelocityX, vertical zero on the floor else gravity-accelerated, then the resolved velocity and an animation update |
| Enemies.Enemy.PlayHurtAnimation | scripts/nodes/Enemy.cs:144-165 | a no-op without a sprite or when already dead or hurt; otherwise isHurt ends true iff the hurt clip exists (then it plays), and a missing clip resets the flag and updates the animation |
| Enemies.Enemy.OnAnimationFinished | scripts/nodes/Enemy.cs:178-193 | a finished death clip queues the enemy for free; a finished hurt clip clears isHurt; nothing else changes |
| Enemies.Enemy.OnDied | scripts/nodes/Enemy.cs:195-219 | at most once (a second call changes nothing); sets isDead; with a sprite and death clip plays it and leaves freeing to its end; otherwise queues for free at once |
| Enemies.Enemy.OnAttackCooldownTimeout | scripts/nodes/Enemy.cs:221-238 | every tracked probe that still exists is hit exactly once; canAttack ends true iff nothing is tracked; the cooldown restarts iff something is tracked, even when none of it is valid |
| Enemies.Enemy.OnHitboxAreaEntered | scripts/nodes/Enemy.cs:239-255 | a player probe is always tracked; if the enemy could attack, that probe alone is hit, canAttack drops and the cooldown starts; otherwise no hit |
| Enemies.Enemy.OnHitboxAreaExited | scripts/nodes/Enemy.cs:257-264 | a player probe leaves the tracked set; no damage, no flag change |
| Enemies.Enemy.OnAggroRadiusBodyEntered | scripts/nodes/Enemy.cs:267-273 | a player body becomes the target, or clears it when it is not a CharacterBody2D |
| Players.FindHealthComponent | scripts/nodes/Player.cs:63-83 | a node that is itself a HealthComponent is returned; anything returned is a HealthComponent |
| Players.SearchChildren | scripts/nodes/Player.cs:72-80 | no children, no hit; anything returned is a HealthComponent |
| Players.NamedChildPreferred | scripts/nodes/Player.cs:68-70 | a direct child named HealthComponent wins over any deeper hit |
| Players.FindIsSound | scripts/nodes/Player.cs:63-83 | a found node is a HealthComponent and lies in the subtree rooted at the start node |
| Players.SearchChildrenIsSound | scripts/nodes/Player.cs:72-80 | the depth-first search returns the first hit in child order: it comes from child i and no earlier child's search found anything |
| Players.FindIsComplete | scripts/nodes/Player.cs:63-83 | the result is null iff no HealthComponent exists in the subtree |
| Players.ChildNamed | scripts/nodes/Player.cs:68 | the name lookup finds a child with that name, or reports that none has it |
| Players.Axis | scripts/nodes/Player.cs:94-101 | each intent component lies in {-1, 0, 1}; it is 0 iff both or neither key is held (opposite keys cancel) |
| Players.Player.Ready | scripts/nodes/Player.cs:24-43 | the player starts still, holding the sword hitbox if one was found |
| Players.Player.Attack | scripts/nodes/Player.cs:47-60 | with a sword hitbox, exactly one Enable(0.2); without one, nothing |
| Players.Player.PhysicsProcess | scripts/nodes/Player.cs:84-110 | the attack key enables the hitbox within the tick, before movement; no net input gives exactly zero velocity; otherwise Speed along the key intent |
| Scene.DeliverHits | scripts/nodes/Enemy.cs:225-232 | sending TakeDamage to each returned probe, for any amount, leaves every reached HealthComponent at the health after as many hits as probes forwarding to it |
| Scene.AfterStrikesIsTotal | scripts/nodes/Enemy.cs:225-232 | k hits of a non-negative amount on non-negative health leave max(0, health − k × amount) |
| Scene.StrikeEnemy | scripts/components/HealthComponent.cs:42-50 | damage through an enemy's probe: a lethal hit runs OnDied and leaves the enemy dead and queued for free, even when a death clip started; a non-lethal one leaves the enemy untouched |
| Scene.ProbeEntersZone | scripts/nodes/Enemy.cs:246-251 | a player probe entering a ready enemy's zone takes the contact damage once, whatever its sign; otherwise its health does not change |

## Left out

- Engine physics is not modelled. `MoveAndSlide`, `IsOnFloor` and collision
  detection are opaque to the code. The floor flag and the velocity after
  resolution come in as parameters.
- Floating point is not modelled. Vectors and speeds are `real`. `Length()`
  tests compare squared lengths. `Normalized()` is dropped:
  - the enemy keeps its facing unnormalised, which picks the same clips
    (`Enemies.SuffixIgnoresScale`);
  - the player's velocity is kept as its speed and its unnormalised integer
    direction (`Motion`).
- Real time is not modelled. Each timer is a pending event that may fire at
  any point. Hitbox disable timers record their duration, which is never
  compared. Health tint reverts record only the sprite; their fixed 0.1 s is not
  stored.
- The AttackCooldownTimer is taken to be one-shot. Its settings live in the
  scene file, which is not part of this model.
- Animation playback is not modelled (`Play`, `Stop`, frames, clip length).
  Neither are colour values or logging. A clip is a name in a set, and the
  tint is a boolean.
- Scene-tree lookups (`GetNode*`), signal connection and camera activation are
  not modelled. They are replaced by references fixed at construction:
  - `Hurtbox.health` holds its parent's HealthComponent child, and is not
    looked up again on each call;
  - `Node.sprite` is a node's child named `Sprite2D`;
  - the enemy's sprite, clips and cooldown timer are constant fields.

  Reparenting at run time is therefore not captured.
- `_on_hitbox_area_exited` and `_on_aggro_radius_body_entered` are not
  connected in `_Ready`; the scene editor presumably wires them. They are
  modelled as handlers that the caller invokes.
- `Enemy.OnHurtAnimationFinished` is never connected or called, so it is left
  out.
- The repository-root `Player.cs` duplicates the movement code of
  `scripts/nodes/Player.cs`, so it is left out.
- The `EnemyAttackHitbox` type is not part of this model. Its `Damage` is an
  optional constant, and the default is 10.
- The enemy's tracked probes are Hurtboxes. `Call("TakeDamage")` on an area
  that has no such method is not modelled.
- Scene faults are not modelled. `area.GetParent()` returning null makes the
  source throw; the model instead takes group membership as a parameter.
  Missing nodes under `GetNode<>` in `Enemy._Ready` are likewise not modelled.
- Signals are modelled as return values, and `Scene` dispatches them. In the
  source, `Died` handlers run before the parent is queued for free; the model
  runs them after. The final state is the same, because both steps only set
  the same flag.
- Dash, jump, attack combos, patrol and push physics have no code in these
  files, so they are not modelled.
- Scene.DeliverHits: states only the health each reached HealthComponent ends
  with. It does not state the tint, revert and free effects of each hit; those
  are in `Health.HealthComponent.TakeDamage`.
- Players.Player.PhysicsProcess: does not compute the vector `Speed` times the
  normalised intent. That needs a square root. `Motion.Moving` holds the speed
  and the intent instead.
- Enemies.Enemy.PhysicsProcess: gravity is `900 × delta` over the reals. The
  source's single-precision rounding is not modelled.
- Scene.ProbeEntersZone: requires that the probe does not belong to the enemy
  itself.
