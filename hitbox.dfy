/** Hitbox: an active probe with a `Monitoring` switch. `Enable` turns it on
    and schedules one timer that turns it off; when a body enters, the first
    Hurtbox among the body's children takes `damage`. */
module Hitboxes {
  import opened Engine
  import opened Health
  import opened Hurtboxes

  const DefaultDamage := 10
  const DefaultWindow: real := 0.2

  /** A child of a body, as far as the hitbox can tell: a Hurtbox or not. */
  datatype Child = HurtboxChild(hurtbox: Hurtbox) | OtherChild

  /** Position of the first Hurtbox among `children`, in child order;
      None exactly when the body has no Hurtbox child. */
  function FirstHurtbox(children: seq<Child>): (r: Option<nat>)
    ensures r.None? <==> forall i :: 0 <= i < |children| ==> !children[i].HurtboxChild?
    ensures r.Some? ==>
      && r.value < |children| && children[r.value].HurtboxChild?
      && (forall j :: 0 <= j < r.value ==> !children[j].HurtboxChild?)
  {
    if children == [] then None
    else if children[0].HurtboxChild? then Some(0)
    else match FirstHurtbox(children[1..])
      case None => None
      case Some(k) => Some(k + 1)
  }

  /** The `foreach` over the body's children that stops (`break`) at the
      first Hurtbox. */
  method FindHurtbox(children: seq<Child>) returns (found: Hurtbox?)
    ensures found == null <==> forall i :: 0 <= i < |children| ==> !children[i].HurtboxChild?
    ensures found != null ==>
      exists i :: 0 <= i < |children| && children[i] == HurtboxChild(found) &&
                  (forall j :: 0 <= j < i ==> !children[j].HurtboxChild?)
  {
    var i := 0;
    while i < |children| && !children[i].HurtboxChild?
      invariant 0 <= i <= |children|
      invariant forall j :: 0 <= j < i ==> !children[j].HurtboxChild?
    {
      i := i + 1;
    }
    found := if i < |children| then children[i].hurtbox else null;
  }

  /** Objects OnBodyEntered may change: the footprint of the body's first
      Hurtbox. */
  ghost function StrikeFootprint(children: seq<Child>): set<object>
  {
    match FirstHurtbox(children)
    case None => {}
    case Some(k) => children[k].hurtbox.Footprint()
  }

  class Hitbox {
    const damage: int
    var monitoring: bool
    /** Durations of the disable timers started by `Enable`, in the order
        they were started; none is ever cancelled. */
    var pendingDisables: seq<real>

    /** Construction followed by `_Ready`: monitoring is off. */
    constructor Ready(damage: int)
      ensures this.damage == damage
      ensures !monitoring && pendingDisables == []
    {
      this.damage := damage;
      monitoring := false;
      pendingDisables := [];
    }

    /** Turns monitoring on at once and starts exactly one more disable
        timer; earlier timers keep running. */
    method Enable(duration: real)
      modifies this
      ensures monitoring
      ensures pendingDisables == old(pendingDisables) + [duration]
    {
      monitoring := true;
      pendingDisables := pendingDisables + [duration];
    }

    /** Disable timer number `i` fires. Whichever fires, monitoring ends,
        even when a later `Enable` opened a window that has time left. */
    method FireDisable(i: nat)
      requires i < |pendingDisables|
      modifies this
      ensures !monitoring
      ensures pendingDisables == old(pendingDisables[..i] + pendingDisables[i + 1..])
    {
      pendingDisables := pendingDisables[..i] + pendingDisables[i + 1..];
      monitoring := false;
    }

    /** Handler of `body_entered`: the first Hurtbox child of the body, if
        any, takes exactly `damage`, once. */
    method OnBodyEntered(children: seq<Child>) returns (died: bool)
      modifies StrikeFootprint(children)
      ensures FirstHurtbox(children).None? ==> !died
      ensures FirstHurtbox(children).Some? ==>
        var health := children[FirstHurtbox(children).value].hurtbox.health;
        if health == null then !died else health.TookDamage(damage, died)
    {
      died := false;
      var hurtbox := FindHurtbox(children);
      if hurtbox != null {
        died := hurtbox.TakeDamage(damage);
      }
    }

    /** The engine raises `body_entered` only while monitoring is on, so a
        disabled hitbox deals no damage whatever overlaps it. */
    method BodyOverlaps(children: seq<Child>) returns (died: bool)
      modifies StrikeFootprint(children)
      ensures !monitoring ==> !died && unchanged(StrikeFootprint(children))
      ensures monitoring && FirstHurtbox(children).Some? ==>
        var health := children[FirstHurtbox(children).value].hurtbox.health;
        if health == null then !died else health.TookDamage(damage, died)
    {
      died := false;
      if monitoring {
        died := OnBodyEntered(children);
      }
    }
  }

  /** Two attacks in quick succession: the first attack's timer ends the
      second attack's window early. */
  method OverlappingWindows()
  {
    var hitbox := new Hitbox.Ready(DefaultDamage);
    hitbox.Enable(DefaultWindow);
    hitbox.Enable(DefaultWindow);
    hitbox.FireDisable(0);
    assert !hitbox.monitoring && hitbox.pendingDisables == [DefaultWindow];
  }
}
