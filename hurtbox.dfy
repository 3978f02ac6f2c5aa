/** Hurtbox: a passive probe that forwards a damage amount, unchanged and
    at once, to its owner's HealthComponent. It keeps no state of its own,
    and its `Damaged` signal is declared but never emitted. */
module Hurtboxes {
  import opened Health

  class Hurtbox {
    /** What `GetParent()?.GetNodeOrNull<HealthComponent>("HealthComponent")`
        finds: null when the hurtbox has no parent or the parent has no
        such child. */
    const health: HealthComponent?

    constructor (health: HealthComponent?)
      ensures this.health == health
    {
      this.health := health;
    }

    /** Objects a damage call may change: only the owner's health. */
    ghost function Footprint(): set<object>
    {
      if health == null then {} else health.Footprint()
    }

    method TakeDamage(amount: int) returns (died: bool)
      modifies Footprint()
      ensures health == null ==> !died
      ensures health != null ==> health.TookDamage(amount, died)
    {
      died := OnDamaged(amount);
    }

    method OnDamaged(amount: int) returns (died: bool)
      modifies Footprint()
      ensures health == null ==> !died
      ensures health != null ==> health.TookDamage(amount, died)
    {
      died := false;
      if health != null {
        died := health.TakeDamage(amount);
      }
    }
  }
}
