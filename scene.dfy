/** How the components are wired in a scene: a HealthComponent's `Died`
    signal runs the owning enemy's `OnDied`, and the probes an enemy's
    contact handlers return are each sent `TakeDamage`. */
module Scene {
  import opened Engine
  import opened Health
  import opened Hurtboxes
  import opened Enemies

  /** Number of entries of `hits` that forward to `health`. */
  ghost function Strikes(hits: seq<Hurtbox>, health: HealthComponent): nat
  {
    if hits == [] then 0
    else (if hits[0].health == health then 1 else 0) + Strikes(hits[1..], health)
  }

  /** Objects that delivering `hits` may change. */
  ghost function HitsFootprint(hits: seq<Hurtbox>): set<object>
  {
    if hits == [] then {} else hits[0].Footprint() + HitsFootprint(hits[1..])
  }

  lemma {:induction false} StrikesAppend(hits: seq<Hurtbox>, h: Hurtbox, health: HealthComponent)
    ensures Strikes(hits + [h], health) == Strikes(hits, health) + (if h.health == health then 1 else 0)
  {
    if hits != [] {
      assert (hits + [h])[1..] == hits[1..] + [h];
      StrikesAppend(hits[1..], h, health);
    }
  }

  lemma {:induction false} HitsFootprintCovers(hits: seq<Hurtbox>, i: nat)
    requires i < |hits|
    ensures hits[i].Footprint() <= HitsFootprint(hits)
  {
    if i > 0 {
      HitsFootprintCovers(hits[1..], i - 1);
    }
  }

  /** The HealthComponents that the probes of `hits` forward to. */
  ghost function Healths(hits: seq<Hurtbox>): set<HealthComponent>
  {
    set i | 0 <= i < |hits| && hits[i].health != null :: hits[i].health
  }

  /** Health left after `strikes` hits of `amount` in a row. */
  function AfterStrikes(health: int, amount: int, strikes: nat): int
    decreases strikes
  {
    if strikes == 0 then health else Damaged(AfterStrikes(health, amount, strikes - 1), amount)
  }

  /** For a non-negative C# `int` amount on non-negative health, k hits take
      off k times the amount, clamped at zero. */
  lemma {:induction false} AfterStrikesIsTotal(health: int, amount: int, k: nat)
    requires 0 <= health <= Int32Max && 0 <= amount <= Int32Max
    ensures AfterStrikes(health, amount, k) == if health <= amount * k then 0 else health - amount * k
    decreases k
  {
    if k > 0 {
      AfterStrikesIsTotal(health, amount, k - 1);
      assert amount * k == amount * (k - 1) + amount;
      assert amount * (k - 1) >= 0;
    }
  }

  /** Sends `TakeDamage(amount)` to each probe of `hits` in order: every
      HealthComponent reached takes one hit per probe that forwards to it;
      no other health changes (the frame). */
  method DeliverHits(hits: seq<Hurtbox>, amount: int)
    modifies HitsFootprint(hits)
    ensures forall hc :: hc in Healths(hits) ==>
      hc.currentHealth == AfterStrikes(old(hc.currentHealth), amount, Strikes(hits, hc))
  {
    var i := 0;
    while i < |hits|
      invariant 0 <= i <= |hits|
      invariant forall hc :: hc in Healths(hits) ==>
        hc.currentHealth == AfterStrikes(old(hc.currentHealth), amount, Strikes(hits[..i], hc))
    {
      HitsFootprintCovers(hits, i);
      var h := hits[i];
      var _ := h.TakeDamage(amount);
      assert hits[..i + 1] == hits[..i] + [h];
      forall hc | hc in Healths(hits)
        ensures hc.currentHealth == AfterStrikes(old(hc.currentHealth), amount, Strikes(hits[..i + 1], hc))
      {
        StrikesAppend(hits[..i], h, hc);
      }
      i := i + 1;
    }
    assert hits[..i] == hits;
  }

  /** Damage reaching an enemy through one of its probes. When it is lethal
      the `Died` signal runs OnDied, and the enemy is queued for free at
      once, even when OnDied started a death clip and meant to free it only
      when the clip ends. */
  method StrikeEnemy(hurtbox: Hurtbox, e: Enemy, amount: int) returns (died: bool)
    requires hurtbox.health != null && hurtbox.health.parent == e.node
    requires e.Valid()
    modifies hurtbox.Footprint(), e
    ensures e.Valid()
    ensures hurtbox.health.currentHealth == Damaged(old(hurtbox.health.currentHealth), amount)
    ensures died <==> hurtbox.health.currentHealth == 0
    ensures died ==> e.isDead && e.node.queuedForFree
    ensures !died ==> unchanged(e) && e.node.queuedForFree == old(e.node.queuedForFree)
  {
    died := hurtbox.TakeDamage(amount);
    if died {
      e.OnDied();
    }
  }

  /** A probe of another entity enters an enemy's attack zone; the probes
      the handler picks are hit with the enemy's contact damage. */
  method ProbeEntersZone(e: Enemy, area: Hurtbox, inPlayerGroup: bool) returns (hits: seq<Hurtbox>)
    requires e.Valid()
    requires area.health != null ==> area.health.parent != e.node
    modifies e, area.Footprint()
    ensures e.Valid()
    ensures inPlayerGroup && old(e.canAttack) && area.health != null ==>
      area.health.currentHealth == Damaged(old(area.health.currentHealth), e.ContactDamage())
    ensures !(inPlayerGroup && old(e.canAttack)) && area.health != null ==>
      area.health.currentHealth == old(area.health.currentHealth)
  {
    hits := e.OnHitboxAreaEntered(area, inPlayerGroup);
    assert HitsFootprint(hits) <= area.Footprint();
    DeliverHits(hits, e.ContactDamage());
    if area.health != null && inPlayerGroup && old(e.canAttack) {
      assert area.health in Healths(hits);
      assert Strikes(hits, area.health) == 1;
    }
  }
}
