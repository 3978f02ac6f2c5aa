/** HealthComponent: an integer health clamped at zero, a red-tint pulse on
    the owner's sprite, the `Died` signal and destruction of the owner. */
module Health {
  import opened Engine

  /** Default of the exported `MaxHealth`. */
  const DefaultMaxHealth := 100

  /** Bounds of a C# `int`. */
  const Int32Min := -0x8000_0000
  const Int32Max := 0x7FFF_FFFF

  predicate IsInt32(x: int)
  {
    Int32Min <= x <= Int32Max
  }

  /** C# `int` arithmetic is unchecked: a result outside the 32-bit range
      wraps around modulo 2^32. */
  function Wrap32(x: int): (w: int)
    ensures IsInt32(w)
    ensures IsInt32(x) ==> w == x
    ensures Int32Max < x <= Int32Max - Int32Min ==> w == x - 0x1_0000_0000
  {
    (x - Int32Min) % 0x1_0000_0000 + Int32Min
  }

  /** Health left after a hit of `amount`: the wrapping 32-bit subtraction,
      clamped at zero. When the subtraction does not overflow, overkill is
      discarded and otherwise the amount is taken off exactly. */
  function Damaged(health: int, amount: int): (r: int)
    ensures 0 <= r <= Int32Max
    ensures IsInt32(health - amount) ==> (r == 0 <==> health <= amount)
    ensures IsInt32(health - amount) && r != 0 ==> r == health - amount
  {
    var d := Wrap32(health - amount);
    if d < 0 then 0 else d
  }

  /** Non-negative damage never heals and keeps health within [0, max]. */
  lemma DamageStaysInRange(health: int, maxHealth: int, amount: int)
    requires 0 <= health <= maxHealth <= Int32Max && 0 <= amount <= Int32Max
    ensures 0 <= Damaged(health, amount) <= health <= maxHealth
  {
  }

  /** A negative amount is not rejected: below the 32-bit limit it raises
      health, even above the maximum. */
  lemma NegativeDamageHeals(maxHealth: int)
    requires 0 <= maxHealth < Int32Max
    ensures Damaged(maxHealth, -1) == maxHealth + 1
  {
  }

  /** A heal that would carry health past `int.MaxValue` wraps to a
      negative value, which the clamp turns into 0: the hit kills. */
  lemma OverhealKills(health: int, amount: int)
    requires IsInt32(health) && IsInt32(amount) && health - amount > Int32Max
    ensures Damaged(health, amount) == 0
  {
    assert Wrap32(health - amount) == health - amount - 0x1_0000_0000;
  }

  /** Two clamped non-negative hits take off their sum, clamped at zero. */
  lemma DamageComposes(health: int, a: int, b: int)
    requires 0 <= health <= Int32Max && 0 <= a <= Int32Max && 0 <= b <= Int32Max
    ensures Damaged(Damaged(health, a), b) == if health <= a + b then 0 else health - (a + b)
  {
  }

  function Sum(amounts: seq<int>): int
  {
    if amounts == [] then 0 else amounts[0] + Sum(amounts[1..])
  }

  /** Every amount is a non-negative C# `int`. */
  predicate AllNonNegative(amounts: seq<int>)
  {
    forall i :: 0 <= i < |amounts| ==> 0 <= amounts[i] <= Int32Max
  }

  lemma {:induction false} SumNonNegative(amounts: seq<int>)
    requires AllNonNegative(amounts)
    ensures Sum(amounts) >= 0
  {
    if amounts != [] {
      SumNonNegative(amounts[1..]);
    }
  }

  /** Health after a series of TakeDamage calls. */
  function HealthAfter(health: int, amounts: seq<int>): int
    decreases amounts
  {
    if amounts == [] then health else HealthAfter(Damaged(health, amounts[0]), amounts[1..])
  }

  /** Whether each of a series of TakeDamage calls emits `Died`. */
  function DiedTrace(health: int, amounts: seq<int>): (r: seq<bool>)
    ensures |r| == |amounts|
    decreases amounts
  {
    if amounts == [] then []
    else [Damaged(health, amounts[0]) == 0] + DiedTrace(Damaged(health, amounts[0]), amounts[1..])
  }

  /** A series of non-negative hits takes off their total, clamped at
      zero. */
  lemma {:induction false} HealthAfterIsTotalDamage(health: int, amounts: seq<int>)
    requires 0 <= health <= Int32Max && AllNonNegative(amounts)
    ensures HealthAfter(health, amounts) == if health <= Sum(amounts) then 0 else health - Sum(amounts)
    decreases amounts
  {
    if amounts != [] {
      SumNonNegative(amounts[1..]);
      HealthAfterIsTotalDamage(Damaged(health, amounts[0]), amounts[1..]);
    }
  }

  /** Call i emits `Died` exactly when the damage dealt so far, that call
      included, has used up the starting health. */
  lemma {:induction false} DiedExactlyWhenUsedUp(health: int, amounts: seq<int>, i: nat)
    requires 0 <= health <= Int32Max && AllNonNegative(amounts) && i < |amounts|
    ensures DiedTrace(health, amounts)[i] <==> health <= Sum(amounts[..i + 1])
    decreases i
  {
    if i == 0 {
      assert amounts[..1] == [amounts[0]];
      assert Sum(amounts[..1]) == amounts[0] + Sum([]);
    } else {
      var h1 := Damaged(health, amounts[0]);
      SumNonNegative(amounts[1..i + 1]);
      DiedExactlyWhenUsedUp(h1, amounts[1..], i - 1);
      assert amounts[1..][..i] == amounts[1..i + 1];
      assert amounts[..i + 1][1..] == amounts[1..i + 1];
      assert Sum(amounts[..i + 1]) == amounts[0] + Sum(amounts[1..i + 1]);
    }
  }

  /** There is no once-only guard: with non-negative hits, once a call has
      emitted `Died`, every later call emits it again. */
  lemma {:induction false} DiedRepeats(health: int, amounts: seq<int>, i: nat, j: nat)
    requires AllNonNegative(amounts) && i <= j < |amounts|
    requires DiedTrace(health, amounts)[i]
    ensures DiedTrace(health, amounts)[j]
    decreases i
  {
    if i > 0 {
      DiedRepeats(Damaged(health, amounts[0]), amounts[1..], i - 1, j - 1);
    } else if j > 0 {
      var rest := amounts[1..];
      assert Damaged(health, amounts[0]) == 0;
      DiedFromZero(rest, j - 1);
    }
  }

  lemma {:induction false} DiedFromZero(amounts: seq<int>, j: nat)
    requires AllNonNegative(amounts) && j < |amounts|
    ensures DiedTrace(0, amounts)[j]
  {
    if j > 0 {
      DiedFromZero(amounts[1..], j - 1);
    }
  }

  /** 100 health, hits of 30 then 80: health ends at 0 and `Died` is emitted
      on the second call only; a third hit emits it again. */
  lemma ThirtyThenEighty()
    ensures HealthAfter(DefaultMaxHealth, [30, 80]) == 0
    ensures DiedTrace(DefaultMaxHealth, [30, 80]) == [false, true]
    ensures DiedTrace(DefaultMaxHealth, [30, 80, 5]) == [false, true, true]
  {
  }

  class HealthComponent {
    const maxHealth: int
    var currentHealth: int
    /** The node this component is a child of, if any. */
    const parent: Node?
    /** This component's own QueueFree, used when it has no parent. */
    var queuedForFree: bool
    /** Tint reverts scheduled on the scene tree's timers, in scheduling
        order, each holding the sprite it will restore. */
    var pendingReverts: seq<Sprite2D>

    /** Objects a TakeDamage call may change. */
    ghost function Footprint(): set<object>
    {
      {this} + (if parent == null then {} else {parent} + (if parent.sprite == null then {} else {parent.sprite}))
    }

    /** Everything one TakeDamage(amount) call does; `died` is the `Died`
        emission. */
    twostate predicate TookDamage(amount: int, died: bool)
      reads Footprint()
    {
      && currentHealth == Damaged(old(currentHealth), amount)
      && (died <==> currentHealth == 0)
      && (if parent != null && parent.sprite != null
          then parent.sprite.tinted && pendingReverts == old(pendingReverts) + [parent.sprite]
          else pendingReverts == old(pendingReverts))
      && (if parent != null
          then parent.queuedForFree == (old(parent.queuedForFree) || died) && queuedForFree == old(queuedForFree)
          else queuedForFree == (old(queuedForFree) || died))
    }

    /** Construction followed by `_Ready`: full health. */
    constructor Ready(maxHealth: int, parent: Node?)
      ensures this.maxHealth == maxHealth && this.parent == parent
      ensures currentHealth == maxHealth
      ensures !queuedForFree && pendingReverts == []
    {
      this.maxHealth := maxHealth;
      this.parent := parent;
      currentHealth := maxHealth;
      queuedForFree := false;
      pendingReverts := [];
    }

    method TakeDamage(amount: int) returns (died: bool)
      modifies Footprint()
      ensures TookDamage(amount, died)
      ensures parent != null && parent.sprite != null ==> parent.sprite.tinted
      ensures 0 <= amount <= Int32Max && 0 <= old(currentHealth) <= Int32Max ==> 0 <= currentHealth <= old(currentHealth)
    {
      currentHealth := Wrap32(currentHealth - amount);
      if currentHealth < 0 {
        currentHealth := 0;
      }
      if parent != null {
        var sprite := parent.sprite;
        if sprite != null {
          sprite.tinted := true;
          pendingReverts := pendingReverts + [sprite];
        }
      }
      died := currentHealth <= 0;
      if died {
        if parent != null {
          parent.queuedForFree := true;
        } else {
          queuedForFree := true;
        }
      }
    }

    /** The scene tree's 0.1 s timer number `i` fires: the sprite is
        restored only if it still exists. */
    method FireRevert(i: nat, spriteStillValid: bool)
      requires i < |pendingReverts|
      modifies this, pendingReverts[i]
      ensures pendingReverts == old(pendingReverts[..i] + pendingReverts[i + 1..])
      ensures old(pendingReverts[i]).tinted == (old(pendingReverts[i].tinted) && !spriteStillValid)
      ensures currentHealth == old(currentHealth) && queuedForFree == old(queuedForFree)
    {
      var sprite := pendingReverts[i];
      pendingReverts := pendingReverts[..i] + pendingReverts[i + 1..];
      if spriteStillValid {
        sprite.tinted := false;
      }
    }
  }
}
