/** `ShootEmUp.HealthComponent`: hit points that each hit sets to
    `max(0, Health - damage)` in 32-bit arithmetic, so that they are never
    negative after a hit, and that stay at zero once they get there. A
    negative maximum starts below zero, and negative damage heals. */
module Health {
  import opened Int32

  /** `Math.Max(0, health - damage)`, the subtraction being unchecked 32-bit
      arithmetic as C# compiles it by default. */
  function Damaged(health: int32, damage: int32): (r: int32)
    ensures r >= 0
    ensures MinValue <= health as int - damage as int <= MaxValue ==>
              r as int == if health as int - damage as int <= 0 then 0 else health as int - damage as int
    ensures 0 <= damage && 0 <= health ==> r <= health
    ensures 0 <= health <= damage ==> r == 0
  {
    var diff := Wrap(health as int - damage as int);
    if diff < 0 then 0 else diff
  }

  /** The hit points after one `TakeDamage(damage)`. */
  function AfterHit(health: int32, damage: int32): int32 {
    if health == 0 then 0 else Damaged(health, damage)
  }

  /** The hit points after `TakeDamage` with each of `damages` in turn. */
  function AfterHits(health: int32, damages: seq<int32>): int32
    decreases |damages|
  {
    if damages == [] then health else AfterHits(AfterHit(health, damages[0]), damages[1..])
  }

  /** Zero is absorbing: no sequence of hits, healing ones included, revives. */
  lemma {:induction false} ZeroIsAbsorbing(damages: seq<int32>)
    ensures AfterHits(0, damages) == 0
    decreases |damages|
  {
    if damages != [] {
      ZeroIsAbsorbing(damages[1..]);
    }
  }

  /** After at least one hit the hit points are not negative, even when the
      component was built with a negative maximum. */
  lemma {:induction false} HitsLeaveNonNegative(health: int32, damages: seq<int32>)
    requires damages != []
    ensures AfterHits(health, damages) >= 0
    decreases |damages|
  {
    var next := AfterHit(health, damages[0]);
    if damages[1..] != [] {
      HitsLeaveNonNegative(next, damages[1..]);
    }
  }

  /** Damage that is not negative never raises the hit points. */
  lemma {:induction false} HitsNeverHeal(health: int32, damages: seq<int32>)
    requires 0 <= health
    requires forall i :: 0 <= i < |damages| ==> 0 <= damages[i]
    ensures 0 <= AfterHits(health, damages) <= health
    decreases |damages|
  {
    if damages != [] {
      HitsNeverHeal(AfterHit(health, damages[0]), damages[1..]);
    }
  }

  /** Once the hit points reach zero, later hits leave them there. */
  lemma {:induction false} DeadStaysDead(health: int32, before: seq<int32>, after: seq<int32>)
    requires AfterHits(health, before) == 0
    ensures AfterHits(health, before + after) == 0
    decreases |before|
  {
    if before == [] {
      assert before + after == after;
      ZeroIsAbsorbing(after);
    } else {
      assert (before + after)[1..] == before[1..] + after;
      DeadStaysDead(AfterHit(health, before[0]), before[1..], after);
    }
  }

  class HealthComponent {
    /** `Health`. */
    var health: int32
    /** `MaxHealth`. */
    var maxHealth: int32
    /** The values `OnStateChanged` has been raised with, oldest first. */
    ghost var stateChanges: seq<int32>

    /** `new HealthComponent(maxHealth)`: full health. */
    constructor(maxHealth: int32)
      ensures this.maxHealth == maxHealth && health == maxHealth
      ensures stateChanges == []
    {
      this.maxHealth := maxHealth;
      health := maxHealth;
      stateChanges := [];
    }

    /** `TakeDamage(damage)`: at zero nothing happens; otherwise the hit
        points become `max(0, Health - damage)` and `OnStateChanged` is raised
        once with the new value. `MaxHealth` is never touched. */
    method TakeDamage(damage: int32)
      modifies this
      ensures health == AfterHit(old(health), damage)
      ensures old(health) != 0 ==> health >= 0
      ensures old(health) == 0 ==> health == 0
      ensures maxHealth == old(maxHealth)
      ensures stateChanges == old(stateChanges) + (if old(health) == 0 then [] else [health])
    {
      if health == 0 {
        assert stateChanges + [] == stateChanges;
        return;
      }
      var diff := Wrap(health as int - damage as int);
      health := if 0 < diff then diff else 0;
      stateChanges := stateChanges + [health];
    }
  }
}
