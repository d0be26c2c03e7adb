/** Stat arithmetic of a combatant: damage reduced by defence, healing capped at
    the maximum, and the clamping of a spawn position into the camera view. */
module Stats {

  /** Defence added by the Defend command. */
  const DefendBonus: int := 5

  /** Health restored by the Heal command. */
  const HealAmount: int := 20

  /** Side length of a character's box; a spawn position keeps the whole box inside the view. */
  const Footprint: int := 60

  function Max(a: int, b: int): int { if a < b then b else a }

  function Min(a: int, b: int): int { if a < b then a else b }

  /** The damage an attack of strength `amount` deals through defence `def`:
      the least non-negative value that is at least `amount - def`. */
  function Mitigate(amount: int, def: int): (dmg: int)
    ensures dmg >= 0 && dmg >= amount - def
    ensures dmg == 0 || dmg == amount - def
    ensures amount <= def <==> dmg == 0
  {
    Max(0, amount - def)
  }

  /** Health left after losing `dmg`: never below zero. */
  function AfterDamage(hp: int, dmg: int): (r: int)
    ensures r >= 0 && r >= hp - dmg
    ensures r == 0 || r == hp - dmg
  {
    Max(0, hp - dmg)
  }

  /** Health after healing by `amount`: never above `maxHp`. */
  function AfterHeal(hp: int, maxHp: int, amount: int): (r: int)
    ensures r <= maxHp && r <= hp + amount
    ensures r == maxHp || r == hp + amount
  {
    Min(maxHp, hp + amount)
  }

  /** A damage step from a non-negative health never raises it and never takes it below zero. */
  lemma DamageStaysInRange(hp: int, amount: int, def: int)
    requires hp >= 0
    ensures 0 <= AfterDamage(hp, Mitigate(amount, def)) <= hp
  {
  }

  /** The health actually lost is the smaller of the current health and the damage
      dealt, so the reported damage exceeds the loss exactly when the blow is lethal
      with damage to spare (overkill). */
  lemma HealthLost(hp: int, amount: int, def: int)
    requires hp >= 0
    ensures var dmg := Mitigate(amount, def);
            hp - AfterDamage(hp, dmg) == Min(hp, dmg) &&
            (dmg > hp - AfterDamage(hp, dmg) <==> dmg > hp)
  {
  }

  /** A heal by a non-negative amount from a health at most the maximum never lowers
      the health and never exceeds the maximum. */
  lemma HealStaysInRange(hp: int, maxHp: int, amount: int)
    requires amount >= 0 && hp <= maxHp
    ensures hp <= AfterHeal(hp, maxHp, amount) <= maxHp
  {
  }

  /** Clamps one coordinate of a spawn position into `[0, extent - Footprint]`,
      or to 0 when the view is narrower than a character. */
  function Clamp(v: int, extent: int): (r: int)
    ensures 0 <= r <= Max(0, extent - Footprint)
    ensures 0 <= v <= extent - Footprint ==> r == v
    ensures v <= 0 ==> r == 0
    ensures v >= extent - Footprint ==> r == Max(0, extent - Footprint)
  {
    Max(0, Min(v, extent - Footprint))
  }
}
