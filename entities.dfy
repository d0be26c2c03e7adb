/** The combatants: the card a character is spawned from and the character itself. */
module Entities {
  import opened Stats

  /** A card of the catalogue: the template a character is spawned from. */
  datatype CardSpec = CardSpec(id: string, name: string, hp: int, atk: int, def: int)

  /** A spawned combatant. Its identity, name, maximum health, attack and position
      are fixed when it is spawned; its health and defence change in place. */
  class Character {
    const id: string
    const name: string
    const maxHp: int
    var hp: int
    const atk: int
    var def: int
    /** Top-left corner of the character's box in the camera view. */
    const x: int
    const y: int

    /** A character made from `spec` at `(x, y)`, at full health. The instance id is
        the card id, a dash and `suffix` (a random number in the game). */
    constructor (spec: CardSpec, suffix: string, x: int, y: int)
      ensures id == spec.id + "-" + suffix && name == spec.name
      ensures maxHp == spec.hp && hp == spec.hp
      ensures atk == spec.atk && def == spec.def
      ensures this.x == x && this.y == y
    {
      id := spec.id + "-" + suffix;
      name := spec.name;
      maxHp := spec.hp;
      hp := spec.hp;
      atk := spec.atk;
      def := spec.def;
      this.x := x;
      this.y := y;
    }

    /** Takes a blow of strength `amount`: the defence absorbs up to `def` of it and the
        health drops by the rest, but not below zero. Returns the damage dealt, which
        may exceed the health actually lost. */
    method TakeDamage(amount: int) returns (dmg: int)
      modifies this
      ensures dmg == Mitigate(amount, old(def))
      ensures hp == AfterDamage(old(hp), dmg)
      ensures def == old(def)
    {
      dmg := Max(0, amount - def);
      hp := Max(0, hp - dmg);
    }

    /** Raises the health by `amount`, capped at the maximum. */
    method Heal(amount: int)
      modifies this
      ensures hp == AfterHeal(old(hp), maxHp, amount)
      ensures def == old(def)
    {
      hp := Min(maxHp, hp + amount);
    }
  }
}
