/** The game session: the ordered list of live characters, the current selection,
    and the defence boosts whose expiry timers have not fired yet. */
module Sessions {
  import opened Stats
  import opened Seqs
  import opened Entities
  import opened Targeting

  /** A Defend timer that has not fired: when it fires, `who.def` is set back to
      `oldDef`, the value it had when the command ran. */
  datatype DefendExpiry = DefendExpiry(who: Character, oldDef: int)

  /** Where a click in the camera view landed: on empty space, or on the box of the
      character with instance id `id`. */
  datatype Click = Background | OnCharacter(id: string)

  class Game {
    /** Live characters in spawn order. */
    var characters: seq<Character>
    var selected: Character?
    /** Defend timers in the order they were started; they all run for the same
        3000 ms, so they fire in this order. */
    var pending: seq<DefendExpiry>

    /** The selection is a live character, and each character is listed once. */
    ghost predicate Valid()
      reads this
    {
      (selected != null ==> selected in characters) && Distinct(characters)
    }

    /** Every live character's health lies between zero and its maximum. */
    ghost predicate HealthInRange()
      reads this, characters
    {
      forall c :: c in characters ==> 0 <= c.hp <= c.maxHp
    }

    constructor ()
      ensures Valid() && HealthInRange()
      ensures characters == [] && selected == null && pending == []
    {
      characters := [];
      selected := null;
      pending := [];
    }

    /** Spawns a character from `spec` at `(x, y)` clamped into a camera view of
        `width` by `height`, and appends it to the list. */
    method Spawn(spec: CardSpec, suffix: string, x: int, y: int, width: int, height: int)
      returns (c: Character)
      requires Valid()
      modifies this
      ensures Valid() && fresh(c)
      ensures characters == old(characters) + [c]
      ensures c.id == spec.id + "-" + suffix && c.name == spec.name
      ensures c.maxHp == spec.hp && c.hp == spec.hp && c.atk == spec.atk && c.def == spec.def
      ensures c.x == Clamp(x, width) && c.y == Clamp(y, height)
      ensures selected == old(selected) && pending == old(pending)
      ensures old(HealthInRange()) && spec.hp >= 0 ==> HealthInRange()
    {
      var cx := Max(0, Min(x, width - Footprint));
      var cy := Max(0, Min(y, height - Footprint));
      c := new Character(spec, suffix, cx, cy);
      AppendKeepsDistinct(characters, c);
      characters := characters + [c];
    }

    /** Removes every occurrence of `c` and clears the selection if it was `c`. */
    method Remove(c: Character)
      requires Valid()
      modifies this
      ensures Valid()
      ensures characters == Without(old(characters), c)
      ensures forall i :: 0 <= i < |old(characters)| && old(characters)[i] == c ==>
                characters == old(characters)[..i] + old(characters)[i + 1..]
      ensures c !in old(characters) ==> characters == old(characters)
      ensures selected == if old(selected) == c then null else old(selected)
      ensures pending == old(pending)
      ensures old(HealthInRange()) ==> HealthInRange()
    {
      ghost var before := characters;
      WithoutKeepsDistinct(characters, c);
      characters := Without(characters, c);
      if selected == c {
        selected := null;
      } else if selected != null {
        WithoutKeepsOthers(before, c, selected);
      }
      forall i | 0 <= i < |before| && before[i] == c
        ensures characters == before[..i] + before[i + 1..]
      {
        WithoutRemovesOne(before, i);
      }
      if c !in before {
        WithoutAbsent(before, c);
      }
    }

    /** Toggles the selection of the first character with instance id `id`; an id of
        no live character changes nothing. */
    method SelectById(id: string)
      requires Valid()
      modifies this
      ensures Valid()
      ensures old(HealthInRange()) ==> HealthInRange()
      ensures characters == old(characters) && pending == old(pending)
      ensures var c := FindById(old(characters), id);
              if c == null then selected == old(selected)
              else if c == old(selected) then selected == null
              else selected == c
    {
      var c := FindById(characters, id);
      if c == null {
        return;
      }
      if selected == c {
        ClearSelection();
        return;
      }
      selected := c;
    }

    /** Drops the selection. */
    method ClearSelection()
      requires Valid()
      modifies this
      ensures Valid()
      ensures old(HealthInRange()) ==> HealthInRange()
      ensures selected == null
      ensures characters == old(characters) && pending == old(pending)
    {
      selected := null;
    }

    /** The character closest to `target` among the others, the earliest in the list
        on a tie, or null when there is no other character. */
    method FindNearest(target: Character) returns (best: Character?)
      ensures best == Nearest(characters, target)
    {
      best := null;
      // Stands for the source's initial Infinity while `best` is null.
      var bestDist := 0;
      var i := 0;
      while i < |characters|
        invariant 0 <= i <= |characters|
        invariant best == Nearest(characters[..i], target)
        invariant best != null ==> bestDist == DistSq(best, target)
      {
        var c := characters[i];
        assert characters[..i + 1][..i] == characters[..i];
        if c != target {
          var d := DistSq(c, target);
          if best == null || d < bestDist {
            best, bestDist := c, d;
          }
        }
        i := i + 1;
      }
      assert characters[..i] == characters;
    }

    /** `attacker` strikes `target`: the target takes damage of the attacker's attack
        and is removed when its health is down to zero. Returns the damage dealt. */
    method ResolveAttack(attacker: Character, target: Character) returns (dmg: int)
      requires Valid()
      modifies this, target
      ensures Valid()
      ensures dmg == Mitigate(attacker.atk, old(target.def))
      ensures target.hp == AfterDamage(old(target.hp), dmg) && target.def == old(target.def)
      ensures characters == if target.hp <= 0 then Without(old(characters), target) else old(characters)
      ensures selected == if target.hp <= 0 && old(selected) == target then null else old(selected)
      ensures pending == old(pending)
      ensures old(HealthInRange()) ==> HealthInRange()
    {
      dmg := target.TakeDamage(attacker.atk);
      if target.hp <= 0 {
        Remove(target);
      }
    }

    /** `attacker` strikes the character nearest to it, if there is one. */
    method AutoAttack(attacker: Character)
      requires Valid()
      modifies this, characters
      ensures Valid()
      ensures var t := Nearest(old(characters), attacker);
              if t == null then
                characters == old(characters) && selected == old(selected)
              else
                t.hp == AfterDamage(old(t.hp), Mitigate(attacker.atk, old(t.def))) &&
                characters == (if t.hp <= 0 then Without<Character>(old(characters), t) else old(characters)) &&
                selected == (if t.hp <= 0 && old(selected) == t then null else old(selected))
      ensures forall c :: c in old(characters) && c != Nearest(old(characters), attacker) ==> c.hp == old(c.hp)
      ensures forall c :: c in old(characters) ==> c.def == old(c.def)
      ensures pending == old(pending)
      ensures old(HealthInRange()) ==> HealthInRange()
    {
      var target := FindNearest(attacker);
      if target == null {
        return;
      }
      var dmg := ResolveAttack(attacker, target);
    }

    /** The Attack command: the selected character strikes its nearest other
        character; nothing happens without a selection. */
    method CommandAttack()
      requires Valid()
      modifies this, characters
      ensures Valid()
      ensures old(selected) == null ==>
                characters == old(characters) && selected == null
      ensures old(selected) != null ==>
                var t := Nearest(old(characters), old(selected));
                selected == old(selected) &&
                (t == null ==> characters == old(characters)) &&
                (t != null ==>
                   t.hp == AfterDamage(old(t.hp), Mitigate(selected.atk, old(t.def))) &&
                   characters == if t.hp <= 0 then Without<Character>(old(characters), t) else old(characters))
      ensures forall c :: c in old(characters) && (old(selected) == null || c != Nearest(old(characters), old(selected))) ==>
                c.hp == old(c.hp)
      ensures forall c :: c in old(characters) ==> c.def == old(c.def)
      ensures pending == old(pending)
      ensures old(HealthInRange()) ==> HealthInRange()
    {
      if selected == null {
        return;
      }
      AutoAttack(selected);
    }

    /** The Defend command: raises the selected character's defence by the bonus and
        starts a timer that will restore the value it had now. */
    method CommandDefend()
      requires Valid()
      modifies this, characters
      ensures Valid()
      ensures characters == old(characters) && selected == old(selected)
      ensures old(selected) == null ==> pending == old(pending)
      ensures old(selected) != null ==>
                selected.def == old(selected.def) + DefendBonus &&
                pending == old(pending) + [DefendExpiry(selected, old(selected.def))]
      ensures forall c :: c in old(characters) && c != old(selected) ==> c.def == old(c.def)
      ensures forall c :: c in old(characters) ==> c.hp == old(c.hp)
      ensures HealthInRange() == old(HealthInRange())
    {
      if selected == null {
        return;
      }
      var who := selected;
      var oldDef := who.def;
      who.def := who.def + DefendBonus;
      pending := pending + [DefendExpiry(who, oldDef)];
    }

    /** The oldest Defend timer fires: the defence of its character, live or not, is
        set back to the value recorded when the command ran. The step exists only
        while some timer is pending. */
    method ExpireDefend()
      requires Valid() && pending != []
      modifies this, pending[0].who
      ensures Valid()
      ensures var e := old(pending[0]);
              e.who.def == e.oldDef && e.who.hp == old(e.who.hp)
      ensures pending == old(pending[1..])
      ensures characters == old(characters) && selected == old(selected)
      ensures forall c :: c in characters && c != old(pending[0].who) ==> c.def == old(c.def)
      ensures HealthInRange() == old(HealthInRange())
    {
      var e := pending[0];
      e.who.def := e.oldDef;
      pending := pending[1..];
    }

    /** The Heal command: heals the selected character by the fixed amount; nothing
        happens without a selection. */
    method CommandHeal()
      requires Valid()
      modifies characters
      ensures Valid()
      ensures selected != null ==> selected.hp == AfterHeal(old(selected.hp), selected.maxHp, HealAmount)
      ensures forall c :: c in characters && c != selected ==> c.hp == old(c.hp)
      ensures forall c :: c in characters ==> c.def == old(c.def)
      ensures old(HealthInRange()) ==> HealthInRange()
    {
      if selected == null {
        return;
      }
      selected.Heal(HealAmount);
    }

    /** The camera's own click handler. A click on empty space drops the selection.
        A click on a character attacks it with the selected character when a different
        character is selected, and otherwise toggles its selection. In the game
        each character's own click handler stops the click before it reaches
        this handler, so there a click on a character only toggles its selection
        (`SelectById`); this operation is the handler as written. */
    method CameraClick(click: Click)
      requires Valid()
      modifies this, characters
      ensures Valid()
      ensures pending == old(pending)
      ensures click.Background? ==> selected == null && characters == old(characters)
      ensures click.OnCharacter? ==>
                var t := FindById(old(characters), click.id);
                if old(selected) != null && t != null && t != old(selected) then
                  t.hp == AfterDamage(old(t.hp), Mitigate(old(selected).atk, old(t.def))) &&
                  characters == (if t.hp <= 0 then Without<Character>(old(characters), t) else old(characters)) &&
                  selected == old(selected)
                else
                  characters == old(characters) &&
                  selected == (if t == null then old(selected) else if t == old(selected) then null else t)
      ensures forall c :: c in old(characters) && (click.Background? || c != FindById(old(characters), click.id)) ==>
                c.hp == old(c.hp)
      ensures forall c :: c in old(characters) ==> c.def == old(c.def)
      ensures old(HealthInRange()) ==> HealthInRange()
    {
      if click.Background? {
        ClearSelection();
        return;
      }
      var clicked := FindById(characters, click.id);
      if selected != null && clicked != null && clicked != selected {
        var dmg := ResolveAttack(selected, clicked);
      } else {
        SelectById(click.id);
      }
    }
  }
}
