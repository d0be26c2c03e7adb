/** Whole-session behaviour: sequences of operations on a session, and sample
    play-throughs with concrete cards and positions. */
module Scenarios {
  import opened Stats
  import opened Entities
  import opened Targeting
  import opened Sessions

  /** Clicking the same live character twice, starting with nothing selected, ends
      with nothing selected. */
  method SelectTwiceFromNone(g: Game, id: string)
    requires g.Valid() && g.selected == null && FindById(g.characters, id) != null
    modifies g
    ensures g.Valid() && g.selected == null && g.characters == old(g.characters)
  {
    g.SelectById(id);
    g.SelectById(id);
  }

  /** One Defend followed by its timer leaves the selected character's defence where
      it was. */
  method DefendThenExpire(g: Game)
    requires g.Valid() && g.selected != null && g.pending == []
    modifies g, g.characters
    ensures g.Valid() && g.selected == old(g.selected) && g.pending == []
    ensures g.selected.def == old(g.selected.def)
  {
    g.CommandDefend();
    g.ExpireDefend();
  }

  /** Two overlapping Defends: the second records the already-boosted defence, so
      after both timers have fired in order the defence stays one bonus above where
      it started. */
  method DefendTwiceThenExpire(g: Game)
    requires g.Valid() && g.selected != null && g.pending == []
    modifies g, g.characters
    ensures g.Valid() && g.selected == old(g.selected) && g.pending == []
    ensures g.selected.def == old(g.selected.def) + DefendBonus
  {
    g.CommandDefend();
    g.CommandDefend();
    g.ExpireDefend();
    g.ExpireDefend();
  }

  /** With A at (0, 0), B at (10, 0) and C at (3, 0), the character nearest A is C. */
  method NearestOfThree() returns (nearestIsC: bool)
    ensures nearestIsC
  {
    var g := new Game();
    var a := g.Spawn(CardSpec("a", "A", 10, 1, 0), "1", 0, 0, 800, 600);
    var b := g.Spawn(CardSpec("b", "B", 10, 1, 0), "2", 10, 0, 800, 600);
    var c := g.Spawn(CardSpec("c", "C", 10, 1, 0), "3", 3, 0, 800, 600);
    assert g.characters == [a, b, c];
    assert [a, b, c][..2] == [a, b] && [a, b][..1] == [a] && [a][..0] == [];
    var n := g.FindNearest(a);
    nearestIsC := n == c;
  }

  /** A Warrior (hp 100, atk 20, def 5) selected next to an Archer (hp 75, atk 25,
      def 3): each Attack takes 20 - 3 = 17 from the Archer, 75 to 58 to 41. */
  method WarriorAttacksArcher() returns (afterFirst: int, afterSecond: int)
    ensures afterFirst == 58 && afterSecond == 41
  {
    var g := new Game();
    var w := g.Spawn(CardSpec("c1", "Warrior", 100, 20, 5), "1", 0, 0, 800, 600);
    var a := g.Spawn(CardSpec("c2", "Archer", 75, 25, 3), "2", 100, 0, 800, 600);
    assert g.characters == [w, a];
    assert w.id == "c1-1";
    g.SelectById(w.id);
    assert [w, a][..1] == [w] && [w][..0] == [];
    g.CommandAttack();
    afterFirst := a.hp;
    g.CommandAttack();
    afterSecond := a.hp;
  }

  /** A Defend on a character of defence 5 raises it to 10, and its timer brings it
      back to 5. */
  method DefendScenario() returns (during: int, after: int)
    ensures during == 10 && after == 5
  {
    var g := new Game();
    var w := g.Spawn(CardSpec("c1", "Warrior", 100, 20, 5), "1", 0, 0, 800, 600);
    g.SelectById(w.id);
    g.CommandDefend();
    during := w.def;
    g.ExpireDefend();
    after := w.def;
  }

  /** A lethal blow: hp 10, def 0, hit for 15. The damage reported is 15, the health
      ends at 0 and the character is no longer in the list. */
  method LethalBlow() returns (dmg: int, hp: int, stillListed: bool)
    ensures dmg == 15 && hp == 0 && !stillListed
  {
    var g := new Game();
    var v := g.Spawn(CardSpec("v", "Victim", 10, 0, 0), "1", 0, 0, 800, 600);
    var k := g.Spawn(CardSpec("k", "Knight", 50, 15, 0), "2", 100, 0, 800, 600);
    dmg := g.ResolveAttack(k, v);
    hp := v.hp;
    stillListed := v in g.characters;
  }
}
