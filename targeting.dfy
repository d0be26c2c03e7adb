/** Looking characters up: by instance id, and the nearest other character to a
    given one, the target of every automatic attack. */
module Targeting {
  import opened Entities

  /** The first character in `cs` whose id is `id`, or null when there is none. */
  function FindById(cs: seq<Character>, id: string): (r: Character?)
    ensures r == null <==> forall c :: c in cs ==> c.id != id
    ensures r != null ==> r.id == id
    ensures r != null ==> exists i :: 0 <= i < |cs| && cs[i] == r && forall j :: 0 <= j < i ==> cs[j].id != id
  {
    if cs == [] then null
    else if cs[0].id == id then cs[0]
    else
      var r := FindById(cs[1..], id);
      assert r != null ==> exists i :: 0 <= i < |cs| && cs[i] == r && forall j :: 0 <= j < i ==> cs[j].id != id by {
        if r != null {
          var i :| 0 <= i < |cs[1..]| && cs[1..][i] == r && forall j :: 0 <= j < i ==> cs[1..][j].id != id;
          assert cs[i + 1] == r;
          forall j | 0 <= j < i + 1 ensures cs[j].id != id {
            if j > 0 {
              assert cs[j] == cs[1..][j - 1];
            }
          }
        }
      }
      r
  }

  /** Squared distance between the top-left corners of two characters' boxes. If all
      boxes have the same size, this orders pairs of characters exactly as the
      distance between their centres does. */
  function DistSq(a: Character, b: Character): int
  {
    (a.x - b.x) * (a.x - b.x) + (a.y - b.y) * (a.y - b.y)
  }

  /** The result of scanning `cs` in order for the character closest to `target`,
      skipping `target` itself and replacing the best so far only on a strictly
      smaller distance. */
  function Nearest(cs: seq<Character>, target: Character): (r: Character?)
    ensures r != null ==> r in cs && r != target
  {
    if cs == [] then null
    else
      var best := Nearest(cs[..|cs| - 1], target);
      var c := cs[|cs| - 1];
      if c == target then best
      else if best == null || DistSq(c, target) < DistSq(best, target) then c
      else best
  }

  /** The scan finds nothing exactly when every character in `cs` is `target`. */
  lemma {:induction false} NearestNullIff(cs: seq<Character>, target: Character)
    ensures Nearest(cs, target) == null <==> forall c :: c in cs ==> c == target
  {
    if cs != [] {
      var p := cs[..|cs| - 1];
      NearestNullIff(p, target);
      assert cs == p + [cs[|cs| - 1]];
    }
  }

  /** The character found is at least as close to `target` as every other character. */
  lemma {:induction false} NearestIsClosest(cs: seq<Character>, target: Character, c: Character)
    requires c in cs && c != target
    ensures Nearest(cs, target) != null
    ensures DistSq(Nearest(cs, target), target) <= DistSq(c, target)
  {
    var p, last := cs[..|cs| - 1], cs[|cs| - 1];
    assert cs == p + [last];
    if c in p {
      NearestIsClosest(p, target, c);
    }
  }

  /** Ties go to the earliest: the character found occurs no later in `cs` than any
      other character at the smallest distance. */
  lemma {:induction false} NearestIsFirst(cs: seq<Character>, target: Character, j: int)
    requires 0 <= j < |cs| && cs[j] != target
    requires Nearest(cs, target) != null
    requires DistSq(cs[j], target) <= DistSq(Nearest(cs, target), target)
    ensures Nearest(cs, target) in cs[..j + 1]
  {
    var p, last := cs[..|cs| - 1], cs[|cs| - 1];
    var best := Nearest(p, target);
    if j < |p| {
      assert p[j] == cs[j];
      assert p[..j + 1] == cs[..j + 1];
      NearestIsClosest(p, target, cs[j]);
      if last == target || DistSq(last, target) >= DistSq(best, target) {
        NearestIsFirst(p, target, j);
      }
    } else {
      assert cs[..j + 1] == cs;
    }
  }
}
