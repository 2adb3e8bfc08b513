/** Lists of ids as the services build sets from them. */
module Sequences {
  ghost predicate Distinct(list: seq<nat>) {
    forall i, j :: 0 <= i < j < |list| ==> list[i] != list[j]
  }

  /** `new Set(list)` */
  function ToSet(list: seq<nat>): set<nat> {
    set x | x in list
  }

  /** A list has as many elements as its set exactly when nothing repeats. */
  lemma {:induction false} SetSize(list: seq<nat>)
    ensures |ToSet(list)| <= |list|
    ensures |ToSet(list)| == |list| <==> Distinct(list)
  {
    if list != [] {
      var front, last := list[..|list| - 1], list[|list| - 1];
      SetSize(front);
      assert ToSet(list) == ToSet(front) + {last};
      if last in front {
        var i :| 0 <= i < |front| && front[i] == last;
        assert !Distinct(list) by { assert list[i] == list[|list| - 1]; }
        assert ToSet(list) == ToSet(front);
      } else {
        assert Distinct(list) <==> Distinct(front);
      }
    }
  }

  lemma SubsetSize(a: set<nat>, b: set<nat>)
    requires a <= b
    ensures |a| <= |b|
  {
    assert b == a + (b - a);
  }
}
