/** What iterating an ordered set or map from its beginning relies on. */
module OrderedSets {
  lemma NonEmptyHasElement(s: set<int>)
    ensures s == {} || exists x :: x in s
  {
    if forall x :: x !in s {
      assert s == {};
    }
  }

  lemma {:induction false} SmallestOf(s: set<int>) returns (least: int)
    requires s != {}
    ensures least in s && forall x :: x in s ==> least <= x
  {
    NonEmptyHasElement(s);
    least :| least in s;
    var rest := s - {least};
    if rest != {} {
      var m := SmallestOf(rest);
      var y := least;
      least := if y < m then y else m;
      forall x | x in s
        ensures least <= x
      {
        assert x == y || x in rest;
      }
    } else {
      forall x | x in s
        ensures x == least
      {
        assert x !in rest;
      }
    }
  }

  /** A non-empty set of numbers has a first element, as an ordered set needs. */
  lemma SmallestExists(s: set<int>)
    requires s != {}
    ensures exists least :: least in s && forall x :: x in s ==> least <= x
  {
    var least := SmallestOf(s);
  }
}
