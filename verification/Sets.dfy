/** Choosing from finite sets. */
module Sets {

  lemma {:induction false} NonEmpty<T>(xs: set<T>)
    requires xs != {}
    ensures exists x :: x in xs
  {
    assert !(xs <= {});
  }

  ghost function Pick<T>(xs: set<T>): (x: T)
    requires xs != {}
    ensures x in xs
  {
    NonEmpty(xs);
    var x :| x in xs; x
  }
}
