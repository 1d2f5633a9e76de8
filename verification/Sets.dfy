/** What is left of a set when more of it is marked. */
module Sets {

  lemma Shrinks<T>(a: set<T>, b: set<T>, c: set<T>)
    requires b <= c
    ensures |a - c| < |a - b| || a - c == a - b
  {
    if a - c != a - b {
      var d := (a - b) - (a - c);
      assert a - b == (a - c) + d && d != {};
    }
  }

  lemma Marked<T>(a: set<T>, b: set<T>, x: T)
    requires x in a && x !in b
    ensures |a - (b + {x})| < |a - b|
  {
    assert a - b == (a - (b + {x})) + {x};
  }
}
