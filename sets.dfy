/** Extremes of finite integer sets: the SQL aggregates MIN and COALESCE(MAX(id), 0)
    that the services use to pick elements and to assign fresh identifiers. */
module Sets {

  /** Some element of a non-empty set (the witness goes through a set of pairs,
      which the solver instantiates more reliably than a set of boxed integers). */
  lemma Pick(s: set<int>) returns (y: int)
    requires s != {}
    ensures y in s
  {
    var t := set x | x in s :: (x, 0);
    assert forall x | x in s :: (x, 0) in t;
    var p :| p in t;
    y := p.0;
  }

  /** The least element, found by removing one element at a time. */
  lemma {:induction false} LeastOf(s: set<int>) returns (m: int)
    requires s != {}
    ensures m in s && forall x | x in s :: m <= x
    decreases s
  {
    var y := Pick(s);
    if s == {y} {
      m := y;
    } else {
      var rest := s - {y};
      var k := LeastOf(rest);
      m := if y < k then y else k;
      forall x | x in s ensures m <= x {
        if x != y {
          assert x in rest;
        }
      }
    }
  }

  /** The greatest element, found by removing one element at a time. */
  lemma {:induction false} GreatestOf(s: set<int>) returns (m: int)
    requires s != {}
    ensures m in s && forall x | x in s :: x <= m
    decreases s
  {
    var y := Pick(s);
    if s == {y} {
      m := y;
    } else {
      var rest := s - {y};
      var k := GreatestOf(rest);
      m := if k < y then y else k;
      forall x | x in s ensures x <= m {
        if x != y {
          assert x in rest;
        }
      }
    }
  }

  lemma MinExists(s: set<int>)
    requires s != {}
    ensures exists m :: m in s && forall x | x in s :: m <= x
  {
    var m := LeastOf(s);
  }

  lemma MaxExists(s: set<int>)
    requires s != {}
    ensures exists m :: m in s && forall x | x in s :: x <= m
  {
    var m := GreatestOf(s);
  }

  /** The least element of a non-empty set. */
  function Min(s: set<int>): (m: int)
    requires s != {}
    ensures m in s && forall x | x in s :: m <= x
  {
    MinExists(s);
    var m :| m in s && forall x | x in s :: m <= x; m
  }

  /** `COALESCE(MAX(id), 0)`: the largest element, or 0 for the empty set. */
  function MaxOrZero(s: set<int>): (m: int)
    ensures s == {} ==> m == 0
    ensures s != {} ==> m in s
    ensures forall x | x in s :: x <= m
  {
    if s == {} then 0
    else
      MaxExists(s);
      var m :| m in s && forall x | x in s :: x <= m; m
  }

  /** `COALESCE(MAX(id), 0) + 1`: the identifier the services give a new row. */
  function NextId(ids: set<int>): (id: int)
    ensures id !in ids
    ensures forall x | x in ids :: x < id
    ensures ids == {} ==> id == 1
  {
    MaxOrZero(ids) + 1
  }
}
