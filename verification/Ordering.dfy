/** Ascending enumeration, the iteration order of `std::set<int>` and `std::map<int, ...>`. */
module Ordering {
  lemma {:induction false} MinimumExists(s: set<int>)
    requires s != {}
    ensures exists m :: m in s && forall x :: x in s ==> m <= x
    decreases |s|
  {
    if forall y: int :: y !in s { assert false; }
    var y :| y in s;
    if s != {y} {
      var rest := s - {y};
      assert s == rest + {y};
      MinimumExists(rest);
      var m :| m in rest && forall x :: x in rest ==> m <= x;
      var least := if m < y then m else y;
      assert forall x :: x in s ==> x == y || x in rest;
      assert least in s && forall x :: x in s ==> least <= x;
    }
  }

  function Minimum(s: set<int>): (m: int)
    requires s != {}
    ensures m in s && forall x :: x in s ==> m <= x
  {
    MinimumExists(s);
    var m :| m in s && forall x :: x in s ==> m <= x;
    m
  }

  predicate Ascending(xs: seq<int>) { forall i, j :: 0 <= i < j < |xs| ==> xs[i] < xs[j] }

  function Sorted(s: set<int>): (xs: seq<int>)
    ensures forall x :: x in xs <==> x in s
    ensures Ascending(xs)
    decreases |s|
  {
    if s == {} then []
    else
      var m := Minimum(s);
      var rest := Sorted(s - {m});
      assert forall x :: x in s ==> x == m || x in rest;
      [m] + rest
  }
}
