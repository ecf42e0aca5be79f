/** Page numbers in ascending order, as the flush and checkpoint loops visit them. */
module Sorting {

  ghost predicate Ascending(s: seq<nat>) {
    forall i, j :: 0 <= i < j < |s| ==> s[i] < s[j]
  }

  function Smallest(s: set<nat>): (m: nat)
    requires s != {}
    ensures m in s && forall x :: x in s ==> m <= x
  {
    ExistsSmallest(s);
    var m :| m in s && forall x :: x in s ==> m <= x;
    m
  }

  lemma {:induction false} ExistsSmallest(s: set<nat>)
    requires s != {}
    ensures exists m :: m in s && forall x :: x in s ==> m <= x
  {
    var x :| x in s;
    var t := s - {x};
    if t == {} {
      assert s == {x};
    } else {
      ExistsSmallest(t);
      var m :| m in t && forall z :: z in t ==> m <= z;
      var least := if m < x then m else x;
      forall z | z in s ensures least <= z {
        assert z == x || z in t;
      }
      assert least in s;
    }
  }

  /** The members of `s`, each once, in ascending order. */
  function SortedKeys(s: set<nat>): (r: seq<nat>)
    ensures Ascending(r)
    ensures forall x :: x in r <==> x in s
    ensures |r| == |s|
    decreases |s|
  {
    if s == {} then []
    else
      var m := Smallest(s);
      [m] + SortedKeys(s - {m})
  }
}
