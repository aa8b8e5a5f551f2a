/** The order in which the solver scans a candidate set. Python iterates a set of
    small integers in an order fixed by hashing; this model scans it in ascending order. */
module SetOrder {

  /** The least element of a non-empty set. */
  function Min(s: set<int>): (m: int)
    requires s != {}
    ensures m in s && forall v :: v in s ==> m <= v
  {
    HasMin(s);
    var m :| m in s && forall v :: v in s ==> m <= v;
    m
  }

  lemma {:induction false} HasMin(s: set<int>)
    requires s != {}
    ensures exists m :: m in s && forall v :: v in s ==> m <= v
  {
    HasMember(s);
    var x :| x in s;
    MinBelow(s, x);
  }

  lemma HasMember(s: set<int>)
    requires s != {}
    ensures exists x :: x in s
  {
    assert (forall x :: x !in s) ==> s == {};
  }

  /** Some member of s is a lower bound of s, and it is at most x. */
  lemma {:induction false} MinBelow(s: set<int>, x: int)
    requires x in s
    ensures exists m :: m in s && m <= x && forall v :: v in s ==> m <= v
    decreases |s|
  {
    if forall v :: v in s ==> x <= v {
      assert x in s && x <= x;
    } else {
      var y :| y in s && y < x;
      var t := s - {x};
      assert y in t;
      MinBelow(t, y);
      var m :| m in t && m <= y && forall v :: v in t ==> m <= v;
      forall v | v in s
        ensures m <= v
      {
        if v != x {
          assert v in t;
        }
      }
      assert m in s && m <= x;
    }
  }

  /** Putting the least member in front of the ascending rest gives an ascending listing of s. */
  lemma ConsAscending(s: set<int>, m: int, rest: seq<int>)
    requires m in s && forall v :: v in s ==> m <= v
    requires |rest| == |s - {m}|
    requires forall v :: v in rest <==> v in s - {m}
    requires forall i, j :: 0 <= i < j < |rest| ==> rest[i] < rest[j]
    ensures |[m] + rest| == |s|
    ensures forall v :: v in [m] + rest <==> v in s
    ensures forall i, j :: 0 <= i < j < |[m] + rest| ==> ([m] + rest)[i] < ([m] + rest)[j]
  {
    var r := [m] + rest;
    forall i, j | 0 <= i < j < |r|
      ensures r[i] < r[j]
    {
      assert r[j] == rest[j - 1];
      if i == 0 {
        assert rest[j - 1] in rest;
      } else {
        assert r[i] == rest[i - 1];
      }
    }
  }

  /** The members of s in ascending order: the order in which a candidate set is scanned. */
  function Ascending(s: set<int>): (r: seq<int>)
    ensures |r| == |s|
    ensures forall v :: v in r <==> v in s
    ensures forall i, j :: 0 <= i < j < |r| ==> r[i] < r[j]
    decreases |s|
  {
    if s == {} then []
    else
      var m := Min(s);
      var rest := Ascending(s - {m});
      ConsAscending(s, m, rest);
      [m] + rest
  }
}
