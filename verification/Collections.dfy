/** Facts about sequences and finite sets that several modules need. */
module Collections {
  ghost predicate Distinct<T>(q: seq<T>) { forall i, j :: 0 <= i < j < |q| ==> q[i] != q[j] }

  ghost function Elements<T>(q: seq<T>): set<T> { set x | x in q }

  /** A list without repetitions has as many elements as places. */
  lemma {:induction false} DistinctCount<T>(q: seq<T>)
    requires Distinct(q)
    ensures |Elements(q)| == |q|
  {
    if q == [] {
      assert Elements(q) == {};
    } else {
      var rest := q[1..];
      forall i, j | 0 <= i < j < |rest| ensures rest[i] != rest[j] { assert q[i + 1] != q[j + 1]; }
      DistinctCount(rest);
      assert q[0] !in rest;
      assert Elements(q) == {q[0]} + Elements(rest);
    }
  }

  lemma FirstIsDistinct<T>(x: T, rest: seq<T>)
    requires Distinct(rest) && x !in rest
    ensures Distinct([x] + rest)
  {
    var q := [x] + rest;
    forall i, j | 0 <= i < j < |q| ensures q[i] != q[j] { assert q[j] == rest[j - 1] && rest[j - 1] in rest; }
  }

  lemma {:induction false} SubsetCount<T>(some: set<T>, all: set<T>)
    requires some <= all
    ensures |some| <= |all|
  {
    if some != {} {
      var x :| x in some;
      SubsetCount(some - {x}, all - {x});
    }
  }

  lemma Regroup<T>(a: seq<T>, b: seq<T>, c: seq<T>)
    ensures a + (b + c) == (a + b) + c
  {
  }
}
