/** Sequences without repetitions, and counting facts about finite sets. */
module Sets {

  predicate Distinct<T(==)>(s: seq<T>) { forall i, j :: 0 <= i < j < |s| ==> s[i] != s[j] }

  function Elements<T(==)>(s: seq<T>): set<T> { set x <- s }

  lemma {:induction false} DistinctCount<T>(s: seq<T>)
    requires Distinct(s)
    ensures |Elements(s)| == |s|
  {
    if s != [] {
      var front, last := s[..|s| - 1], s[|s| - 1];
      DistinctCount(front);
      assert s == front + [last];
      assert Elements(s) == Elements(front) + {last};
    }
  }

  lemma SubsetOfSameSize<T>(a: set<T>, b: set<T>)
    requires a <= b && |a| == |b|
    ensures a == b
  {
    assert b == a + (b - a);
    assert |b - a| == 0;
  }

  /** A map that never repeats a value has as many values as keys. */
  lemma {:induction false} InjectiveCount<S, T>(m: map<S, T>)
    requires forall a, b :: a in m && b in m && m[a] == m[b] ==> a == b
    ensures |m.Values| == |m.Keys|
  {
    if m.Keys != {} {
      var a :| a in m.Keys;
      var rest := m - {a};
      InjectiveCount(rest);
      assert m.Values == rest.Values + {m[a]};
      assert m.Keys == rest.Keys + {a};
    } else {
      assert m.Values == {};
    }
  }

  /** The numbers 1 to n. */
  function OneTo(n: nat): (numbers: set<int>)
    ensures forall i :: i in numbers <==> 1 <= i <= n
    ensures |numbers| == n
  {
    if n == 0 then {} else OneTo(n - 1) + {n}
  }
}
