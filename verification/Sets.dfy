/** Choosing from finite sets, and the pigeonhole principle. */
module Sets {

  ghost function Pick<T>(s: set<T>): (x: T)
    requires s != {}
    ensures x in s
  {
    var x :| x in s;
    x
  }

  method PickOne<T(==)>(s: set<T>) returns (x: T)
    requires s != {}
    ensures x in s
  {
    x :| x in s;
  }

  ghost predicate Distinct<T>(s: seq<T>) {
    forall i, j :: 0 <= i < j < |s| ==> s[i] != s[j]
  }

  lemma SubsetSize<T>(a: set<T>, b: set<T>)
    requires a <= b
    ensures |a| <= |b|
  {
    assert b == a + (b - a);
  }

  ghost function Elements<T>(s: seq<T>): set<T> {
    set i | 0 <= i < |s| :: s[i]
  }

  lemma {:induction false} DistinctSize<T>(s: seq<T>)
    requires Distinct(s)
    ensures |Elements(s)| == |s|
  {
    if |s| > 0 {
      var t := s[..|s| - 1];
      DistinctSize(t);
      assert Elements(s) == Elements(t) + {s[|s| - 1]};
      assert s[|s| - 1] !in Elements(t);
    }
  }

  ghost function Below(n: nat): set<int> {
    if n == 0 then {} else Below(n - 1) + {n - 1}
  }

  lemma {:induction false} BelowHolds(n: nat)
    ensures |Below(n)| == n
    ensures forall i :: i in Below(n) <==> 0 <= i < n
  {
    if n > 0 { BelowHolds(n - 1); }
  }

  /** Distinct indices below n that all avoid t number fewer than n. */
  lemma Pigeonhole(s: seq<int>, n: nat, t: nat)
    requires t < n && Distinct(s)
    requires forall i :: 0 <= i < |s| ==> 0 <= s[i] < n && s[i] != t
    ensures |s| < n
  {
    BelowHolds(n);
    DistinctSize(s);
    SubsetSize(Elements(s), Below(n) - {t});
  }
}
