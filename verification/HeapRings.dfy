/**
 Circular doubly linked lists given by next and prev maps.  A ring spells out
 one lap: it starts at the bin head, visits the list in order and ends at the
 same bin head.
 */
module HeapRings {
  import opened Sets

  ghost predicate Linked(next: map<int, int>, prev: map<int, int>, a: int, b: int) {
    a in next && next[a] == b && b in prev && prev[b] == a
  }

  ghost predicate RingOk(next: map<int, int>, prev: map<int, int>, r: seq<int>) {
    && |r| >= 2 && r[0] == r[|r| - 1]
    && Distinct(r[1..])
    && (forall j :: 0 <= j < |r| - 1 ==> Linked(next, prev, r[j], r[j + 1]))
  }

  function Inserted(s: seq<int>, j: int, h: int): seq<int>
    requires 0 <= j <= |s|
  {
    s[..j] + [h] + s[j..]
  }

  function Removed(s: seq<int>, j: int): seq<int>
    requires 0 <= j < |s|
  {
    s[..j] + s[j + 1..]
  }

  /** Two positions of a lap hold the same node only if both are its ends. */
  lemma SameNode(next: map<int, int>, prev: map<int, int>, r: seq<int>, i: int, j: int)
    requires RingOk(next, prev, r)
    requires 0 <= i < j < |r| && r[i] == r[j]
    ensures i == 0 && j == |r| - 1
  {
    var t := r[1..];
    assert t[j - 1] == r[j];
    assert t[|r| - 2] == r[|r| - 1];
  }

  lemma RingFrame(next: map<int, int>, prev: map<int, int>, next': map<int, int>, prev': map<int, int>, r: seq<int>)
    requires RingOk(next, prev, r)
    requires forall j :: 0 <= j < |r| ==> r[j] in next ==> r[j] in next' && next'[r[j]] == next[r[j]]
    requires forall j :: 0 <= j < |r| ==> r[j] in prev ==> r[j] in prev' && prev'[r[j]] == prev[r[j]]
    ensures RingOk(next', prev', r)
  {
  }

  lemma InsertedLink(next: map<int, int>, prev: map<int, int>, r: seq<int>, j: int, h: int, i: int)
    requires RingOk(next, prev, r) && h !in r
    requires 1 <= j < |r| && 0 <= i < |r|
    ensures var r' := Inserted(r, j, h);
            Linked(next[h := r[j]][r[j - 1] := h], prev[h := r[j - 1]][r[j] := h], r'[i], r'[i + 1])
  {
    if i < j - 1 {
      if r[i] == r[j - 1] { SameNode(next, prev, r, i, j - 1); }
      if r[i + 1] == r[j] { SameNode(next, prev, r, i + 1, j); }
      assert Linked(next, prev, r[i], r[i + 1]);
    } else if i > j {
      if r[i - 1] == r[j - 1] { SameNode(next, prev, r, j - 1, i - 1); }
      if r[i] == r[j] { SameNode(next, prev, r, j, i); }
      assert Linked(next, prev, r[i - 1], r[i]);
    }
  }

  lemma InsertDistinct(s: seq<int>, j: int, h: int)
    requires Distinct(s) && h !in s && 0 <= j <= |s|
    ensures Distinct(Inserted(s, j, h))
  {
  }

  lemma RingInsert(next: map<int, int>, prev: map<int, int>, r: seq<int>, j: int, h: int)
    requires RingOk(next, prev, r) && h !in r
    requires 1 <= j < |r|
    ensures RingOk(next[h := r[j]][r[j - 1] := h], prev[h := r[j - 1]][r[j] := h], Inserted(r, j, h))
  {
    var r' := Inserted(r, j, h);
    forall i | 0 <= i < |r'| - 1
      ensures Linked(next[h := r[j]][r[j - 1] := h], prev[h := r[j - 1]][r[j] := h], r'[i], r'[i + 1])
    {
      InsertedLink(next, prev, r, j, h, i);
    }
    assert r'[1..] == Inserted(r[1..], j - 1, h);
    InsertDistinct(r[1..], j - 1, h);
  }

  lemma RemovedLink(next: map<int, int>, prev: map<int, int>, r: seq<int>, j: int, i: int)
    requires RingOk(next, prev, r)
    requires 1 <= j < |r| - 1 && 0 <= i < |r| - 2
    ensures var r' := Removed(r, j);
            Linked(next[r[j - 1] := r[j + 1]], prev[r[j + 1] := r[j - 1]], r'[i], r'[i + 1])
  {
    if i < j - 1 {
      if r[i] == r[j - 1] { SameNode(next, prev, r, i, j - 1); }
      if r[i + 1] == r[j + 1] { SameNode(next, prev, r, i + 1, j + 1); }
      assert Linked(next, prev, r[i], r[i + 1]);
    } else if i >= j {
      if r[i + 1] == r[j - 1] { SameNode(next, prev, r, j - 1, i + 1); }
      if r[i + 2] == r[j + 1] { SameNode(next, prev, r, j + 1, i + 2); }
      assert Linked(next, prev, r[i + 1], r[i + 2]);
    }
  }

  lemma RingRemove(next: map<int, int>, prev: map<int, int>, r: seq<int>, j: int)
    requires RingOk(next, prev, r)
    requires 1 <= j < |r| - 1
    ensures Linked(next, prev, r[j - 1], r[j]) && Linked(next, prev, r[j], r[j + 1])
    ensures RingOk(next[r[j - 1] := r[j + 1]], prev[r[j + 1] := r[j - 1]], Removed(r, j))
    ensures r[j] !in Removed(r, j)
  {
    var r' := Removed(r, j);
    forall i | 0 <= i < |r'| - 1
      ensures Linked(next[r[j - 1] := r[j + 1]], prev[r[j + 1] := r[j - 1]], r'[i], r'[i + 1])
    {
      RemovedLink(next, prev, r, j, i);
    }
    assert r'[1..] == Removed(r[1..], j - 1);
    forall i | 0 <= i < |r'| ensures r'[i] != r[j] {
      if i < j && r[i] == r[j] { SameNode(next, prev, r, i, j); }
      if i >= j && r[i + 1] == r[j] { SameNode(next, prev, r, j, i + 1); }
    }
  }
}
