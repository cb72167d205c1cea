/** The theory of the monster-reaping loop in World.draw: a Python
    `for m in s: if dead: s.remove(m)` pass, where removing an element while
    iterating shifts the list under the iterator, so the element right after a
    removed one is not examined in that pass. */
module Sweeping {
  /** The elements at places `i` and `j` are different. */
  predicate Differ<T(==)>(s: seq<T>, i: nat, j: nat)
    requires i < |s| && j < |s|
  {
    s[i] != s[j]
  }

  /** No element occurs twice. */
  predicate Distinct<T(==)>(s: seq<T>)
  {
    forall i, j :: 0 <= i < j < |s| ==> Differ(s, i, j)
  }

  /** Appending an element not yet present keeps a list free of repeats. */
  lemma DistinctAppend<T>(s: seq<T>, x: T)
    requires Distinct(s) && x !in s
    ensures Distinct(s + [x])
  {
    var t := s + [x];
    forall i, j | 0 <= i < j < |t| ensures Differ(t, i, j) {
      if j == |s| {
        assert t[i] == s[i] && s[i] in s;
      } else {
        assert t[i] == s[i] && t[j] == s[j] && Differ(s, i, j);
      }
    }
  }

  /** Dropping the head of a list without repeats leaves one without the head. */
  lemma DistinctTail<T>(s: seq<T>)
    requires Distinct(s) && s != []
    ensures Distinct(s[1..]) && s[0] !in s[1..]
  {
    forall a, b | 0 <= a < b < |s| - 1 ensures Differ(s[1..], a, b) {
      assert Differ(s, a + 1, b + 1);
    }
    forall k | 0 <= k < |s| - 1 ensures s[1..][k] != s[0] {
      assert Differ(s, 0, k + 1);
    }
  }

  /** The place of the first occurrence of `x` in `s`. */
  function FirstIndex<T(==)>(s: seq<T>, x: T): (i: nat)
    requires x in s
    ensures i < |s| && s[i] == x
    ensures forall k :: 0 <= k < i ==> s[k] != x
  {
    if s[0] == x then 0 else FirstIndex(s[1..], x) + 1
  }

  /** Python's `list.remove`: drop the first occurrence of `x`, which must be
      present (the source's `remove` fails otherwise). */
  function RemoveFirst<T(==)>(s: seq<T>, x: T): (r: seq<T>)
    requires x in s
    ensures |r| == |s| - 1
    ensures forall y :: y in r ==> y in s
  {
    if s[0] == x then s[1..] else [s[0]] + RemoveFirst(s[1..], x)
  }

  /** `remove` loses no element other than `x`. */
  lemma {:induction false} RemoveFirstKeeps<T>(s: seq<T>, x: T)
    requires x in s
    ensures forall y :: y in s && y != x ==> y in RemoveFirst(s, x)
  {
    if s[0] != x {
      RemoveFirstKeeps(s[1..], x);
    }
  }

  /** `remove` drops exactly the first occurrence and keeps the rest in order. */
  lemma {:induction false} RemoveFirstDropsFirst<T>(s: seq<T>, x: T)
    requires x in s
    ensures var i := FirstIndex(s, x); RemoveFirst(s, x) == s[..i] + s[i + 1..]
  {
    if s[0] != x {
      RemoveFirstDropsFirst(s[1..], x);
      var j := FirstIndex(s[1..], x);
      assert s[..j + 1] + s[j + 2..] == [s[0]] + (s[1..][..j] + s[1..][j + 1..]);
    }
  }

  /** In a list without repeats, removing the element at `i` leaves the rest in order. */
  lemma {:induction false} RemoveFirstAt<T>(s: seq<T>, i: nat)
    requires Distinct(s) && i < |s|
    ensures RemoveFirst(s, s[i]) == s[..i] + s[i + 1..]
  {
    if i > 0 {
      DistinctTail(s);
      RemoveFirstAt(s[1..], i - 1);
      assert s[1..][i - 1] == s[i];
      assert s[1..][..i - 1] + s[1..][i..] == s[1..i] + s[i + 1..];
      assert s[..i] + s[i + 1..] == [s[0]] + (s[1..i] + s[i + 1..]);
    }
  }

  /** The loop as written, resumed with the iterator at index `i`. */
  function SweepFrom<T(==)>(s: seq<T>, i: nat, dead: set<T>): seq<T>
    decreases |s| + 1 - i
  {
    if i >= |s| then s
    else if s[i] in dead then SweepFrom(RemoveFirst(s, s[i]), i + 1, dead)
    else SweepFrom(s, i + 1, dead)
  }

  /** The loop as written never grows the list, adds nothing to it and never
      removes an element that is not dead. */
  lemma {:induction false} SweepFromKeeps<T>(s: seq<T>, i: nat, dead: set<T>)
    ensures |SweepFrom(s, i, dead)| <= |s|
    ensures forall y :: y in SweepFrom(s, i, dead) ==> y in s
    ensures forall y :: y in s && y !in dead ==> y in SweepFrom(s, i, dead)
    decreases |s| + 1 - i
  {
    if i < |s| {
      if s[i] in dead {
        RemoveFirstKeeps(s, s[i]);
        SweepFromKeeps(RemoveFirst(s, s[i]), i + 1, dead);
      } else {
        SweepFromKeeps(s, i + 1, dead);
      }
    }
  }

  /** Reference definition read off the original order: an element is removed
      exactly when it is dead and its predecessor was not removed. */
  function Swept<T>(s: seq<T>, dead: set<T>, afterRemoval: bool): seq<T>
  {
    if s == [] then []
    else if !afterRemoval && s[0] in dead then Swept(s[1..], dead, true)
    else [s[0]] + Swept(s[1..], dead, false)
  }

  lemma DistinctWithout<T>(s: seq<T>, i: nat)
    requires Distinct(s) && i < |s|
    ensures Distinct(s[..i] + s[i + 1..])
  {
    var t := s[..i] + s[i + 1..];
    forall a, b | 0 <= a < b < |t| ensures Differ(t, a, b) {
      var a' := if a < i then a else a + 1;
      var b' := if b < i then b else b + 1;
      assert t[a] == s[a'] && t[b] == s[b'] && Differ(s, a', b');
    }
  }

  /** On a list without repeats the loop as written computes the reference. */
  lemma {:induction false} SweepFromIsSwept<T>(s: seq<T>, i: nat, dead: set<T>)
    requires Distinct(s) && i <= |s|
    ensures SweepFrom(s, i, dead) == s[..i] + Swept(s[i..], dead, false)
    decreases |s| - i
  {
    if i == |s| {
      assert s[..i] == s;
    } else if s[i] in dead {
      DistinctWithout(s, i);
      var t := s[..i] + s[i + 1..];
      if i + 1 <= |t| {
        SweepFromIsSwept(t, i + 1, dead);
      }
      SweepDeadStep(s, i, dead);
    } else {
      SweepFromIsSwept(s, i + 1, dead);
      SweepLiveStep(s, i, dead);
    }
  }

  /** The step of the loop that removes the dead element at `i`: the next
      element shifts into place `i` and the iterator moves past it. */
  lemma SweepDeadStep<T>(s: seq<T>, i: nat, dead: set<T>)
    requires Distinct(s) && i < |s| && s[i] in dead
    requires var t := s[..i] + s[i + 1..];
      i + 1 <= |t| ==> SweepFrom(t, i + 1, dead) == t[..i + 1] + Swept(t[i + 1..], dead, false)
    ensures SweepFrom(s, i, dead) == s[..i] + Swept(s[i..], dead, false)
  {
    var t := s[..i] + s[i + 1..];
    RemoveFirstAt(s, i);
    assert SweepFrom(s, i, dead) == SweepFrom(t, i + 1, dead);
    SweptDropsDead(s[i..], dead);
    assert s[i..][1..] == s[i + 1..];
    if i + 1 < |s| {
      SweepDeadInside(s, i, dead);
    } else {
      assert t == s[..i];
      assert s[i + 1..] == [];
    }
  }

  /** The sequence algebra of removing a dead element with a successor. */
  lemma SweepDeadInside<T>(s: seq<T>, i: nat, dead: set<T>)
    requires i + 1 < |s|
    ensures var t := s[..i] + s[i + 1..];
      t[..i + 1] + Swept(t[i + 1..], dead, false) == s[..i] + Swept(s[i + 1..], dead, true)
  {
    var t := s[..i] + s[i + 1..];
    SweptKeepsNext(s[i + 1..], dead);
    assert s[i + 1..][1..] == s[i + 2..];
    assert t[..i + 1] == s[..i] + [s[i + 1]];
    assert t[i + 1..] == s[i + 2..];
  }

  /** A dead head with nothing removed before it is removed. */
  lemma SweptDropsDead<T>(s: seq<T>, dead: set<T>)
    requires s != [] && s[0] in dead
    ensures Swept(s, dead, false) == Swept(s[1..], dead, true)
  {
  }

  /** The head right after a removal is kept. */
  lemma SweptKeepsNext<T>(s: seq<T>, dead: set<T>)
    requires s != []
    ensures Swept(s, dead, true) == [s[0]] + Swept(s[1..], dead, false)
  {
  }

  /** The step of the loop that keeps the live element at `i`. */
  lemma SweepLiveStep<T>(s: seq<T>, i: nat, dead: set<T>)
    requires i < |s| && s[i] !in dead
    requires SweepFrom(s, i + 1, dead) == s[..i + 1] + Swept(s[i + 1..], dead, false)
    ensures SweepFrom(s, i, dead) == s[..i] + Swept(s[i..], dead, false)
  {
    assert s[..i + 1] == s[..i] + [s[i]];
    assert s[i..][1..] == s[i + 1..];
  }

  /** IsSubsequence(a, b): a is b with some elements dropped, the rest kept in order. */
  predicate IsSubsequence<T(==)>(a: seq<T>, b: seq<T>)
    decreases |b|
  {
    a == [] ||
    (b != [] && ((a[0] == b[0] && IsSubsequence(a[1..], b[1..])) || IsSubsequence(a, b[1..])))
  }

  /** Survivors keep their relative order. */
  lemma {:induction false} SweptIsSubsequence<T>(s: seq<T>, dead: set<T>, after: bool)
    ensures IsSubsequence(Swept(s, dead, after), s)
  {
    if s != [] {
      SweptIsSubsequence(s[1..], dead, !after && s[0] in dead);
      if !(!after && s[0] in dead) {
        assert ([s[0]] + Swept(s[1..], dead, false))[1..] == Swept(s[1..], dead, false);
      }
    }
  }

  /** A pass never removes a live element, and removes only dead ones. */
  lemma {:induction false} SweptRemovesOnlyDead<T>(s: seq<T>, dead: set<T>, after: bool)
    ensures forall x :: x in s && x !in dead ==> x in Swept(s, dead, after)
    ensures forall x :: x in Swept(s, dead, after) ==> x in s
    ensures forall x :: x in s && x !in Swept(s, dead, after) ==> x in dead
  {
    if s != [] {
      SweptRemovesOnlyDead(s[1..], dead, !after && s[0] in dead);
      assert forall x :: x in s ==> x == s[0] || x in s[1..];
    }
  }

  /** Two dead neighbours: the first is removed and the second survives the pass. */
  lemma {:induction false} DeadAfterRemovedSurvives<T>(a: T, b: T, rest: seq<T>, dead: set<T>)
    requires a in dead
    ensures Swept([a, b] + rest, dead, false) == [b] + Swept(rest, dead, false)
  {
    var s := [a, b] + rest;
    assert s[1..] == [b] + rest;
    assert ([b] + rest)[1..] == rest;
  }

  lemma WithoutMembers<T>(s: seq<T>, i: nat, y: T)
    requires Distinct(s) && i < |s|
    ensures y in s[..i] + s[i + 1..] <==> y in s && y != s[i]
  {
    var t := s[..i] + s[i + 1..];
    if y in s {
      var j :| 0 <= j < |s| && s[j] == y;
      if j < i { assert t[j] == y; } else if j > i { assert t[j - 1] == y; }
    }
    if y in t {
      var j :| 0 <= j < |t| && t[j] == y;
      if j < i { assert s[j] == y && Differ(s, j, i); } else { assert s[j + 1] == y && Differ(s, i, j + 1); }
    }
  }

  /** In a list without repeats, `remove` drops exactly the element named. */
  lemma RemoveFirstMembers<T>(s: seq<T>, x: T)
    requires Distinct(s) && x in s
    ensures Distinct(RemoveFirst(s, x))
    ensures forall y :: y in RemoveFirst(s, x) <==> y in s && y != x
  {
    var i :| 0 <= i < |s| && s[i] == x;
    RemoveFirstAt(s, i);
    DistinctWithout(s, i);
    forall y ensures y in RemoveFirst(s, x) <==> y in s && y != x {
      WithoutMembers(s, i, y);
    }
  }

  /** A list without repeats has as many elements as it has members. */
  lemma {:induction false} CardOfDistinct<T>(s: seq<T>)
    ensures Distinct(s) ==> |set x | x in s| == |s|
  {
    if s != [] && Distinct(s) {
      DistinctTail(s);
      CardOfDistinct(s[1..]);
      assert (set x | x in s) == {s[0]} + (set x | x in s[1..]);
    }
  }
}
