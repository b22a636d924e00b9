/** Sequence functions used to state what the chain and the handler do. */
module Sequences {

  /**
   * No element occurs twice in `s`. The positions are read through `At`, so that the fact is put
   * to use only by a proof that asks for it (see `DistinctElements`).
   */
  ghost predicate Distinct<T>(s: seq<T>) {
    forall i, j {:trigger At(s, i), At(s, j)} :: 0 <= i < j < |s| ==> At(s, i) != At(s, j)
  }

  /** The element at position `i` of `s`. */
  ghost function At<T>(s: seq<T>, i: nat): (x: T)
    requires i < |s|
  {
    s[i]
  }

  /** In a sequence without repetitions, different positions hold different elements. */
  lemma DistinctElements<T>(s: seq<T>)
    requires Distinct(s)
    ensures forall i, j :: 0 <= i < |s| && 0 <= j < |s| && i != j ==> s[i] != s[j]
  {
    forall i, j | 0 <= i < |s| && 0 <= j < |s| && i != j
      ensures s[i] != s[j]
    {
      if i < j {
        assert At(s, i) != At(s, j);
      } else {
        assert At(s, j) != At(s, i);
      }
    }
  }

  /** A sequence whose different positions hold different elements has no repetitions. */
  lemma ElementsDistinct<T>(s: seq<T>)
    requires forall i, j :: 0 <= i < j < |s| ==> s[i] != s[j]
    ensures Distinct(s)
  {
    forall i, j | 0 <= i < j < |s|
      ensures At(s, i) != At(s, j)
    {
    }
  }

  /** Putting in an element that is not there yet keeps a sequence repetition-free. */
  lemma DistinctInsertAt<T>(s: seq<T>, i: nat, x: T)
    requires Distinct(s) && i <= |s| && x !in s
    ensures Distinct(InsertAt(s, i, x))
  {
    DistinctElements(s);
    var r := InsertAt(s, i, x);
    forall p, q | 0 <= p < q < |r|
      ensures r[p] != r[q]
    {
      if p < i {
        assert r[p] == s[p];
      } else if p > i {
        assert r[p] == s[p - 1];
      }
      if q > i {
        assert r[q] == s[q - 1];
      }
    }
    ElementsDistinct(r);
  }

  /** The first element of a sequence without repetitions is not in its tail, which has none either. */
  lemma DistinctTail<T>(s: seq<T>)
    requires Distinct(s) && s != []
    ensures Distinct(s[1..]) && s[0] !in s[1..]
  {
    DistinctRemoveAt(s, 0);
    assert RemoveAt(s, 0) == s[1..];
  }

  /** Taking out an element keeps a sequence repetition-free, and the element is gone. */
  lemma DistinctRemoveAt<T>(s: seq<T>, i: nat)
    requires Distinct(s) && i < |s|
    ensures Distinct(RemoveAt(s, i)) && s[i] !in RemoveAt(s, i)
  {
    DistinctElements(s);
    var r := RemoveAt(s, i);
    forall p, q | 0 <= p < q < |r|
      ensures r[p] != r[q]
    {
      assert r[p] == if p < i then s[p] else s[p + 1];
      assert r[q] == if q < i then s[q] else s[q + 1];
    }
    ElementsDistinct(r);
    forall p | 0 <= p < |r|
      ensures r[p] != s[i]
    {
      assert r[p] == if p < i then s[p] else s[p + 1];
    }
  }

  /** The position of the first occurrence of `x` in `s`. */
  function IndexOf<T(==)>(s: seq<T>, x: T): (i: nat)
    requires x in s
    ensures i < |s| && s[i] == x
  {
    if s[0] == x then 0 else 1 + IndexOf(s[1..], x)
  }

  /** No position before the one `IndexOf` finds holds `x`. */
  lemma {:induction false} IndexOfBefore<T>(s: seq<T>, x: T)
    requires x in s
    ensures forall j :: 0 <= j < IndexOf(s, x) ==> s[j] != x
  {
    if s[0] != x {
      IndexOfBefore(s[1..], x);
    }
  }

  /** `s` with the element at position `i` taken out. */
  function RemoveAt<T>(s: seq<T>, i: nat): (r: seq<T>)
    requires i < |s|
    ensures |r| == |s| - 1
    ensures forall j :: 0 <= j < i ==> r[j] == s[j]
    ensures forall j :: i <= j < |r| ==> r[j] == s[j + 1]
  {
    s[..i] + s[i + 1..]
  }

  /** `s` with `x` put in at position `i`. */
  function InsertAt<T>(s: seq<T>, i: nat, x: T): (r: seq<T>)
    requires i <= |s|
    ensures |r| == |s| + 1
  {
    s[..i] + [x] + s[i..]
  }

  /** Position by position, `InsertAt(s, i, x)` is `s` with `x` at `i` and the rest moved up one. */
  lemma InsertAtElements<T>(s: seq<T>, i: nat, x: T)
    requires i <= |s|
    ensures var r := InsertAt(s, i, x);
      r[i] == x && (forall j :: 0 <= j < i ==> r[j] == s[j]) && (forall j :: i < j < |r| ==> r[j] == s[j - 1])
  {
  }

  /** `s` without its first occurrence of `x` (unchanged when `x` is absent). */
  function RemoveFirst<T(==)>(s: seq<T>, x: T): (r: seq<T>) {
    if s == [] then []
    else if s[0] == x then s[1..]
    else [s[0]] + RemoveFirst(s[1..], x)
  }

  /** `s` without any occurrence of `x`. */
  function Without<T(==)>(s: seq<T>, x: T): (r: seq<T>)
  {
    if s == [] then []
    else (if s[0] == x then [] else [s[0]]) + Without(s[1..], x)
  }

  /** `s` back to front. */
  function Reversed<T>(s: seq<T>): (r: seq<T>)
    ensures |r| == |s|
    ensures forall i :: 0 <= i < |s| ==> r[i] == s[|s| - 1 - i]
  {
    if s == [] then [] else Reversed(s[1..]) + [s[0]]
  }

  /** Adding at the back of `s` adds at the front of its reversal. */
  lemma ReversedSnoc<T>(s: seq<T>, x: T)
    ensures Reversed(s + [x]) == [x] + Reversed(s)
  {
    var a, b := Reversed(s + [x]), [x] + Reversed(s);
    assert forall i :: 0 <= i < |a| ==> a[i] == b[i];
  }

  /** A sequence and its reversal have the same elements, as often. */
  lemma {:induction false} ReversedMultiset<T>(s: seq<T>)
    ensures multiset(Reversed(s)) == multiset(s)
  {
    if s != [] {
      ReversedMultiset(s[1..]);
      assert s == [s[0]] + s[1..];
    }
  }

  /** Inserting an element and then taking it out again gives back the original sequence. */
  lemma RemoveAtInsertAt<T>(s: seq<T>, i: nat, x: T)
    requires i <= |s|
    ensures RemoveAt(InsertAt(s, i, x), i) == s
  {
  }

  /** Any position holding `x` with no earlier `x` is the one `IndexOf` finds. */
  lemma {:induction false} IndexOfFirst<T>(s: seq<T>, i: nat, x: T)
    requires i < |s| && s[i] == x
    requires forall j :: 0 <= j < i ==> s[j] != x
    ensures IndexOf(s, x) == i
  {
    if i > 0 {
      IndexOfFirst(s[1..], i - 1, x);
    }
  }

  /** `RemoveFirst` leaves a sequence without `x` alone, and otherwise takes out the first `x`. */
  lemma {:induction false} RemoveFirstAt<T>(s: seq<T>, x: T)
    ensures x !in s ==> RemoveFirst(s, x) == s
    ensures x in s ==> RemoveFirst(s, x) == RemoveAt(s, IndexOf(s, x))
  {
    if s == [] {
    } else if s[0] == x {
      assert RemoveAt(s, 0) == s[1..];
    } else {
      var t := s[1..];
      assert s == [s[0]] + t;
      RemoveFirstAt(t, x);
      if x in t {
        var i := IndexOf(t, x);
        assert IndexOf(s, x) == 1 + i;
        assert s[..1 + i] == [s[0]] + t[..i] && s[2 + i..] == t[i + 1..];
      }
    }
  }

  /** `RemoveFirst` takes out exactly one occurrence of `x` when there is one, and nothing else. */
  lemma RemoveFirstMultiset<T>(s: seq<T>, x: T)
    ensures x in s ==> multiset(RemoveFirst(s, x)) == multiset(s) - multiset{x}
    ensures x !in s ==> multiset(RemoveFirst(s, x)) == multiset(s)
  {
    RemoveFirstAt(s, x);
    if x in s {
      RemoveAtMultiset(s, IndexOf(s, x));
    }
  }

  /** When `x` is not in the prefix `a`, `RemoveFirst` leaves `a` alone and works on `b`. */
  lemma {:induction false} RemoveFirstAppend<T>(a: seq<T>, b: seq<T>, x: T)
    requires x !in a
    ensures RemoveFirst(a + b, x) == a + RemoveFirst(b, x)
  {
    if a != [] {
      var ab := a + b;
      assert ab[0] == a[0] && ab[0] != x;
      assert ab[1..] == a[1..] + b;
      RemoveFirstAppend(a[1..], b, x);
      assert RemoveFirst(ab, x) == [a[0]] + (a[1..] + RemoveFirst(b, x));
      assert a == [a[0]] + a[1..];
    } else {
      assert a + b == b;
    }
  }

  /** Taking out the last element, when it occurs nowhere before. */
  lemma RemoveFirstLast<T>(a: seq<T>, x: T)
    requires x !in a
    ensures RemoveFirst(a + [x], x) == a
  {
    RemoveFirstAppend(a, [x], x);
  }

  /** In a sequence without repetitions, dropping every copy of an element is dropping its one position. */
  lemma {:induction false} WithoutAt<T>(s: seq<T>, i: nat)
    requires Distinct(s) && i < |s|
    ensures Without(s, s[i]) == RemoveAt(s, i)
  {
    DistinctTail(s);
    if i == 0 {
      WithoutAbsent(s[1..], s[0]);
    } else {
      WithoutAt(s[1..], i - 1);
      assert s[1..][i - 1] == s[i];
      assert RemoveAt(s, i) == [s[0]] + RemoveAt(s[1..], i - 1);
    }
  }

  /** `Without` keeps exactly the elements of `s` other than `x`. */
  lemma {:induction false} WithoutMembers<T>(s: seq<T>, x: T)
    ensures forall y :: y in Without(s, x) <==> y in s && y != x
  {
    if s != [] {
      WithoutMembers(s[1..], x);
      assert s == [s[0]] + s[1..];
    }
  }

  /** Dropping an element that is not there changes nothing. */
  lemma {:induction false} WithoutAbsent<T>(s: seq<T>, x: T)
    requires x !in s
    ensures Without(s, x) == s
  {
    if s != [] {
      WithoutAbsent(s[1..], x);
      assert s == [s[0]] + s[1..];
    }
  }

  /** Taking out position `i` removes one copy of the element there, and nothing else. */
  lemma RemoveAtMultiset<T>(s: seq<T>, i: nat)
    requires i < |s|
    ensures multiset(RemoveAt(s, i)) + multiset{s[i]} == multiset(s)
  {
    assert s == s[..i] + [s[i]] + s[i + 1..];
  }
}
