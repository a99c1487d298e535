/** A stable sort by a comparison, as the JavaScript array sort promises it, and why its answer is the
    only one possible when the comparison never calls two different elements equal. */
module Sorting {

  ghost predicate TotalOrder<T(!new)>(leq: (T, T) -> bool) {
    && (forall x, y :: leq(x, y) || leq(y, x))
    && (forall x, y, z :: leq(x, y) && leq(y, z) ==> leq(x, z))
  }

  ghost predicate SortedBy<T>(leq: (T, T) -> bool, s: seq<T>) {
    forall i, j :: 0 <= i < j < |s| ==> leq(s[i], s[j])
  }

  /** No two different elements compare as equal. */
  ghost predicate Separates<T>(leq: (T, T) -> bool, s: seq<T>) {
    forall x, y :: x in s && y in s && leq(x, y) && leq(y, x) ==> x == y
  }

  /** Positions in three parts, compared from the first part on. */
  predicate PlaceLeq(a: seq<nat>, b: seq<nat>)
    requires |a| == |b| == 3
  {
    a[0] < b[0] || (a[0] == b[0] && (a[1] < b[1] || (a[1] == b[1] && a[2] <= b[2])))
  }

  /** `x` placed before the first element of `s` that is not below it. */
  function Insert<T>(leq: (T, T) -> bool, x: T, s: seq<T>): seq<T> {
    if s == [] then [x]
    else if leq(x, s[0]) then [x] + s
    else [s[0]] + Insert(leq, x, s[1..])
  }

  function Sort<T>(leq: (T, T) -> bool, s: seq<T>): seq<T> {
    if s == [] then [] else Insert(leq, s[0], Sort(leq, s[1..]))
  }

  lemma {:induction false} InsertPermutes<T>(leq: (T, T) -> bool, x: T, s: seq<T>)
    ensures multiset(Insert(leq, x, s)) == multiset(s) + multiset{x}
  {
    if s != [] {
      InsertPermutes(leq, x, s[1..]);
      assert s == [s[0]] + s[1..];
    }
  }

  /** What is below every element of `s`, and below `x`, is below every element of the insertion. */
  lemma InsertKeepsBound<T(!new)>(leq: (T, T) -> bool, low: T, x: T, s: seq<T>)
    requires leq(low, x) && forall k :: 0 <= k < |s| ==> leq(low, s[k])
    ensures forall k :: 0 <= k < |Insert(leq, x, s)| ==> leq(low, Insert(leq, x, s)[k])
  {
    InsertPermutes(leq, x, s);
    var t := Insert(leq, x, s);
    forall k | 0 <= k < |t|
      ensures leq(low, t[k])
    {
      assert t[k] in multiset(t);
      assert t[k] == x || t[k] in s;
    }
  }

  lemma {:induction false} InsertSorts<T(!new)>(leq: (T, T) -> bool, x: T, s: seq<T>)
    requires TotalOrder(leq) && SortedBy(leq, s)
    ensures SortedBy(leq, Insert(leq, x, s))
  {
    if s != [] {
      if leq(x, s[0]) {
        forall k | 0 <= k < |s|
          ensures leq(x, s[k])
        {
          Chain(leq, x, s[0], s[k]);
        }
      } else {
        assert leq(s[0], x);
        hide TotalOrder;
        InsertSorts(leq, x, s[1..]);
        InsertKeepsBound(leq, s[0], x, s[1..]);
      }
    }
  }

  lemma Chain<T(!new)>(leq: (T, T) -> bool, x: T, y: T, z: T)
    requires TotalOrder(leq) && leq(x, y) && (y == z || leq(y, z))
    ensures leq(x, z)
  {
  }

  lemma {:induction false} SortSorts<T(!new)>(leq: (T, T) -> bool, s: seq<T>)
    requires TotalOrder(leq)
    ensures SortedBy(leq, Sort(leq, s)) && multiset(Sort(leq, s)) == multiset(s)
  {
    if s != [] {
      SortSorts(leq, s[1..]);
      hide TotalOrder;
      InsertSorts(leq, s[0], Sort(leq, s[1..]));
      InsertPermutes(leq, s[0], Sort(leq, s[1..]));
      assert s == [s[0]] + s[1..];
    }
  }

  /** Two sorted arrangements of the same elements are the same. */
  lemma {:induction false} SortedIsUnique<T>(leq: (T, T) -> bool, a: seq<T>, b: seq<T>)
    requires SortedBy(leq, a) && SortedBy(leq, b) && multiset(a) == multiset(b) && Separates(leq, a)
    ensures a == b
  {
    if a == [] {
      assert |multiset(a)| == |a| && |multiset(b)| == |b|;
    } else {
      SameHead(leq, a, b);
      SameTails(a, b);
      assert forall x :: x in a[1..] ==> x in a;
      SortedIsUnique(leq, a[1..], b[1..]);
      assert a == [a[0]] + a[1..] && b == [b[0]] + b[1..];
    }
  }

  lemma SameHead<T>(leq: (T, T) -> bool, a: seq<T>, b: seq<T>)
    requires SortedBy(leq, a) && SortedBy(leq, b) && multiset(a) == multiset(b) && Separates(leq, a) && a != []
    ensures b != [] && a[0] == b[0]
  {
    assert a[0] in multiset(a) && a[0] in multiset(b);
    assert b[0] in multiset(b) && b[0] in multiset(a);
    FirstIsLeast(leq, a, b[0]);
    FirstIsLeast(leq, b, a[0]);
  }

  lemma SameTails<T>(a: seq<T>, b: seq<T>)
    requires multiset(a) == multiset(b) && a != [] && b != [] && a[0] == b[0]
    ensures multiset(a[1..]) == multiset(b[1..])
  {
    assert a == [a[0]] + a[1..] && b == [b[0]] + b[1..];
    assert multiset(a[1..]) == multiset(a) - multiset{a[0]};
    assert multiset(b[1..]) == multiset(b) - multiset{b[0]};
  }

  lemma FirstIsLeast<T>(leq: (T, T) -> bool, s: seq<T>, x: T)
    requires SortedBy(leq, s) && x in s
    ensures x == s[0] || leq(s[0], x)
  {
    var k :| 0 <= k < |s| && s[k] == x;
  }

  /** Sorting any rearrangement of a list already in order gives that list back. */
  lemma SortRestores<T(!new)>(leq: (T, T) -> bool, ordered: seq<T>, shuffled: seq<T>)
    requires TotalOrder(leq) && SortedBy(leq, ordered) && Separates(leq, ordered)
    requires multiset(shuffled) == multiset(ordered)
    ensures Sort(leq, shuffled) == ordered
  {
    SortSorts(leq, shuffled);
    SortedIsUnique(leq, ordered, Sort(leq, shuffled));
  }

  /** The elements of `s` that compare as equal to `x`, in their order. */
  function Alike<T>(leq: (T, T) -> bool, x: T, s: seq<T>): seq<T> {
    if s == [] then []
    else (if leq(x, s[0]) && leq(s[0], x) then [s[0]] else []) + Alike(leq, x, s[1..])
  }

  lemma AlikeInTurn<T(!new)>(leq: (T, T) -> bool, x: T, y: T, z: T)
    requires TotalOrder(leq)
    ensures leq(y, x) && leq(x, z) ==> leq(y, z)
  {
  }

  lemma {:induction false} InsertIsStable<T(!new)>(leq: (T, T) -> bool, x: T, y: T, s: seq<T>)
    requires TotalOrder(leq)
    ensures Alike(leq, x, Insert(leq, y, s)) == Alike(leq, x, [y] + s)
  {
    assert ([y] + s)[1..] == s;
    if s != [] && !leq(y, s[0]) {
      AlikeInTurn(leq, x, y, s[0]);
      hide TotalOrder;
      var t := Insert(leq, y, s[1..]);
      assert ([s[0]] + t)[1..] == t && ([y] + s[1..])[1..] == s[1..];
      InsertIsStable(leq, x, y, s[1..]);
    }
  }

  /** Elements that compare as equal keep their order; with SortSorts this leaves one possible answer. */
  lemma {:induction false} SortIsStable<T(!new)>(leq: (T, T) -> bool, x: T, s: seq<T>)
    requires TotalOrder(leq)
    ensures Alike(leq, x, Sort(leq, s)) == Alike(leq, x, s)
  {
    if s != [] {
      SortIsStable(leq, x, s[1..]);
      InsertIsStable(leq, x, s[0], Sort(leq, s[1..]));
      hide TotalOrder;
      assert ([s[0]] + Sort(leq, s[1..]))[1..] == Sort(leq, s[1..]);
    }
  }
}
