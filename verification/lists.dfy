/** The list operations `main` applies to the roots (find-cyg-roots.py:94-95):
    Python's `sorted` on strings and `list.remove`. */
module Lists {
  import opened Outcome

  predicate NoDuplicates<T(==)>(s: seq<T>) {
    forall a, b :: 0 <= a < b < |s| ==> s[a] != s[b]
  }

  /** Python's `a <= b` on str: code points compared lexicographically, a
      proper prefix first. */
  predicate LexLe(a: string, b: string) {
    |a| == 0 || (|b| > 0 && (a[0] < b[0] || (a[0] == b[0] && LexLe(a[1..], b[1..]))))
  }

  lemma {:induction false} LexLeTotal(a: string, b: string)
    ensures LexLe(a, b) || LexLe(b, a)
  {
    if |a| > 0 && |b| > 0 && a[0] == b[0] {
      LexLeTotal(a[1..], b[1..]);
    }
  }

  lemma {:induction false} LexLeTrans(a: string, b: string, c: string)
    requires LexLe(a, b) && LexLe(b, c)
    ensures LexLe(a, c)
  {
    if |a| > 0 && a[0] == b[0] && b[0] == c[0] {
      LexLeTrans(a[1..], b[1..], c[1..]);
    }
  }

  lemma {:induction false} LexLeAntisym(a: string, b: string)
    requires LexLe(a, b) && LexLe(b, a)
    ensures a == b
  {
    if |a| > 0 {
      LexLeAntisym(a[1..], b[1..]);
      assert a == [a[0]] + a[1..] && b == [b[0]] + b[1..];
    }
  }

  predicate Sorted(s: seq<string>) {
    forall a, b :: 0 <= a < b < |s| ==> LexLe(s[a], s[b])
  }

  /** x placed before the first element it does not exceed. */
  function Insert(x: string, s: seq<string>): (r: seq<string>)
    ensures multiset(r) == multiset(s) + multiset{x}
  {
    if |s| == 0 then [x]
    else if LexLe(x, s[0]) then [x] + s
    else
      assert s == [s[0]] + s[1..];
      [s[0]] + Insert(x, s[1..])
  }

  /** Insertion keeps a sorted list sorted. */
  lemma {:induction false} InsertKeepsSorted(x: string, s: seq<string>)
    requires Sorted(s)
    ensures Sorted(Insert(x, s))
  {
    if |s| > 0 {
      if LexLe(x, s[0]) {
        InsertBeforeHead(x, s);
      } else {
        InsertKeepsSorted(x, s[1..]);
        LexLeTotal(x, s[0]);
        InsertAfterHead(x, s, Insert(x, s[1..]));
      }
    }
  }

  lemma InsertBeforeHead(x: string, s: seq<string>)
    requires |s| > 0 && Sorted(s) && LexLe(x, s[0])
    ensures Sorted([x] + s)
  {
    forall y | y in multiset(s) ensures LexLe(x, y) {
      SortedHeadLeast(s, y);
      LexLeTrans(x, s[0], y);
    }
    PrependSorted(x, s);
  }

  lemma InsertAfterHead(x: string, s: seq<string>, tail: seq<string>)
    requires |s| > 0 && Sorted(s) && LexLe(s[0], x)
    requires Sorted(tail) && multiset(tail) == multiset(s[1..]) + multiset{x}
    ensures Sorted([s[0]] + tail)
  {
    forall y | y in multiset(tail) ensures LexLe(s[0], y) {
      if y != x {
        assert y in multiset(s[1..]);
        var k :| 0 <= k < |s[1..]| && s[1..][k] == y;
        assert s[k + 1] == y;
      }
    }
    PrependSorted(s[0], tail);
  }

  /** A sorted list stays sorted under an element no larger than its head
      and, by transitivity, than all of it. */
  lemma PrependSorted(x: string, s: seq<string>)
    requires Sorted(s)
    requires forall y | y in multiset(s) :: LexLe(x, y)
    ensures Sorted([x] + s)
  {
    forall j | 0 <= j < |s| ensures LexLe(x, s[j]) {
      assert s[j] in multiset(s);
    }
  }

  /** Python's `sorted` on a list of strings. */
  function Sort(s: seq<string>): (r: seq<string>)
    ensures multiset(r) == multiset(s) && Sorted(r)
  {
    if |s| == 0 then []
    else
      assert s == [s[0]] + s[1..];
      InsertKeepsSorted(s[0], Sort(s[1..]));
      Insert(s[0], Sort(s[1..]))
  }

  /** Two sorted lists with the same elements are equal, so any sorting
      algorithm gives the result of Sort. */
  lemma {:induction false} SortedUnique(a: seq<string>, b: seq<string>)
    requires Sorted(a) && Sorted(b) && multiset(a) == multiset(b)
    ensures a == b
  {
    if |a| > 0 {
      SortedSameHead(a, b);
      MultisetTail(a);
      MultisetTail(b);
      SortedUnique(a[1..], b[1..]);
      assert a == [a[0]] + a[1..] && b == [b[0]] + b[1..];
    }
  }

  lemma SortedSameHead(a: seq<string>, b: seq<string>)
    requires Sorted(a) && Sorted(b) && multiset(a) == multiset(b) && |a| > 0
    ensures |b| > 0 && a[0] == b[0]
  {
    assert |b| == |multiset(b)| == |a|;
    SortedHeadLeast(a, b[0]);
    SortedHeadLeast(b, a[0]);
    LexLeAntisym(a[0], b[0]);
  }

  lemma MultisetTail<T>(s: seq<T>)
    requires |s| > 0
    ensures multiset(s[1..]) == multiset(s) - multiset{s[0]}
  {
    assert s == [s[0]] + s[1..];
  }

  lemma {:induction false} LexLeRefl(a: string)
    ensures LexLe(a, a)
  {
    if |a| > 0 { LexLeRefl(a[1..]); }
  }

  /** The head of a sorted list is its least element. */
  lemma SortedHeadLeast(s: seq<string>, y: string)
    requires Sorted(s) && y in multiset(s)
    ensures LexLe(s[0], y)
  {
    var k :| 0 <= k < |s| && s[k] == y;
    if k == 0 { LexLeRefl(y); }
  }

  /** Position of the first occurrence of x in s. */
  function FirstIndex<T(==)>(s: seq<T>, x: T): (i: nat)
    requires x in s
    ensures i < |s| && s[i] == x && x !in s[..i]
  {
    if s[0] == x then 0 else FirstIndex(s[1..], x) + 1
  }

  /** Python's `list.remove`: drop the first occurrence of x, or fail
      (ValueError) when there is none. */
  function RemoveFirst<T(==)>(s: seq<T>, x: T): (r: Option<seq<T>>)
    ensures r.None? <==> x !in s
    ensures r.Some? ==> r.value == s[..FirstIndex(s, x)] + s[FirstIndex(s, x) + 1..]
  {
    if |s| == 0 then None
    else if s[0] == x then Some(s[1..])
    else
      match RemoveFirst(s[1..], x)
      case None => None
      case Some(t) =>
        DeleteAfterHead(s, FirstIndex(s[1..], x));
        Some([s[0]] + t)
  }

  /** Deleting a position after the head commutes with taking the head off. */
  lemma DeleteAfterHead<T>(s: seq<T>, i: int)
    requires 0 <= i < |s| - 1
    ensures s[..i + 1] + s[i + 2..] == [s[0]] + (s[1..][..i] + s[1..][i + 1..])
  {
    assert s[..i + 1] == [s[0]] + s[1..][..i];
    assert s[i + 2..] == s[1..][i + 1..];
  }

  /** Removing x takes exactly one copy of it out of the list. */
  lemma {:induction false} RemoveFirstCount<T>(s: seq<T>, x: T)
    requires x in s
    ensures RemoveFirst(s, x).Some?
    ensures multiset(RemoveFirst(s, x).value) + multiset{x} == multiset(s)
  {
    assert s == [s[0]] + s[1..];
    if s[0] != x {
      RemoveFirstCount(s[1..], x);
    }
  }

  /** A repeated element is counted at least twice. */
  lemma RepeatCounted<T>(s: seq<T>, i: int, j: int)
    requires 0 <= i < j < |s| && s[i] == s[j]
    ensures multiset(s)[s[i]] >= 2
  {
    assert s == s[..i] + [s[i]] + s[i + 1..j] + [s[j]] + s[j + 1..];
  }

  /** Without repeats, no element is counted twice. */
  lemma {:induction false} DistinctCountedOnce<T>(s: seq<T>, x: T)
    requires NoDuplicates(s)
    ensures multiset(s)[x] <= 1
  {
    if |s| > 0 {
      assert s == [s[0]] + s[1..];
      DistinctCountedOnce(s[1..], x);
      if x == s[0] {
        assert x !in s[1..] by {
          forall k | 0 <= k < |s[1..]| ensures s[1..][k] != x {
            assert s[k + 1] != s[0];
          }
        }
      }
    }
  }

  /** Reordering keeps a list free of repeats. */
  lemma PermutationKeepsDistinct<T>(a: seq<T>, b: seq<T>)
    requires NoDuplicates(a) && multiset(a) == multiset(b)
    ensures NoDuplicates(b)
  {
    forall i, j | 0 <= i < j < |b| ensures b[i] != b[j] {
      if b[i] == b[j] {
        RepeatCounted(b, i, j);
        DistinctCountedOnce(a, b[i]);
      }
    }
  }

  /** Deleting position i maps positions k of the rest to strictly
      increasing positions of s. */
  lemma DeleteAt<T>(s: seq<T>, i: int, k: int)
    requires 0 <= i < |s| && 0 <= k < |s| - 1
    ensures (s[..i] + s[i + 1..])[k] == s[if k < i then k else k + 1]
  {
  }

  lemma DeleteKeepsDistinct<T>(s: seq<T>, i: int)
    requires 0 <= i < |s| && NoDuplicates(s)
    ensures NoDuplicates(s[..i] + s[i + 1..])
  {
    var t := s[..i] + s[i + 1..];
    forall a, b | 0 <= a < b < |t| ensures t[a] != t[b] {
      DeleteAt(s, i, a);
      DeleteAt(s, i, b);
    }
  }

  lemma DeleteKeepsSorted(s: seq<string>, i: int)
    requires 0 <= i < |s| && Sorted(s)
    ensures Sorted(s[..i] + s[i + 1..])
  {
    var t := s[..i] + s[i + 1..];
    forall a, b | 0 <= a < b < |t| ensures LexLe(t[a], t[b]) {
      DeleteAt(s, i, a);
      DeleteAt(s, i, b);
    }
  }

  /** Deleting the first x from a list without repeats leaves every
      element but x. */
  lemma DeleteKeepsOthers(s: seq<string>, x: string, y: string)
    requires NoDuplicates(s) && x in s
    ensures y in s[..FirstIndex(s, x)] + s[FirstIndex(s, x) + 1..] <==> y in s && y != x
  {
    var i := FirstIndex(s, x);
    var t := s[..i] + s[i + 1..];
    if y in t {
      var k :| 0 <= k < |t| && t[k] == y;
      DeleteAt(s, i, k);
    }
    if y in s && y != x {
      var k :| 0 <= k < |s| && s[k] == y;
      if k < i {
        DeleteAt(s, i, k);
      } else {
        DeleteAt(s, i, k - 1);
      }
    }
  }

  /** On a list without repeats, `remove` takes x out entirely, keeps every
      other element, and keeps a sorted list sorted. */
  lemma RemoveFirstDistinct(s: seq<string>, x: string)
    requires NoDuplicates(s) && x in s
    ensures RemoveFirst(s, x).Some?
    ensures NoDuplicates(RemoveFirst(s, x).value)
    ensures forall y :: y in RemoveFirst(s, x).value <==> y in s && y != x
    ensures Sorted(s) ==> Sorted(RemoveFirst(s, x).value)
  {
    var i := FirstIndex(s, x);
    DeleteKeepsDistinct(s, i);
    if Sorted(s) { DeleteKeepsSorted(s, i); }
    forall y ensures y in RemoveFirst(s, x).value <==> y in s && y != x {
      DeleteKeepsOthers(s, x, y);
    }
  }
}
