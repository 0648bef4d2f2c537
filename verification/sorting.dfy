/** Sorting the file list with no comparator: JavaScript orders strings by their
    UTF-16 code units, lexicographically, a proper prefix first. The model
    sorts by insertion and proves the result is the one sorted permutation
    of the input, which is what any correct sort returns. */
module Sorting {
  import Utf16
  import opened Sequences

  /** Lexicographic order on code-unit sequences. */
  predicate LexLe(a: seq<int>, b: seq<int>)
    decreases |a|
  {
    || |a| == 0
    || (|b| > 0 && (a[0] < b[0] || (a[0] == b[0] && LexLe(a[1..], b[1..]))))
  }

  lemma {:induction false} LexLeTotal(a: seq<int>, b: seq<int>)
    ensures LexLe(a, b) || LexLe(b, a)
    decreases |a|
  {
    if |a| > 0 && |b| > 0 && a[0] == b[0] {
      LexLeTotal(a[1..], b[1..]);
    }
  }

  lemma {:induction false} LexLeTransitive(a: seq<int>, b: seq<int>, c: seq<int>)
    requires LexLe(a, b) && LexLe(b, c)
    ensures LexLe(a, c)
    decreases |a|
  {
    if |a| > 0 && a[0] == b[0] && b[0] == c[0] {
      LexLeTransitive(a[1..], b[1..], c[1..]);
    }
  }

  lemma {:induction false} LexLeAntisymmetric(a: seq<int>, b: seq<int>)
    requires LexLe(a, b) && LexLe(b, a)
    ensures a == b
    decreases |a|
  {
    if |a| > 0 {
      LexLeAntisymmetric(a[1..], b[1..]);
      assert a == [a[0]] + a[1..] && b == [b[0]] + b[1..];
    }
  }

  /** `x` sorts no later than `y`. */
  predicate Le(x: string, y: string) {
    LexLe(Utf16.Units(x), Utf16.Units(y))
  }

  lemma LeTotal(x: string, y: string)
    ensures Le(x, y) || Le(y, x)
  {
    LexLeTotal(Utf16.Units(x), Utf16.Units(y));
  }

  lemma LeTransitive(x: string, y: string, z: string)
    requires Le(x, y) && Le(y, z)
    ensures Le(x, z)
  {
    LexLeTransitive(Utf16.Units(x), Utf16.Units(y), Utf16.Units(z));
  }

  lemma LeAntisymmetric(x: string, y: string)
    requires Le(x, y) && Le(y, x)
    ensures x == y
  {
    LexLeAntisymmetric(Utf16.Units(x), Utf16.Units(y));
    Utf16.UnitsInjective(x, y);
  }

  predicate Sorted(s: seq<string>) {
    forall i, j :: 0 <= i < j < |s| ==> Le(s[i], s[j])
  }

  /** Inserting `x` into a sorted list at its place. */
  function Insert(x: string, s: seq<string>): (r: seq<string>)
    requires Sorted(s)
    ensures Sorted(r)
    ensures multiset(r) == multiset(s) + multiset{x}
    decreases |s|
  {
    if |s| == 0 then
      [x]
    else if Le(x, s[0]) then
      var r := [x] + s;
      assert Sorted(r) by {
        forall i, j | 0 <= i < j < |r| ensures Le(r[i], r[j]) {
          if i == 0 && j > 1 {
            LeTransitive(x, s[0], s[j - 1]);
          }
        }
      }
      r
    else
      var tail := Insert(x, s[1..]);
      var r := [s[0]] + tail;
      LeTotal(x, s[0]);
      assert s == [s[0]] + s[1..];
      assert Sorted(r) by {
        forall j | 0 < j < |r| ensures Le(s[0], r[j]) {
          assert r[j] in multiset(tail);
          assert r[j] == x || r[j] in multiset(s[1..]);
        }
      }
      r
  }

  /** The default JavaScript sort of a list of strings. */
  function Sort(s: seq<string>): (r: seq<string>)
    ensures Sorted(r)
    ensures multiset(r) == multiset(s)
    decreases |s|
  {
    if |s| == 0 then []
    else
      assert s == [s[0]] + s[1..];
      Insert(s[0], Sort(s[1..]))
  }

  lemma {:induction false} LexLeReflexive(a: seq<int>)
    ensures LexLe(a, a)
    decreases |a|
  {
    if |a| > 0 {
      LexLeReflexive(a[1..]);
    }
  }

  /** The head of a sorted list sorts no later than any of its members. */
  lemma SortedHeadLeast(a: seq<string>, x: string)
    requires Sorted(a) && x in a
    ensures Le(a[0], x)
  {
    var j :| 0 <= j < |a| && a[j] == x;
    if j == 0 {
      LexLeReflexive(Utf16.Units(x));
    }
  }

  lemma MultisetTail<T>(a: seq<T>, b: seq<T>)
    requires |a| > 0 && |b| > 0 && a[0] == b[0]
    requires multiset(a) == multiset(b)
    ensures multiset(a[1..]) == multiset(b[1..])
  {
    assert a == [a[0]] + a[1..] && b == [b[0]] + b[1..];
    assert multiset(a) == multiset{a[0]} + multiset(a[1..]);
    assert multiset(b) == multiset{b[0]} + multiset(b[1..]);
    assert forall x :: multiset(a[1..])[x] == multiset(b[1..])[x] by {
      forall x ensures multiset(a[1..])[x] == multiset(b[1..])[x] {
        assert multiset(a)[x] == multiset{a[0]}[x] + multiset(a[1..])[x];
        assert multiset(b)[x] == multiset{a[0]}[x] + multiset(b[1..])[x];
      }
    }
  }

  /** Two sorted lists holding the same strings are the same list, so `Sort`
      returns exactly what the JavaScript sort returns. */
  lemma {:induction false} SortedUnique(a: seq<string>, b: seq<string>)
    requires Sorted(a) && Sorted(b)
    requires multiset(a) == multiset(b)
    ensures a == b
    decreases |a|
  {
    assert |a| == |multiset(a)| == |multiset(b)| == |b|;
    if |a| > 0 {
      assert a[0] in multiset(b) && b[0] in multiset(a);
      SortedHeadLeast(b, a[0]);
      SortedHeadLeast(a, b[0]);
      LeAntisymmetric(a[0], b[0]);
      MultisetTail(a, b);
      SortedUnique(a[1..], b[1..]);
    }
  }

  /** Deleting elements from a sorted list leaves it sorted. */
  lemma {:induction false} SubseqOfSorted(a: seq<string>, b: seq<string>)
    requires IsSubseq(a, b) && Sorted(b)
    ensures Sorted(a)
    decreases |b|
  {
    if |a| == 0 {
    } else if a[0] == b[0] && IsSubseq(a[1..], b[1..]) {
      SubseqOfSorted(a[1..], b[1..]);
      SubseqMembers(a[1..], b[1..]);
      forall i, j | 0 <= i < j < |a| ensures Le(a[i], a[j]) {
        if i == 0 {
          assert a[j] == a[1..][j - 1];
          assert a[j] in b[1..];
          var m :| 0 <= m < |b[1..]| && b[1..][m] == a[j];
          assert Le(b[0], b[m + 1]);
        } else {
          assert a[i] == a[1..][i - 1] && a[j] == a[1..][j - 1];
        }
      }
    } else {
      SubseqOfSorted(a, b[1..]);
    }
  }
}
