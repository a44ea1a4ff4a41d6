/** Python's ordering of strings (code point by code point, a proper prefix
    first) and `sorted` on lists of strings. */
module Ordering {
  import opened Seqs

  /** `a < b` on Python strings. */
  predicate Less(a: string, b: string)
    decreases |a|
  {
    if |b| == 0 then false
    else if |a| == 0 then true
    else if a[0] != b[0] then a[0] < b[0]
    else Less(a[1..], b[1..])
  }

  lemma {:induction false} LessIrreflexive(a: string)
    ensures !Less(a, a)
    decreases |a|
  {
    if |a| > 0 {
      LessIrreflexive(a[1..]);
    }
  }

  lemma {:induction false} LessTransitive(a: string, b: string, c: string)
    requires Less(a, b) && Less(b, c)
    ensures Less(a, c)
    decreases |a|
  {
    if |a| > 0 && a[0] == b[0] && b[0] == c[0] {
      LessTransitive(a[1..], b[1..], c[1..]);
    }
  }

  /** Any two different strings are ordered one way or the other. */
  lemma {:induction false} LessTotal(a: string, b: string)
    ensures a == b || Less(a, b) || Less(b, a)
    decreases |a|
  {
    if |a| > 0 && |b| > 0 && a[0] == b[0] {
      LessTotal(a[1..], b[1..]);
      if a[1..] == b[1..] {
        assert a == [a[0]] + a[1..] && b == [b[0]] + b[1..];
      }
    }
  }

  lemma LessAsymmetric(a: string, b: string)
    requires Less(a, b)
    ensures !Less(b, a)
  {
    if Less(b, a) {
      LessTransitive(a, b, a);
      LessIrreflexive(a);
    }
  }

  /** `b <= a` and `c <= b` give `c <= a`. */
  lemma NotLessTransitive(a: string, b: string, c: string)
    requires !Less(a, b) && !Less(b, c)
    ensures !Less(a, c)
  {
    LessTotal(a, b);
    LessTotal(b, c);
    if Less(a, c) {
      if a == b {
      } else if b == c {
      } else {
        LessTransitive(c, b, a);
        LessAsymmetric(c, a);
      }
    }
  }

  /** Ascending order, equal neighbours allowed. */
  predicate Sorted(s: seq<string>)
  {
    forall i, j :: 0 <= i < j < |s| ==> !Less(s[j], s[i])
  }

  /** Ascending order without repetitions. */
  predicate StrictlySorted(s: seq<string>)
  {
    forall i, j :: 0 <= i < j < |s| ==> Less(s[i], s[j])
  }

  /** `x` placed before the first element of `s` that is not smaller. */
  function Insert(x: string, s: seq<string>): seq<string>
    decreases |s|
  {
    if |s| == 0 then [x]
    else if !Less(s[0], x) then [x] + s
    else [s[0]] + Insert(x, s[1..])
  }

  /** Inserting into a sorted sequence keeps it sorted and adds exactly `x`. */
  lemma {:induction false} InsertSpec(x: string, s: seq<string>)
    requires Sorted(s)
    ensures Sorted(Insert(x, s))
    ensures multiset(Insert(x, s)) == multiset(s) + multiset{x}
    decreases |s|
  {
    if |s| > 0 {
      if !Less(s[0], x) {
        InsertFront(x, s);
      } else {
        InsertSpec(x, s[1..]);
        assert s == [s[0]] + s[1..];
        InsertBehind(x, s, Insert(x, s[1..]));
      }
    }
  }

  lemma InsertFront(x: string, s: seq<string>)
    requires Sorted(s) && |s| > 0 && !Less(s[0], x)
    ensures Sorted([x] + s)
  {
    forall j | 0 < j < |s| + 1
      ensures !Less(([x] + s)[j], x)
    {
      if j > 1 {
        NotLessTransitive(s[j - 1], s[0], x);
      }
    }
  }

  lemma InsertBehind(x: string, s: seq<string>, t: seq<string>)
    requires Sorted(s) && |s| > 0 && Less(s[0], x)
    requires Sorted(t) && multiset(t) == multiset(s[1..]) + multiset{x}
    ensures Sorted([s[0]] + t)
  {
    forall j | 0 <= j < |t|
      ensures !Less(t[j], s[0])
    {
      assert t[j] in multiset(t);
      if t[j] == x {
        LessAsymmetric(s[0], x);
      } else {
        assert t[j] in s[1..];
        var k :| 0 <= k < |s[1..]| && s[1..][k] == t[j];
        assert s[k + 1] == t[j];
      }
    }
  }

  /** `sorted(s)`, by insertion. */
  function SortStrings(s: seq<string>): seq<string>
    decreases |s|
  {
    if |s| == 0 then [] else Insert(s[0], SortStrings(s[1..]))
  }

  /** `sorted(s)` is an ascending rearrangement of `s`. */
  lemma {:induction false} SortStringsSpec(s: seq<string>)
    ensures Sorted(SortStrings(s))
    ensures multiset(SortStrings(s)) == multiset(s)
    decreases |s|
  {
    if |s| > 0 {
      SortStringsSpec(s[1..]);
      InsertSpec(s[0], SortStrings(s[1..]));
      assert s == [s[0]] + s[1..];
    }
  }

  /** Sorting keeps exactly the elements. */
  lemma SortStringsMembers(s: seq<string>)
    ensures forall x :: x in SortStrings(s) <==> x in s
  {
    SortStringsSpec(s);
    assert forall x :: x in SortStrings(s) <==> x in multiset(SortStrings(s));
  }

  /** A sorted sequence without repetitions is strictly sorted. */
  lemma SortedNoDupStrict(s: seq<string>)
    requires Sorted(s) && NoDup(s)
    ensures StrictlySorted(s)
  {
    forall i, j | 0 <= i < j < |s|
      ensures Less(s[i], s[j])
    {
      LessTotal(s[i], s[j]);
    }
  }

  /** Two strictly sorted sequences with the same elements are equal, so a
      sorted list of distinct strings is determined by its element set. */
  lemma {:induction false} StrictlySortedUnique(a: seq<string>, b: seq<string>)
    requires StrictlySorted(a) && StrictlySorted(b)
    requires forall x :: x in a <==> x in b
    ensures a == b
    decreases |a|
  {
    if |a| > 0 {
      assert a[0] in a && b[0] in b;
      assert |b| > 0;
      if a[0] != b[0] {
        var k :| 0 <= k < |b| && b[k] == a[0];
        var m :| 0 <= m < |a| && a[m] == b[0];
        assert k > 0 && m > 0;
        LessAsymmetric(b[0], a[0]);
      }
      forall x
        ensures x in a[1..] <==> x in b[1..]
      {
        if x in a[1..] {
          var k :| 0 <= k < |a[1..]| && a[1..][k] == x;
          LessIrreflexive(a[0]);
          assert x != a[0];
          assert x in b;
          var m :| 0 <= m < |b| && b[m] == x;
          assert m != 0;
          assert b[1..][m - 1] == x;
        }
        if x in b[1..] {
          var k :| 0 <= k < |b[1..]| && b[1..][k] == x;
          LessIrreflexive(b[0]);
          assert x != b[0];
          assert x in a;
          var m :| 0 <= m < |a| && a[m] == x;
          assert m != 0;
          assert a[1..][m - 1] == x;
        }
      }
      StrictlySortedUnique(a[1..], b[1..]);
      assert a == [a[0]] + a[1..] && b == [b[0]] + b[1..];
    } else {
      FirstMember(b);
    }
  }

  lemma FirstMember(s: seq<string>)
    ensures |s| > 0 ==> s[0] in s
  {
  }

  /** Sorting a sequence without repetitions gives a strictly sorted one
      with the same elements. */
  lemma SortNoDupStrict(d: seq<string>)
    requires NoDup(d)
    ensures StrictlySorted(SortStrings(d))
    ensures forall x :: x in SortStrings(d) <==> x in d
  {
    var r := SortStrings(d);
    SortStringsSpec(d);
    assert forall x :: x in r <==> x in multiset(d);
    assert NoDup(r) by {
      forall i, j | 0 <= i < j < |r|
        ensures r[i] != r[j]
      {
        if r[i] == r[j] {
          DuplicateCount(r, i, j);
          NoDupCount(d, r[i]);
        }
      }
    }
    SortedNoDupStrict(r);
  }

  /** `sorted(set(s))`: the distinct elements of `s` in ascending order. */
  function SortedDistinct(s: seq<string>): seq<string>
  {
    SortStrings(Dedup(s))
  }

  /** `sorted(set(s))` lists the distinct elements of `s` in strictly
      ascending order. */
  lemma SortedDistinctSpec(s: seq<string>)
    ensures StrictlySorted(SortedDistinct(s))
    ensures forall x :: x in SortedDistinct(s) <==> x in s
  {
    SortNoDupStrict(Dedup(s));
  }

  lemma DuplicateCount(s: seq<string>, i: int, j: int)
    requires 0 <= i < j < |s| && s[i] == s[j]
    ensures multiset(s)[s[i]] >= 2
  {
    assert s == s[..i] + [s[i]] + s[i + 1..j] + [s[j]] + s[j + 1..];
  }

  lemma {:induction false} NoDupCount(s: seq<string>, x: string)
    requires NoDup(s)
    ensures multiset(s)[x] <= 1
    decreases |s|
  {
    if |s| > 0 {
      NoDupCount(s[1..], x);
      assert s == [s[0]] + s[1..];
      if s[0] == x {
        assert x !in s[1..];
      }
    }
  }
}
