/** Sequence and map helpers shared by both implementations: boolean-mask
    selection (`frame[mask]`, list comprehensions with a condition),
    first-occurrence de-duplication, occurrence counting (`Counter`,
    `value_counts`) and sums over the values of a map. */
module Seqs {

  /** The elements of `s` whose position is marked in `keep`, in their
      original order. */
  function Select<T>(s: seq<T>, keep: seq<bool>): (r: seq<T>)
    requires |keep| == |s|
    ensures |r| <= |s|
    ensures forall x :: x in r ==> x in s
    ensures (forall i :: 0 <= i < |s| ==> keep[i]) ==> r == s
    decreases |s|
  {
    if |s| == 0 then []
    else
      var init := s[..|s| - 1];
      var front := Select(init, keep[..|s| - 1]);
      var r := front + (if keep[|s| - 1] then [s[|s| - 1]] else []);
      assert forall x :: x in r ==> x in s by {
        forall x | x in r
          ensures x in s
        {
          if x in front {
            var k :| 0 <= k < |init| && init[k] == x;
            assert s[k] == x;
          }
        }
      }
      assert (forall i :: 0 <= i < |s| ==> keep[i]) ==> r == s by {
        if forall i :: 0 <= i < |s| ==> keep[i] {
          assert s == init + [s[|s| - 1]];
        }
      }
      r
  }

  /** Selecting from one element more extends the selection by that element
      when it is marked. */
  lemma SelectStep<T>(s: seq<T>, keep: seq<bool>, i: int)
    requires |keep| == |s| && 0 <= i < |s|
    ensures Select(s[..i + 1], keep[..i + 1])
      == Select(s[..i], keep[..i]) + (if keep[i] then [s[i]] else [])
  {
    assert s[..i + 1][..i] == s[..i] && keep[..i + 1][..i] == keep[..i];
  }

  predicate Increasing(p: seq<nat>)
  {
    forall a, b :: 0 <= a < b < |p| ==> p[a] < p[b]
  }

  /** The positions of `keep` that hold `true`, in ascending order. */
  function TruePositions(keep: seq<bool>): (p: seq<nat>)
    ensures Increasing(p)
    ensures forall k :: 0 <= k < |p| ==> p[k] < |keep| && keep[p[k]]
    ensures forall i :: 0 <= i < |keep| && keep[i] ==> i in p
    decreases |keep|
  {
    if |keep| == 0 then []
    else TruePositions(keep[..|keep| - 1]) + (if keep[|keep| - 1] then [|keep| - 1] else [])
  }

  /** `Select` keeps exactly the marked positions, in increasing order: the
      k-th kept element is the element at the k-th marked position. */
  lemma {:induction false} SelectAt<T>(s: seq<T>, keep: seq<bool>)
    requires |keep| == |s|
    ensures |Select(s, keep)| == |TruePositions(keep)|
    ensures forall k :: 0 <= k < |Select(s, keep)| ==>
      Select(s, keep)[k] == s[TruePositions(keep)[k]]
    decreases |s|
  {
    if |s| > 0 {
      SelectAt(s[..|s| - 1], keep[..|s| - 1]);
    }
  }

  /** An element is selected iff it stands at some marked position. */
  lemma SelectMembership<T>(s: seq<T>, keep: seq<bool>, x: T)
    requires |keep| == |s|
    ensures x in Select(s, keep) <==> exists i :: 0 <= i < |s| && keep[i] && s[i] == x
  {
    SelectAt(s, keep);
    var r, p := Select(s, keep), TruePositions(keep);
    if x in r {
      var k :| 0 <= k < |r| && r[k] == x;
      assert keep[p[k]] && s[p[k]] == x;
    }
    if i :| 0 <= i < |s| && keep[i] && s[i] == x {
      var k :| 0 <= k < |p| && p[k] == i;
      assert r[k] == x;
    }
  }

  /** Nothing is selected when no position is marked. */
  lemma {:induction false} SelectNone<T>(s: seq<T>, keep: seq<bool>)
    requires |keep| == |s|
    requires forall i :: 0 <= i < |s| ==> !keep[i]
    ensures Select(s, keep) == []
    decreases |s|
  {
    if |s| > 0 {
      SelectNone(s[..|s| - 1], keep[..|s| - 1]);
    }
  }

  /** Selecting from a sequence without repetitions keeps it without
      repetitions. */
  lemma SelectNoDup<T>(s: seq<T>, keep: seq<bool>)
    requires |keep| == |s| && NoDup(s)
    ensures NoDup(Select(s, keep))
  {
    SelectAt(s, keep);
    var p := TruePositions(keep);
    forall a, b | 0 <= a < b < |Select(s, keep)|
      ensures Select(s, keep)[a] != Select(s, keep)[b]
    {
      assert p[a] < p[b];
    }
  }

  /** A prefix one element longer. */
  lemma PrefixStep<T>(s: seq<T>, i: int)
    requires 0 <= i < |s|
    ensures s[..i + 1] == s[..i] + [s[i]]
  {
  }

  /** An element of a non-empty sequence is in its front or is its last. */
  lemma InitOrLast<T>(s: seq<T>, x: T)
    requires |s| > 0
    ensures x in s <==> x in s[..|s| - 1] || x == s[|s| - 1]
  {
    assert s == s[..|s| - 1] + [s[|s| - 1]];
  }

  predicate NoDup<T(==)>(s: seq<T>)
  {
    forall i, j :: 0 <= i < j < |s| ==> s[i] != s[j]
  }

  /** The distinct elements of `s` in order of first occurrence. */
  function Dedup<T(==,!new)>(s: seq<T>): (r: seq<T>)
    ensures NoDup(r)
    ensures forall x :: x in r <==> x in s
    decreases |s|
  {
    if |s| == 0 then []
    else
      var d := Dedup(s[..|s| - 1]);
      assert forall x :: x in s <==> x in s[..|s| - 1] || x == s[|s| - 1];
      if s[|s| - 1] in d then d else d + [s[|s| - 1]]
  }

  /** `list(s)` of a set: its elements once each, in an order the model
      leaves open. */
  method SetToSeq<T>(s: set<T>) returns (r: seq<T>)
    ensures NoDup(r)
    ensures forall x :: x in r <==> x in s
  {
    r := [];
    var rest := s;
    while rest != {}
      invariant NoDup(r)
      invariant forall x :: x in s <==> x in r || x in rest
      invariant forall x :: x in r ==> x !in rest
      decreases rest
    {
      var x :| x in rest;
      r := r + [x];
      rest := rest - {x};
    }
  }

  /** The occurrence count of every element of `s`, built one element at a
      time as a `Counter` is. */
  function CountMap<K(==,!new)>(s: seq<K>): (m: map<K, nat>)
    ensures forall k :: k in m <==> k in s
    ensures forall k :: k in m ==> m[k] == multiset(s)[k] && m[k] >= 1
    decreases |s|
  {
    if |s| == 0 then map[]
    else
      var m := CountMap(s[..|s| - 1]);
      var x := s[|s| - 1];
      assert s == s[..|s| - 1] + [x];
      m[x := (if x in m then m[x] else 0) + 1]
  }

  /** The sum of the values of `m` at `keys`. */
  ghost function SumOver<K>(m: map<K, nat>, keys: set<K>): nat
    requires keys <= m.Keys
    decreases keys
  {
    if keys == {} then 0
    else
      var k :| k in keys;
      m[k] + SumOver(m, keys - {k})
  }

  ghost function SumOverReal<K>(m: map<K, real>, keys: set<K>): real
    requires keys <= m.Keys
    decreases keys
  {
    if keys == {} then 0.0
    else
      var k :| k in keys;
      m[k] + SumOverReal(m, keys - {k})
  }

  /** The sum of the values of a map. */
  ghost function MapSum<K>(m: map<K, nat>): nat
  {
    SumOver(m, m.Keys)
  }

  ghost function MapSumReal<K>(m: map<K, real>): real
  {
    SumOverReal(m, m.Keys)
  }

  /** The sum does not depend on the key that is taken out first. */
  lemma {:induction false} SumOverRemove<K>(m: map<K, nat>, keys: set<K>, k: K)
    requires keys <= m.Keys && k in keys
    ensures SumOver(m, keys) == m[k] + SumOver(m, keys - {k})
    decreases keys
  {
    var j :| j in keys && SumOver(m, keys) == m[j] + SumOver(m, keys - {j});
    if j != k {
      SumOverRemove(m, keys - {j}, k);
      SumOverRemove(m, keys - {k}, j);
      assert keys - {j} - {k} == keys - {k} - {j};
    }
  }

  lemma {:induction false} SumOverRealRemove<K>(m: map<K, real>, keys: set<K>, k: K)
    requires keys <= m.Keys && k in keys
    ensures SumOverReal(m, keys) == m[k] + SumOverReal(m, keys - {k})
    decreases keys
  {
    var j :| j in keys && SumOverReal(m, keys) == m[j] + SumOverReal(m, keys - {j});
    if j != k {
      SumOverRealRemove(m, keys - {j}, k);
      SumOverRealRemove(m, keys - {k}, j);
      assert keys - {j} - {k} == keys - {k} - {j};
    }
  }

  /** Two maps that agree on `keys` have the same sum there. */
  lemma {:induction false} SumOverAgree<K>(m: map<K, nat>, m': map<K, nat>, keys: set<K>)
    requires keys <= m.Keys && keys <= m'.Keys
    requires forall k :: k in keys ==> m[k] == m'[k]
    ensures SumOver(m, keys) == SumOver(m', keys)
    decreases keys
  {
    if keys != {} {
      var k :| k in keys && SumOver(m, keys) == m[k] + SumOver(m, keys - {k});
      SumOverRemove(m', keys, k);
      SumOverAgree(m, m', keys - {k});
    }
  }

  lemma MapSumRemove<K>(m: map<K, nat>, k: K)
    requires k in m
    ensures MapSum(m) == m[k] + MapSum(m - {k})
  {
    SumOverRemove(m, m.Keys, k);
    assert (m - {k}).Keys == m.Keys - {k};
    SumOverAgree(m, m - {k}, m.Keys - {k});
  }

  /** Replacing the value of one key changes the sum by the difference. */
  lemma MapSumUpdate<K>(m: map<K, nat>, k: K, v: nat)
    ensures MapSum(m[k := v]) + (if k in m then m[k] else 0) == MapSum(m) + v
  {
    var m' := m[k := v];
    MapSumRemove(m', k);
    assert m' - {k} == m - {k};
    if k in m {
      MapSumRemove(m, k);
    } else {
      assert m - {k} == m;
    }
  }

  /** The occurrence counts of a sequence add up to its length. */
  lemma {:induction false} CountMapSum<K(!new)>(s: seq<K>)
    ensures MapSum(CountMap(s)) == |s|
    decreases |s|
  {
    if |s| > 0 {
      var m := CountMap(s[..|s| - 1]);
      var x := s[|s| - 1];
      CountMapSum(s[..|s| - 1]);
      MapSumUpdate(m, x, (if x in m then m[x] else 0) + 1);
    }
  }

  /** `n` times `f`, as `n` additions of `f`. */
  function Scale(n: nat, f: real): real
    decreases n
  {
    if n == 0 then 0.0 else Scale(n - 1, f) + f
  }

  lemma {:induction false} ScaleIsProduct(n: nat, f: real)
    ensures Scale(n, f) == n as real * f
    decreases n
  {
    if n > 0 {
      ScaleIsProduct(n - 1, f);
      assert (n - 1) as real * f + f == n as real * f;
    }
  }

  lemma {:induction false} ScaleAdd(a: nat, b: nat, f: real)
    ensures Scale(a + b, f) == Scale(a, f) + Scale(b, f)
    decreases b
  {
    if b > 0 {
      ScaleAdd(a, b - 1, f);
    }
  }

  /** `p` holds the values of `c`, each multiplied by `f`. */
  ghost predicate ScaledBy<K>(c: map<K, nat>, p: map<K, real>, f: real)
  {
    p.Keys == c.Keys && forall k :: k in c ==> p[k] == c[k] as real * f
  }

  /** Scaling every value of a map by `f` scales its sum by `f`. */
  lemma ScaledSum<K>(c: map<K, nat>, p: map<K, real>, f: real)
    requires ScaledBy(c, p, f)
    ensures MapSumReal(p) == MapSum(c) as real * f
  {
    assert MapSumReal(p) == Scale(MapSum(c), f) by {
      ScaledByRepeated(c, p, f);
      ScaledSumOver(c, p, f, c.Keys);
    }
    ScaleIsProduct(MapSum(c), f);
  }

  lemma ScaledByRepeated<K>(c: map<K, nat>, p: map<K, real>, f: real)
    requires ScaledBy(c, p, f)
    ensures p.Keys == c.Keys
    ensures forall k :: k in c ==> p[k] == Scale(c[k], f)
  {
    forall k | k in c
      ensures p[k] == Scale(c[k], f)
    {
      ScaleIsProduct(c[k], f);
    }
  }

  lemma {:induction false} ScaledSumOver<K>(c: map<K, nat>, p: map<K, real>, f: real, keys: set<K>)
    requires keys <= c.Keys && keys <= p.Keys
    requires forall k :: k in keys ==> p[k] == Scale(c[k], f)
    ensures SumOverReal(p, keys) == Scale(SumOver(c, keys), f)
    decreases keys
  {
    if keys != {} {
      var k :| k in keys;
      SumOverRemove(c, keys, k);
      SumOverRealRemove(p, keys, k);
      ScaledSumOver(c, p, f, keys - {k});
      ScaleAdd(c[k], SumOver(c, keys - {k}), f);
    }
  }
}
