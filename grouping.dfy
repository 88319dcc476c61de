/** Group-by over sequences: the rows of one group, the distinct keys in first-occurrence
    order, and the fact that group sums (and group sizes) add up to the whole. */
module Grouping {
  import RealStats

  /** `f` applied to every element, in order (a column of a frame). */
  function Values<T>(s: seq<T>, f: T -> real): (r: seq<real>)
    ensures |r| == |s|
    ensures forall i :: 0 <= i < |s| ==> r[i] == f(s[i])
  {
    seq(|s|, i requires 0 <= i < |s| => f(s[i]))
  }

  lemma {:induction false} ValuesAppend<T>(a: seq<T>, b: seq<T>, f: T -> real)
    ensures Values(a + b, f) == Values(a, f) + Values(b, f)
  {
    assert forall i :: 0 <= i < |a + b| ==> Values(a + b, f)[i] == (Values(a, f) + Values(b, f))[i];
  }

  lemma {:induction false} ValuesCons<T>(x: T, s: seq<T>, f: T -> real)
    ensures Values([x] + s, f) == [f(x)] + Values(s, f)
  {
    ValuesAppend([x], s, f);
    assert Values([x], f) == [f(x)];
  }

  /** The elements whose key is `k`, in their original order: one group of a group-by. */
  function Where<T, K(==)>(s: seq<T>, key: T -> K, k: K): (r: seq<T>)
    ensures |r| <= |s|
    ensures forall x :: x in r ==> x in s && key(x) == k
    ensures forall i :: 0 <= i < |s| && key(s[i]) == k ==> s[i] in r
  {
    if s == [] then []
    else
      var init := s[..|s| - 1];
      assert forall i :: 0 <= i < |init| ==> init[i] == s[i];
      Where(init, key, k) + (if key(s[|s| - 1]) == k then [s[|s| - 1]] else [])
  }

  /** Appending one element adds it to its own group and to no other. */
  lemma {:induction false} WhereSnoc<T, K>(s: seq<T>, x: T, key: T -> K, k: K)
    ensures Where(s + [x], key, k) == Where(s, key, k) + (if key(x) == k then [x] else [])
  {
    assert (s + [x])[..|s + [x]| - 1] == s;
  }

  /** Grouping distributes over concatenation. */
  lemma {:induction false} WhereAppend<T, K>(a: seq<T>, b: seq<T>, key: T -> K, k: K)
    ensures Where(a + b, key, k) == Where(a, key, k) + Where(b, key, k)
    decreases |b|
  {
    if b == [] {
      assert a + b == a;
    } else {
      var n := |b| - 1;
      assert a + b == (a + b[..n]) + [b[n]];
      assert b == b[..n] + [b[n]];
      WhereAppend(a, b[..n], key, k);
      WhereSnoc(a + b[..n], b[n], key, k);
      WhereSnoc(b[..n], b[n], key, k);
    }
  }

  /** A sequence whose every key is `k` is its own group. */
  lemma {:induction false} WhereAll<T, K>(s: seq<T>, key: T -> K, k: K)
    requires forall i :: 0 <= i < |s| ==> key(s[i]) == k
    ensures Where(s, key, k) == s
    decreases |s|
  {
    if s != [] {
      var n := |s| - 1;
      var init, x := s[..n], s[n];
      assert s == init + [x];
      assert forall i :: 0 <= i < |init| ==> key(init[i]) == k by {
        assert forall i :: 0 <= i < |init| ==> init[i] == s[i];
      }
      WhereAll(init, key, k);
      WhereSnoc(init, x, key, k);
    }
  }

  /** A sequence with no key `k` has an empty group. */
  lemma {:induction false} WhereNone<T, K>(s: seq<T>, key: T -> K, k: K)
    requires forall i :: 0 <= i < |s| ==> key(s[i]) != k
    ensures Where(s, key, k) == []
    decreases |s|
  {
    if s != [] {
      var n := |s| - 1;
      var init, x := s[..n], s[n];
      assert s == init + [x];
      assert forall i :: 0 <= i < |init| ==> key(init[i]) != k by {
        assert forall i :: 0 <= i < |init| ==> init[i] == s[i];
      }
      WhereNone(init, key, k);
      WhereSnoc(init, x, key, k);
    }
  }

  /** A group of `key` that lies inside one class `c` of `p` is the same whether it is picked
      from the whole sequence or from that class. */
  lemma {:induction false} WhereWithin<T, P, K>(s: seq<T>, p: T -> P, c: P, key: T -> K, k: K)
    requires forall i :: 0 <= i < |s| && key(s[i]) == k ==> p(s[i]) == c
    ensures Where(Where(s, p, c), key, k) == Where(s, key, k)
    decreases |s|
  {
    if s != [] {
      var n := |s| - 1;
      var init, x := s[..n], s[n];
      assert s == init + [x];
      assert forall i :: 0 <= i < |init| ==> init[i] == s[i];
      WhereWithin(init, p, c, key, k);
      WhereSnoc(init, x, p, c);
      WhereSnoc(init, x, key, k);
      var w := Where(init, p, c);
      if p(x) == c {
        WhereSnoc(w, x, key, k);
      } else {
        assert w + [] == w;
      }
    }
  }

  /** Splitting by a yes/no test loses and duplicates nothing: the two classes add up to the
      whole, and their sizes to its length. */
  lemma {:induction false} SplitByTest<T>(s: seq<T>, p: T -> bool, f: T -> real)
    ensures RealStats.Sum(Values(Where(s, p, true), f)) + RealStats.Sum(Values(Where(s, p, false), f))
         == RealStats.Sum(Values(s, f))
    ensures |Where(s, p, true)| + |Where(s, p, false)| == |s|
  {
    var ks := [true, false];
    forall i | 0 <= i < |s| ensures p(s[i]) in ks {
      assert ks[if p(s[i]) then 0 else 1] == p(s[i]);
    }
    PartitionSum(ks, s, p, f);
    PartitionCount(ks, s, p);
    assert ks[1..] == [false] && [false][1..] == [];
    assert SumGroups([false], s, p, f) == RealStats.Sum(Values(Where(s, p, false), f)) + SumGroups([], s, p, f);
    assert SumGroups(ks, s, p, f) == RealStats.Sum(Values(Where(s, p, true), f)) + SumGroups([false], s, p, f);
    CountGroupsCons(true, [false], s, p);
    CountGroupsCons(false, [], s, p);
  }

  /** The blocks of `ks`, one after another: the frame a nested group-by produces. */
  function ConcatMap<K, T>(ks: seq<K>, block: K -> seq<T>): seq<T>
  {
    if ks == [] then [] else block(ks[0]) + ConcatMap(ks[1..], block)
  }

  /** When every element of the block of `k` has key `k`, the group of `b` in the
      concatenated blocks is the block of `b`, or empty when `b` is not a block key. */
  lemma {:induction false} SelectBlock<K, T>(ks: seq<K>, block: K -> seq<T>, key: T -> K, b: K)
    requires NoDuplicates(ks)
    requires forall j, i :: 0 <= j < |ks| && 0 <= i < |block(ks[j])| ==> key(block(ks[j])[i]) == ks[j]
    ensures Where(ConcatMap(ks, block), key, b) == if b in ks then block(b) else []
  {
    if ks == [] {
      WhereNone([], key, b);
    } else {
      var k := ks[0];
      var tail := ConcatMap(ks[1..], block);
      assert ks == [k] + ks[1..];
      NoDuplicatesTail(ks);
      assert forall j, i :: 0 <= j < |ks[1..]| && 0 <= i < |block(ks[1..][j])| ==> key(block(ks[1..][j])[i]) == ks[1..][j] by {
        assert forall j :: 0 <= j < |ks[1..]| ==> ks[1..][j] == ks[j + 1];
      }
      SelectBlock(ks[1..], block, key, b);
      WhereAppend(block(k), tail, key, b);
      assert forall i :: 0 <= i < |block(k)| ==> key(block(k)[i]) == k by {
        assert ks[0] == k;
      }
      if b == k {
        WhereAll(block(k), key, b);
      } else {
        WhereNone(block(k), key, b);
      }
    }
  }

  /** `a` is `b` with some elements left out, the others in their original order
      (matched greedily from the back). */
  predicate IsSubsequence<T(==)>(a: seq<T>, b: seq<T>)
    decreases |b|
  {
    a == [] ||
    (b != [] &&
     if a[|a| - 1] == b[|b| - 1] then IsSubsequence(a[..|a| - 1], b[..|b| - 1])
     else IsSubsequence(a, b[..|b| - 1]))
  }

  /** A group keeps its elements in their original order. */
  lemma {:induction false} WhereIsSubsequence<T, K>(s: seq<T>, key: T -> K, k: K)
    ensures IsSubsequence(Where(s, key, k), s)
    decreases |s|
  {
    if s != [] {
      var init, x := s[..|s| - 1], s[|s| - 1];
      WhereIsSubsequence(init, key, k);
      var w := Where(init, key, k);
      if key(x) == k {
        assert Where(s, key, k) == w + [x];
        assert (w + [x])[..|w + [x]| - 1] == w;
      } else {
        assert Where(s, key, k) == w;
        assert w != [] ==> w[|w| - 1] in w;
      }
    }
  }

  predicate NoDuplicates<K(==)>(s: seq<K>)
  {
    forall i, j :: 0 <= i < j < |s| ==> s[i] != s[j]
  }

  /** The distinct keys of `s`, each once, in order of first occurrence. */
  function Distinct<T, K(==)>(s: seq<T>, key: T -> K): (r: seq<K>)
    ensures NoDuplicates(r)
    ensures forall i :: 0 <= i < |s| ==> key(s[i]) in r
    ensures forall j :: 0 <= j < |r| ==> exists i :: 0 <= i < |s| && key(s[i]) == r[j]
  {
    if s == [] then []
    else
      var init := s[..|s| - 1];
      assert forall i :: 0 <= i < |init| ==> init[i] == s[i];
      var d := Distinct(init, key);
      if key(s[|s| - 1]) in d then d else d + [key(s[|s| - 1])]
  }

  lemma {:induction false} DistinctSnoc<T, K>(s: seq<T>, x: T, key: T -> K)
    ensures Distinct(s + [x], key) == if key(x) in Distinct(s, key) then Distinct(s, key) else Distinct(s, key) + [key(x)]
  {
    assert (s + [x])[..|s + [x]| - 1] == s;
  }

  /** The sum of `f` over each group named in `ks`, added up. */
  function SumGroups<T, K(==)>(ks: seq<K>, s: seq<T>, key: T -> K, f: T -> real): real
  {
    if ks == [] then 0.0
    else RealStats.Sum(Values(Where(s, key, ks[0]), f)) + SumGroups(ks[1..], s, key, f)
  }

  /** The sizes of the groups named in `ks`, added up. */
  function CountGroups<T, K(==)>(ks: seq<K>, s: seq<T>, key: T -> K): nat
  {
    if ks == [] then 0 else |Where(s, key, ks[0])| + CountGroups(ks[1..], s, key)
  }

  lemma {:induction false} NoDuplicatesTail<K>(ks: seq<K>)
    requires ks != [] && NoDuplicates(ks)
    ensures NoDuplicates(ks[1..])
    ensures ks[0] !in ks[1..]
  {
    forall i, j | 0 <= i < j < |ks[1..]| ensures ks[1..][i] != ks[1..][j] {
      assert ks[1..][i] == ks[i + 1] && ks[1..][j] == ks[j + 1];
    }
    forall j | 0 <= j < |ks[1..]| ensures ks[1..][j] != ks[0] {
      assert ks[1..][j] == ks[j + 1];
    }
  }

  /** Appending one element adds its value to the sum of its own group only. */
  lemma {:induction false} GroupSumSnoc<T, K>(s: seq<T>, x: T, key: T -> K, k: K, f: T -> real)
    ensures RealStats.Sum(Values(Where(s + [x], key, k), f))
         == RealStats.Sum(Values(Where(s, key, k), f)) + (if key(x) == k then f(x) else 0.0)
  {
    var tail := if key(x) == k then [x] else [];
    WhereSnoc(s, x, key, k);
    ValuesAppend(Where(s, key, k), tail, f);
    RealStats.SumAppend(Values(Where(s, key, k), f), Values(tail, f));
    if key(x) == k {
      assert Values(tail, f) == [f(x)];
      assert [f(x)][..0] == [];
    } else {
      assert Values(tail, f) == [];
    }
  }

  lemma {:induction false} SumGroupsSnoc<T, K>(ks: seq<K>, s: seq<T>, x: T, key: T -> K, f: T -> real)
    requires NoDuplicates(ks)
    ensures SumGroups(ks, s + [x], key, f) == SumGroups(ks, s, key, f) + (if key(x) in ks then f(x) else 0.0)
  {
    if ks != [] {
      GroupSumSnoc(s, x, key, ks[0], f);
      NoDuplicatesTail(ks);
      SumGroupsSnoc(ks[1..], s, x, key, f);
      assert ks == [ks[0]] + ks[1..];
    }
  }

  lemma {:induction false} CountGroupsCons<T, K>(k: K, ks: seq<K>, s: seq<T>, key: T -> K)
    ensures CountGroups([k] + ks, s, key) == |Where(s, key, k)| + CountGroups(ks, s, key)
  {
    assert ([k] + ks)[1..] == ks;
  }

  lemma {:induction false} CountGroupsSnoc<T, K>(ks: seq<K>, s: seq<T>, x: T, key: T -> K)
    requires NoDuplicates(ks)
    ensures CountGroups(ks, s + [x], key) == CountGroups(ks, s, key) + (if key(x) in ks then 1 else 0)
  {
    if ks != [] {
      WhereSnoc(s, x, key, ks[0]);
      NoDuplicatesTail(ks);
      CountGroupsSnoc(ks[1..], s, x, key);
      assert ks == [ks[0]] + ks[1..];
    }
  }

  /** Splitting a sequence into groups and summing each group loses and duplicates nothing. */
  lemma {:induction false} PartitionSum<T, K>(ks: seq<K>, s: seq<T>, key: T -> K, f: T -> real)
    requires NoDuplicates(ks)
    requires forall i :: 0 <= i < |s| ==> key(s[i]) in ks
    ensures SumGroups(ks, s, key, f) == RealStats.Sum(Values(s, f))
    decreases |s|
  {
    if s == [] {
      assert SumGroups(ks, [], key, f) == 0.0 by { ZeroGroups(ks, key, f); }
    } else {
      var init, x := s[..|s| - 1], s[|s| - 1];
      assert s == init + [x];
      assert forall i :: 0 <= i < |init| ==> init[i] == s[i];
      PartitionSum(ks, init, key, f);
      SumGroupsSnoc(ks, init, x, key, f);
      assert Values(s, f)[..|s| - 1] == Values(init, f);
    }
  }

  lemma {:induction false} ZeroGroups<T, K>(ks: seq<K>, key: T -> K, f: T -> real)
    ensures SumGroups(ks, [], key, f) == 0.0
  {
    if ks != [] {
      ZeroGroups(ks[1..], key, f);
    }
  }

  lemma {:induction false} EmptyCountGroups<T, K>(ks: seq<K>, key: T -> K)
    ensures CountGroups(ks, [], key) == 0
  {
    if ks != [] {
      EmptyCountGroups<T, K>(ks[1..], key);
    }
  }

  /** Splitting a sequence into groups keeps every element in exactly one group. */
  lemma {:induction false} PartitionCount<T, K>(ks: seq<K>, s: seq<T>, key: T -> K)
    requires NoDuplicates(ks)
    requires forall i :: 0 <= i < |s| ==> key(s[i]) in ks
    ensures CountGroups(ks, s, key) == |s|
    decreases |s|
  {
    if s == [] {
      EmptyCountGroups<T, K>(ks, key);
    } else {
      var init, x := s[..|s| - 1], s[|s| - 1];
      assert s == init + [x];
      PartitionCount(ks, init, key);
      CountGroupsSnoc(ks, init, x, key);
    }
  }
}
