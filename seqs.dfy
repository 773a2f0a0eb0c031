/** Order-preserving sequence operations shared by the filters and the pick
    selector, with the facts the rest of the model needs about them. */
module Seqs {

  /** The elements of `s` that satisfy `p`, in their original order
      (a Python list comprehension with an `if`). */
  function Filter<T(!new)>(s: seq<T>, p: T -> bool): (r: seq<T>)
    ensures |r| <= |s|
    decreases |s|
  {
    if s == [] then []
    else (if p(s[0]) then [s[0]] else []) + Filter(s[1..], p)
  }

  /** The filter keeps exactly the elements that satisfy `p`. */
  lemma {:induction false} FilterMembers<T(!new)>(s: seq<T>, p: T -> bool)
    ensures forall x :: x in Filter(s, p) <==> x in s && p(x)
    decreases |s|
  {
    if s != [] {
      FilterMembers(s[1..], p);
      assert s == [s[0]] + s[1..];
    }
  }

  /** Filtering distributes over concatenation: the filter never reorders. */
  lemma {:induction false} FilterConcat<T(!new)>(a: seq<T>, b: seq<T>, p: T -> bool)
    ensures Filter(a + b, p) == Filter(a, p) + Filter(b, p)
    decreases |a|
  {
    if a == [] {
      assert a + b == b;
    } else {
      var c := a + b;
      assert c[0] == a[0] && c[1..] == a[1..] + b;
      var head := if p(a[0]) then [a[0]] else [];
      assert Filter(c, p) == head + Filter(a[1..] + b, p);
      FilterConcat(a[1..], b, p);
      assert Filter(a, p) == head + Filter(a[1..], p);
    }
  }

  lemma FilterSingleton<T(!new)>(x: T, p: T -> bool)
    ensures Filter([x], p) == if p(x) then [x] else []
  {
    assert [x][1..] == [];
  }

  /** Appending one element to the input appends it to the output exactly when it is kept. */
  lemma FilterSnoc<T(!new)>(s: seq<T>, x: T, p: T -> bool)
    ensures Filter(s + [x], p) == Filter(s, p) + (if p(x) then [x] else [])
  {
    FilterConcat(s, [x], p);
    assert [x][1..] == [];
  }

  /** Two filters in a row keep exactly what one filter by the conjunction keeps. */
  lemma {:induction false} FilterFilter<T(!new)>(s: seq<T>, p: T -> bool, q: T -> bool, pq: T -> bool)
    requires forall x :: pq(x) == (p(x) && q(x))
    ensures Filter(Filter(s, p), q) == Filter(s, pq)
    decreases |s|
  {
    if s != [] {
      FilterFilter(s[1..], p, q, pq);
      if p(s[0]) {
        var head := [s[0]];
        assert Filter(s, p) == head + Filter(s[1..], p);
        FilterConcat(head, Filter(s[1..], p), q);
        assert Filter(head, q) == (if q(s[0]) then head else []) by {
          assert head[1..] == [];
        }
      } else {
        assert Filter(s, p) == Filter(s[1..], p);
      }
    }
  }

  /** `f` applied to every element, in order. */
  function Map<T, U>(s: seq<T>, f: T -> U): (r: seq<U>)
    ensures |r| == |s|
    ensures forall i :: 0 <= i < |s| ==> r[i] == f(s[i])
  {
    seq(|s|, i requires 0 <= i < |s| => f(s[i]))
  }

  lemma MapSnoc<T, U>(s: seq<T>, x: T, f: T -> U)
    ensures Map(s + [x], f) == Map(s, f) + [f(x)]
  {
  }

  /** `a` is obtained from `s` by deleting elements, keeping the order of the rest. */
  predicate IsSubseq<T(==)>(a: seq<T>, s: seq<T>)
    decreases |s|
  {
    if a == [] then true
    else if s == [] then false
    else (a[0] == s[0] && IsSubseq(a[1..], s[1..])) || IsSubseq(a, s[1..])
  }

  lemma {:induction false} SubseqMembers<T>(a: seq<T>, s: seq<T>)
    requires IsSubseq(a, s)
    ensures forall x :: x in a ==> x in s
    decreases |s|
  {
    if a != [] {
      if a[0] == s[0] && IsSubseq(a[1..], s[1..]) {
        SubseqMembers(a[1..], s[1..]);
        forall x | x in a ensures x in s {
          if x != a[0] { assert x in a[1..]; }
        }
      } else {
        SubseqMembers(a, s[1..]);
      }
    }
  }

  lemma {:induction false} PrefixIsSubseq<T>(s: seq<T>, n: nat)
    requires n <= |s|
    ensures IsSubseq(s[..n], s)
    decreases |s|
  {
    if n > 0 {
      assert s[..n][1..] == s[1..][..n - 1];
      PrefixIsSubseq(s[1..], n - 1);
    }
  }

  /** The elements of `s` at the positions listed in `idx`, in the order of `idx`. */
  function Pick<T>(s: seq<T>, idx: seq<nat>): (r: seq<T>)
    requires forall k :: 0 <= k < |idx| ==> idx[k] < |s|
    ensures |r| == |idx|
    ensures forall k :: 0 <= k < |idx| ==> r[k] == s[idx[k]]
  {
    seq(|idx|, k requires 0 <= k < |idx| => s[idx[k]])
  }

  /** No position is listed twice. */
  predicate Distinct(idx: seq<nat>)
  {
    forall k, l :: 0 <= k < l < |idx| ==> idx[k] != idx[l]
  }

  /** Positions above `j` shift down by one once position `j` is removed. */
  function Renumber(idx: seq<nat>, j: nat): (r: seq<nat>)
    requires forall k :: 0 <= k < |idx| ==> idx[k] != j
    ensures |r| == |idx|
    ensures forall k :: 0 <= k < |idx| ==> r[k] == if idx[k] < j then idx[k] else idx[k] - 1
  {
    seq(|idx|, k requires 0 <= k < |idx| => if idx[k] < j then idx[k] else idx[k] - 1)
  }

  /** Removing position `j` moves every later element one place down. */
  lemma RemoveAtShifts<T>(s: seq<T>, j: nat, i: nat)
    requires j < |s| && i < |s| && i != j
    ensures var rest := s[..j] + s[j + 1..];
      (if i < j then i else i - 1) < |rest| && rest[if i < j then i else i - 1] == s[i]
  {
  }

  /** Removing one element removes one occurrence of it. */
  lemma RemoveAtMultiset<T>(s: seq<T>, j: nat)
    requires j < |s|
    ensures multiset(s) == multiset(s[..j] + s[j + 1..]) + multiset{s[j]}
  {
    assert s == s[..j] + [s[j]] + s[j + 1..];
  }

  /** The positions after the first, renumbered for the list without the first's element,
      are still distinct and in range. */
  lemma RenumberFits(idx: seq<nat>, n: nat)
    requires idx != [] && forall k :: 0 <= k < |idx| ==> idx[k] < n
    requires Distinct(idx)
    ensures forall k :: 0 <= k < |idx| - 1 ==> idx[1..][k] != idx[0]
    ensures var r := Renumber(idx[1..], idx[0]);
      Distinct(r) && forall k :: 0 <= k < |r| ==> r[k] < n - 1
  {
    var tail := idx[1..];
    assert forall k :: 0 <= k < |tail| ==> tail[k] == idx[k + 1];
    var r := Renumber(tail, idx[0]);
    forall k, l | 0 <= k < l < |r| ensures r[k] != r[l] {
      assert tail[k] != tail[l];
    }
  }

  /** Picking the first position, then the renumbered rest from the shortened list. */
  lemma PickSplit<T>(s: seq<T>, idx: seq<nat>, idx': seq<nat>)
    requires idx != [] && forall k :: 0 <= k < |idx| ==> idx[k] < |s|
    requires |idx'| == |idx| - 1
    requires forall k :: 0 <= k < |idx'| ==> idx'[k] < |s| - 1
    requires forall k :: 0 <= k < |idx'| ==>
      idx[1..][k] != idx[0] && idx'[k] == if idx[1..][k] < idx[0] then idx[1..][k] else idx[1..][k] - 1
    ensures Pick(s, idx) == [s[idx[0]]] + Pick(s[..idx[0]] + s[idx[0] + 1..], idx')
  {
    var j, tail := idx[0], idx[1..];
    var picked := Pick(s[..j] + s[j + 1..], idx');
    forall k | 0 <= k < |idx'| ensures picked[k] == s[tail[k]] {
      RemoveAtShifts(s, j, tail[k]);
    }
  }

  lemma ConsSubMultiset<T>(whole: seq<T>, x: T, picked: seq<T>, rest: seq<T>, s: seq<T>)
    requires whole == [x] + picked && multiset(picked) <= multiset(rest)
    requires multiset(s) == multiset(rest) + multiset{x}
    ensures multiset(whole) <= multiset(s)
  {
  }

  /** Picking distinct positions takes each element of `s` at most as often as it occurs. */
  lemma {:induction false} PickDistinctIsSubMultiset<T>(s: seq<T>, idx: seq<nat>)
    requires forall k :: 0 <= k < |idx| ==> idx[k] < |s|
    requires Distinct(idx)
    ensures multiset(Pick(s, idx)) <= multiset(s)
    decreases |s|
  {
    if idx != [] {
      var j := idx[0];
      var rest := s[..j] + s[j + 1..];
      RenumberFits(idx, |s|);
      var idx' := Renumber(idx[1..], j);
      assert |rest| == |s| - 1;
      assert Distinct(idx') && forall k :: 0 <= k < |idx'| ==> idx'[k] < |rest|;
      assert Pick(s, idx) == [s[j]] + Pick(rest, idx') by {
        PickSplit(s, idx, idx');
      }
      assert multiset(Pick(rest, idx')) <= multiset(rest) by {
        PickDistinctIsSubMultiset(rest, idx');
      }
      assert multiset(s) == multiset(rest) + multiset{s[j]} by {
        RemoveAtMultiset(s, j);
      }
      ConsSubMultiset(Pick(s, idx), s[j], Pick(rest, idx'), rest, s);
    }
  }
}
