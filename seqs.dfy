/** Sequence operations that the clipboard history and its list view are built
    from: Swift's `firstIndex(where:)`, `filter` and `remove(atOffsets:)`, with
    the facts about them that the rest of the model relies on. */
module Seqs {

  datatype Option<T> = None | Some(value: T)

  /** The position of the first element that satisfies `p`, or `None` when no
      element does (Swift's `firstIndex(where:)`). */
  function FirstIndexWhere<T>(s: seq<T>, p: T -> bool): (r: Option<nat>)
    ensures r.Some? ==> r.value < |s| && p(s[r.value])
    ensures r.Some? ==> forall j :: 0 <= j < r.value ==> !p(s[j])
    ensures r.None? <==> forall j :: 0 <= j < |s| ==> !p(s[j])
  {
    if s == [] then None
    else if p(s[0]) then Some(0)
    else match FirstIndexWhere(s[1..], p)
      case None => None
      case Some(k) => Some(k + 1)
  }

  /** The elements of `s` that satisfy `p`, in their original order (Swift's `filter`). */
  function Filter<T(==,!new)>(s: seq<T>, p: T -> bool): (r: seq<T>)
    ensures |r| <= |s|
    ensures forall x :: x in r <==> x in s && p(x)
    ensures forall x :: multiset(r)[x] == if p(x) then multiset(s)[x] else 0
  {
    if s == [] then []
    else
      var n := |s| - 1;
      assert s == s[..n] + [s[n]];
      Filter(s[..n], p) + (if p(s[n]) then [s[n]] else [])
  }

  /** `s` without the elements at the positions in `offsets`
      (Swift's `remove(atOffsets:)`). */
  function RemoveOffsets<T(!new)>(s: seq<T>, offsets: set<nat>): (r: seq<T>)
    ensures |r| <= |s|
    ensures forall x :: multiset(r)[x] <= multiset(s)[x]
  {
    if s == [] then []
    else
      var n := |s| - 1;
      assert s == s[..n] + [s[n]];
      RemoveOffsets(s[..n], offsets) + (if n in offsets then [] else [s[n]])
  }

  /** `a` is what remains of `b` after deleting some of its elements: the
      survivors keep their relative order. */
  predicate Subseq<T(==)>(a: seq<T>, b: seq<T>)
    decreases |b|
  {
    a == [] ||
    (b != [] &&
     ((a[|a| - 1] == b[|b| - 1] && Subseq(a[..|a| - 1], b[..|b| - 1])) ||
      Subseq(a, b[..|b| - 1])))
  }

  /** No element occurs twice. */
  predicate Distinct<T(==)>(s: seq<T>)
  {
    forall i, j :: 0 <= i < j < |s| ==> s[i] != s[j]
  }

  /** `s` back to front. */
  function Reverse<T(!new)>(s: seq<T>): (r: seq<T>)
    ensures |r| == |s|
    ensures forall x :: x in r <==> x in s
  {
    var r := seq(|s|, i requires 0 <= i < |s| => s[|s| - 1 - i]);
    assert forall j :: 0 <= j < |s| ==> r[|s| - 1 - j] == s[j];
    r
  }

  lemma ReverseSnoc<T(!new)>(s: seq<T>, x: T)
    ensures Reverse(s + [x]) == [x] + Reverse(s)
  {
    assert (s + [x])[..|s|] == s;
  }

  /** The newest `m` elements after appending `x`: `x`, then the newest of
      the ones before it, as far as `m` allows. */
  lemma ReverseSnocTake<T(!new)>(s: seq<T>, x: T, m: nat, k: nat)
    requires k + 1 == Min(|s| + 1, m)
    ensures [x] + Reverse(s)[..Min(|s|, m)][..k] == Reverse(s + [x])[..Min(|s| + 1, m)]
  {
    var r := Reverse(s);
    assert r[..Min(|s|, m)][..k] == r[..k];
    ReverseSnoc(s, x);
    assert k <= |r|;
    ConsTake(x, r, k);
  }

  lemma ConsTake<T>(x: T, s: seq<T>, k: nat)
    requires k <= |s|
    ensures ([x] + s)[..k + 1] == [x] + s[..k]
  {
  }

  /** Where each element of `s` with position `i` removed came from. */
  lemma RemoveAtIndex<T>(s: seq<T>, i: nat)
    requires i < |s|
    ensures var r := s[..i] + s[i + 1..];
      |r| == |s| - 1 && forall k :: 0 <= k < |r| ==> r[k] == s[if k < i then k else k + 1]
  {
  }

  function Min(a: nat, b: nat): nat
  {
    if a <= b then a else b
  }

  /** Every element of a subsequence occurs in the longer sequence. */
  lemma {:induction false} SubseqMembers<T>(a: seq<T>, b: seq<T>)
    requires Subseq(a, b)
    ensures forall x :: x in a ==> x in b
    decreases |b|
  {
    if a != [] {
      var n := |b| - 1;
      assert b == b[..n] + [b[n]];
      if a[|a| - 1] == b[n] && Subseq(a[..|a| - 1], b[..n]) {
        SubseqMembers(a[..|a| - 1], b[..n]);
        assert a == a[..|a| - 1] + [a[|a| - 1]];
      } else {
        SubseqMembers(a, b[..n]);
      }
    }
  }

  /** A subsequence of a sequence without repeats has no repeats. */
  lemma {:induction false} SubseqDistinct<T>(a: seq<T>, b: seq<T>)
    requires Subseq(a, b) && Distinct(b)
    ensures Distinct(a)
    decreases |b|
  {
    if a != [] {
      var n, m := |b| - 1, |a| - 1;
      assert Distinct(b[..n]) by {
        forall i, j | 0 <= i < j < n ensures b[..n][i] != b[..n][j] {
          assert b[..n][i] == b[i] && b[..n][j] == b[j];
        }
      }
      if a[m] == b[n] && Subseq(a[..m], b[..n]) {
        SubseqDistinct(a[..m], b[..n]);
        SubseqMembers(a[..m], b[..n]);
        assert b[n] !in b[..n] by {
          forall k | 0 <= k < n ensures b[..n][k] != b[n] {
            assert b[..n][k] == b[k];
          }
        }
        forall i, j | 0 <= i < j < |a| ensures a[i] != a[j] {
          assert a[i] == a[..m][i];
          if j < m {
            assert a[j] == a[..m][j];
          } else {
            assert a[i] in a[..m];
          }
        }
      } else {
        SubseqDistinct(a, b[..n]);
      }
    }
  }

  lemma {:induction false} SubseqRefl<T>(s: seq<T>)
    ensures Subseq(s, s)
  {
    if s != [] {
      SubseqRefl(s[..|s| - 1]);
    }
  }

  lemma {:induction false} FilterInOrder<T(!new)>(s: seq<T>, p: T -> bool)
    ensures Subseq(Filter(s, p), s)
  {
    if s != [] {
      var n := |s| - 1;
      var r, rest := Filter(s, p), Filter(s[..n], p);
      FilterInOrder(s[..n], p);
      if p(s[n]) {
        assert r == rest + [s[n]];
        assert r[..|r| - 1] == rest;
        assert Subseq(r[..|r| - 1], s[..|s| - 1]);
      } else {
        assert r == rest;
        assert Subseq(r, s[..|s| - 1]);
      }
    }
  }

  /** Removing offsets only ever looks at the offsets below the length. */
  lemma {:induction false} RemoveOffsetsAgree<T(!new)>(s: seq<T>, o1: set<nat>, o2: set<nat>)
    requires forall i :: 0 <= i < |s| ==> (i in o1 <==> i in o2)
    ensures RemoveOffsets(s, o1) == RemoveOffsets(s, o2)
  {
    if s != [] {
      RemoveOffsetsAgree(s[..|s| - 1], o1, o2);
    }
  }

  /** With valid offsets, exactly one element goes per offset. */
  lemma {:induction false} RemoveOffsetsLength<T(!new)>(s: seq<T>, offsets: set<nat>)
    requires forall o :: o in offsets ==> o < |s|
    ensures |RemoveOffsets(s, offsets)| == |s| - |offsets|
  {
    if s == [] {
      assert offsets == {};
    } else {
      var n := |s| - 1;
      var rest := offsets - {n};
      RemoveOffsetsAgree(s[..n], offsets, rest);
      RemoveOffsetsLength(s[..n], rest);
      if n in offsets {
        assert |rest| == |offsets| - 1;
      } else {
        assert rest == offsets;
      }
    }
  }

  /** An element survives exactly when it sits at a position that is not removed. */
  lemma {:induction false} RemoveOffsetsMembers<T(!new)>(s: seq<T>, offsets: set<nat>, x: T)
    ensures x in RemoveOffsets(s, offsets) <==>
            exists i :: 0 <= i < |s| && i !in offsets && s[i] == x
  {
    if s != [] {
      var n := |s| - 1;
      assert RemoveOffsets(s, offsets) == RemoveOffsets(s[..n], offsets) + (if n in offsets then [] else [s[n]]);
      RemoveOffsetsMembers(s[..n], offsets, x);
      if x in RemoveOffsets(s, offsets) {
        if x in RemoveOffsets(s[..n], offsets) {
          var i :| 0 <= i < n && i !in offsets && s[..n][i] == x;
          assert s[i] == x;
        } else {
          assert n !in offsets && s[n] == x;
        }
      }
      if exists i :: 0 <= i < |s| && i !in offsets && s[i] == x {
        var i :| 0 <= i < |s| && i !in offsets && s[i] == x;
        if i < n {
          assert s[..n][i] == x;
        }
      }
    }
  }

  lemma {:induction false} RemoveOffsetsInOrder<T(!new)>(s: seq<T>, offsets: set<nat>)
    ensures Subseq(RemoveOffsets(s, offsets), s)
  {
    if s != [] {
      var n := |s| - 1;
      var r, rest := RemoveOffsets(s, offsets), RemoveOffsets(s[..n], offsets);
      RemoveOffsetsInOrder(s[..n], offsets);
      if n in offsets {
        assert r == rest;
        assert Subseq(r, s[..|s| - 1]);
      } else {
        assert r == rest + [s[n]];
        assert r[..|r| - 1] == rest;
        assert Subseq(r[..|r| - 1], s[..|s| - 1]);
      }
    }
  }

  /** Removing offsets from a prefix of `s` gives a prefix of removing them from `s`. */
  lemma {:induction false} RemoveOffsetsPrefix<T(!new)>(s: seq<T>, offsets: set<nat>, m: nat)
    requires m <= |s|
    ensures var p := RemoveOffsets(s[..m], offsets);
      |p| <= |RemoveOffsets(s, offsets)| && RemoveOffsets(s, offsets)[..|p|] == p
    decreases |s| - m
  {
    if m < |s| {
      var n := |s| - 1;
      assert s[..n][..m] == s[..m];
      RemoveOffsetsPrefix(s[..n], offsets, m);
      var p, q := RemoveOffsets(s[..m], offsets), RemoveOffsets(s[..n], offsets);
      assert RemoveOffsets(s, offsets) == q + (if n in offsets then [] else [s[n]]);
      assert (q + (if n in offsets then [] else [s[n]]))[..|p|] == q[..|p|];
    } else {
      assert s[..m] == s;
    }
  }

  /** Which occurrence survives: the element at a kept position `i` lands right
      after the survivors of the positions before `i`. */
  lemma RemoveOffsetsPosition<T(!new)>(s: seq<T>, offsets: set<nat>, i: nat)
    requires i < |s| && i !in offsets
    ensures var k := |RemoveOffsets(s[..i], offsets)|;
      k < |RemoveOffsets(s, offsets)| && RemoveOffsets(s, offsets)[k] == s[i]
  {
    var t := s[..i + 1];
    assert t[..i] == s[..i];
    assert RemoveOffsets(t, offsets) == RemoveOffsets(s[..i], offsets) + [s[i]];
    RemoveOffsetsPrefix(s, offsets, i + 1);
  }

  /** Removing offsets from a list without repeats leaves a list without repeats. */
  lemma RemoveOffsetsDistinct<T(!new)>(s: seq<T>, offsets: set<nat>)
    requires Distinct(s)
    ensures Distinct(RemoveOffsets(s, offsets))
  {
    RemoveOffsetsInOrder(s, offsets);
    SubseqDistinct(RemoveOffsets(s, offsets), s);
  }

  /** Removing the positions of the elements that fail `keep` is filtering by `keep`. */
  lemma {:induction false} RemoveOffsetsWhere<T(!new)>(s: seq<T>, offsets: set<nat>, keep: T -> bool)
    requires forall i :: 0 <= i < |s| ==> (i in offsets <==> !keep(s[i]))
    ensures RemoveOffsets(s, offsets) == Filter(s, keep)
  {
    if s != [] {
      var n := |s| - 1;
      forall i | 0 <= i < n ensures i in offsets <==> !keep(s[..n][i]) {
        assert s[..n][i] == s[i];
      }
      RemoveOffsetsWhere(s[..n], offsets, keep);
      RemoveOffsetsWhereStep(s, offsets, keep);
    }
  }

  /** The inductive step of `RemoveOffsetsWhere`: the last element goes in both
      or in neither. */
  lemma RemoveOffsetsWhereStep<T(!new)>(s: seq<T>, offsets: set<nat>, keep: T -> bool)
    requires s != [] && (|s| - 1 in offsets <==> !keep(s[|s| - 1]))
    requires RemoveOffsets(s[..|s| - 1], offsets) == Filter(s[..|s| - 1], keep)
    ensures RemoveOffsets(s, offsets) == Filter(s, keep)
  {
  }

  /** Removing the single offset `i` is Swift's `remove(at: i)`. */
  lemma {:induction false} RemoveOffsetsSingle<T(!new)>(s: seq<T>, i: nat)
    requires i < |s|
    ensures RemoveOffsets(s, {i}) == s[..i] + s[i + 1..]
  {
    var n := |s| - 1;
    if i == n {
      RemoveOffsetsAgree(s[..n], {i}, {});
      RemoveOffsetsNone(s[..n]);
    } else {
      RemoveOffsetsSingle(s[..n], i);
      assert s[..n][..i] + s[..n][i + 1..] + [s[n]] == s[..i] + s[i + 1..];
    }
  }

  lemma {:induction false} RemoveOffsetsNone<T(!new)>(s: seq<T>)
    ensures RemoveOffsets(s, {}) == s
  {
    if s != [] {
      RemoveOffsetsNone(s[..|s| - 1]);
      assert s[..|s| - 1] + [s[|s| - 1]] == s;
    }
  }
}
