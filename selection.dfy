/**
 Order-preserving "keep some elements, transform each kept one" over sequences:
 the shape shared by a Python loop that appends to a list under a condition and by
 a list comprehension with an `if`. `FilterMap` computes it; `IsSelection` says what
 such a result is, independently of how it is computed.
 */
module Selection {

  /** No element occurs twice. */
  ghost predicate NoDuplicates<T>(s: seq<T>) {
    forall j, k :: 0 <= j < k < |s| ==> s[j] != s[k]
  }

  /** `idx` lists positions below `n` in strictly increasing order. */
  ghost predicate Ascending(idx: seq<int>, n: int) {
    && (forall k :: 0 <= k < |idx| ==> 0 <= idx[k] < n)
    && (forall j, k :: 0 <= j < k < |idx| ==> idx[j] < idx[k])
  }

  /**
   `r` is `f` applied to exactly those elements of `s` that satisfy `keep`, each once,
   in the order they have in `s`: some increasing list of positions holds precisely
   the positions whose element is kept, and `r` follows it.
   */
  ghost predicate IsSelection<T, U>(r: seq<U>, s: seq<T>, keep: T -> bool, f: T -> U) {
    exists idx: seq<int> :: SelectedAt(idx, r, s, keep, f)
  }

  /** `idx` is a list of positions that witnesses `IsSelection(r, s, keep, f)`. */
  ghost predicate SelectedAt<T, U>(idx: seq<int>, r: seq<U>, s: seq<T>, keep: T -> bool, f: T -> U) {
    && Ascending(idx, |s|)
    && |idx| == |r|
    && (forall i :: 0 <= i < |s| ==> (keep(s[i]) <==> i in idx))
    && (forall k :: 0 <= k < |r| ==> r[k] == f(s[idx[k]]))
  }

  function Id<T>(x: T): T { x }

  /** Walk `s` from the front, appending `f(x)` for every `x` that satisfies `keep`. */
  function FilterMap<T, U>(s: seq<T>, keep: T -> bool, f: T -> U): (r: seq<U>)
    ensures |r| <= |s|
  {
    if s == [] then []
    else
      var n := |s| - 1;
      FilterMap(s[..n], keep, f) + (if keep(s[n]) then [f(s[n])] else [])
  }

  /** One more element of `s` examined: the selection so far grows by that element at most. */
  lemma FilterMapSnoc<T, U>(s: seq<T>, i: int, keep: T -> bool, f: T -> U)
    requires 0 <= i < |s|
    ensures FilterMap(s[..i + 1], keep, f)
         == FilterMap(s[..i], keep, f) + (if keep(s[i]) then [f(s[i])] else [])
  {
    assert s[..i + 1][..i] == s[..i];
  }

  /** The positions of `s` whose element satisfies `keep`, ascending. */
  ghost function Positions<T>(s: seq<T>, keep: T -> bool): seq<int> {
    if s == [] then []
    else
      var n := |s| - 1;
      Positions(s[..n], keep) + (if keep(s[n]) then [n] else [])
  }

  lemma {:induction false} PositionsAscending<T>(s: seq<T>, keep: T -> bool)
    ensures Ascending(Positions(s, keep), |s|)
  {
    if s != [] {
      PositionsAscending(s[..|s| - 1], keep);
    }
  }

  lemma {:induction false} PositionsExact<T>(s: seq<T>, keep: T -> bool)
    ensures forall i :: 0 <= i < |s| ==> (keep(s[i]) <==> i in Positions(s, keep))
  {
    if s != [] {
      var n := |s| - 1;
      PositionsExact(s[..n], keep);
      PositionsAscending(s[..n], keep);
      var p' := Positions(s[..n], keep);
      assert n !in p' by {
        forall k | 0 <= k < |p'| ensures p'[k] != n { }
      }
      forall i | 0 <= i < |s|
        ensures keep(s[i]) <==> i in Positions(s, keep)
      {
        if i < n {
          assert s[..n][i] == s[i];
        }
      }
    }
  }

  lemma {:induction false} FilterMapAtPositions<T, U>(s: seq<T>, keep: T -> bool, f: T -> U)
    ensures |Positions(s, keep)| == |FilterMap(s, keep, f)|
    ensures Ascending(Positions(s, keep), |s|)
    ensures forall k :: 0 <= k < |FilterMap(s, keep, f)| ==>
              FilterMap(s, keep, f)[k] == f(s[Positions(s, keep)[k]])
  {
    if s != [] {
      var n := |s| - 1;
      FilterMapAtPositions(s[..n], keep, f);
      PositionsAscending(s, keep);
      var p' := Positions(s[..n], keep);
      forall k | 0 <= k < |p'| ensures s[..n][p'[k]] == s[p'[k]] { }
    }
  }

  /** `FilterMap` meets its description. */
  lemma FilterMapIsSelection<T, U>(s: seq<T>, keep: T -> bool, f: T -> U)
    ensures IsSelection(FilterMap(s, keep, f), s, keep, f)
  {
    PositionsAscending(s, keep);
    PositionsExact(s, keep);
    FilterMapAtPositions(s, keep, f);
    assert SelectedAt(Positions(s, keep), FilterMap(s, keep, f), s, keep, f);
  }

  /**
   Two selections in a row are one selection: keep by `k1` and map by `f`, then keep by
   `k2` and map by `g`, is keeping what passes both and mapping by `f` then `g`.
   */
  lemma {:induction false} FilterMapCompose<T, U, V>(s: seq<T>, k1: T -> bool, f: T -> U,
                                                     k2: U -> bool, g: U -> V,
                                                     k: T -> bool, h: T -> V)
    requires forall x :: k(x) == (k1(x) && k2(f(x)))
    requires forall x :: h(x) == g(f(x))
    ensures FilterMap(FilterMap(s, k1, f), k2, g) == FilterMap(s, k, h)
  {
    if s != [] {
      var n := |s| - 1;
      FilterMapCompose(s[..n], k1, f, k2, g, k, h);
      var inner := FilterMap(s[..n], k1, f);
      assert k(s[n]) == (k1(s[n]) && k2(f(s[n]))) && h(s[n]) == g(f(s[n]));
      if k1(s[n]) {
        var t := inner + [f(s[n])];
        assert t[..|t| - 1] == inner;
        assert FilterMap(s, k1, f) == t;
        assert FilterMap(t, k2, g)
            == FilterMap(inner, k2, g) + (if k2(f(s[n])) then [g(f(s[n]))] else []);
      } else {
        assert FilterMap(s, k1, f) == inner;
      }
      assert FilterMap(s, k, h) == FilterMap(s[..n], k, h) + (if k(s[n]) then [h(s[n])] else []);
    }
  }

  /** When nothing in `s` is kept, the result is empty. */
  lemma {:induction false} FilterMapOfNothing<T, U>(s: seq<T>, keep: T -> bool, f: T -> U)
    requires forall i :: 0 <= i < |s| ==> !keep(s[i])
    ensures FilterMap(s, keep, f) == []
  {
    if s != [] {
      var n := |s| - 1;
      assert forall i :: 0 <= i < n ==> s[..n][i] == s[i];
      FilterMapOfNothing(s[..n], keep, f);
    }
  }

  /**
   Every element of a selection is `f` of a kept element of `s`, and every kept element
   of `s` contributes to it.
   */
  lemma {:induction false} SelectionMembers<T, U>(r: seq<U>, s: seq<T>, keep: T -> bool, f: T -> U)
    requires IsSelection(r, s, keep, f)
    ensures forall k :: 0 <= k < |r| ==> exists i :: 0 <= i < |s| && keep(s[i]) && r[k] == f(s[i])
    ensures forall i :: 0 <= i < |s| && keep(s[i]) ==> f(s[i]) in r
  {
    var idx :| SelectedAt(idx, r, s, keep, f);
    forall k | 0 <= k < |r|
      ensures exists i :: 0 <= i < |s| && keep(s[i]) && r[k] == f(s[i])
    {
      assert idx[k] in idx;
      assert 0 <= idx[k] < |s| && keep(s[idx[k]]) && r[k] == f(s[idx[k]]);
    }
    assert forall k :: 0 <= k < |r| ==> exists i :: 0 <= i < |s| && keep(s[i]) && r[k] == f(s[i]);
    forall i | 0 <= i < |s| && keep(s[i])
      ensures f(s[i]) in r
    {
      assert i in idx;
      var k :| 0 <= k < |idx| && idx[k] == i;
      assert r[k] == f(s[i]);
    }
  }

  /** Selecting from a sequence without duplicates (and not transforming) gives none either. */
  lemma {:induction false} SelectionKeepsDistinct<T>(r: seq<T>, s: seq<T>, keep: T -> bool)
    requires IsSelection(r, s, keep, Id)
    requires NoDuplicates(s)
    ensures NoDuplicates(r)
  {
    var idx :| SelectedAt(idx, r, s, keep, Id);
    forall j, k | 0 <= j < k < |r|
      ensures r[j] != r[k]
    {
      assert idx[j] < idx[k];
    }
  }
  lemma HasMember<T>(s: seq<T>)
    requires s != []
    ensures exists x :: x in s
  {
    assert s[0] in s;
  }

  /**
   The last element of a non-empty increasing list is its largest, and dropping it
   leaves exactly the elements below it.
   */
  lemma {:induction false} AscendingLast(a: seq<int>, n: int)
    requires Ascending(a, n) && a != []
    ensures forall i :: i in a ==> i <= a[|a| - 1]
    ensures forall i :: i in a[..|a| - 1] <==> i in a && i < a[|a| - 1]
  {
    var m := |a| - 1;
    forall i | i in a ensures i <= a[m] {
      var j :| 0 <= j < |a| && a[j] == i;
      assert j < m ==> a[j] < a[m];
    }
    forall i ensures i in a[..m] <==> i in a && i < a[m] {
      if i in a[..m] {
        var j :| 0 <= j < m && a[..m][j] == i;
        assert a[j] < a[m];
      }
      if i in a && i < a[m] {
        var j :| 0 <= j < |a| && a[j] == i;
        assert j != m;
        assert a[..m][j] == i;
      }
    }
  }

  /** Two increasing position lists holding the same positions are equal. */
  lemma {:induction false} AscendingDetermined(a: seq<int>, b: seq<int>, n: int)
    requires Ascending(a, n) && Ascending(b, n)
    requires forall i :: i in a <==> i in b
    ensures a == b
    decreases |a| + |b|
  {
    if a == [] && b == [] {
    } else if a == [] {
      HasMember(b);
      assert false;
    } else if b == [] {
      HasMember(a);
      assert false;
    } else {
      var x, y := a[|a| - 1], b[|b| - 1];
      AscendingLast(a, n);
      AscendingLast(b, n);
      assert x in a && y in b;
      assert x <= y && y <= x;
      var a', b' := a[..|a| - 1], b[..|b| - 1];
      assert Ascending(a', n) && Ascending(b', n);
      forall i ensures i in a' <==> i in b' {
        assert i in a' <==> i in a && i < x;
        assert i in b' <==> i in b && i < y;
      }
      AscendingDetermined(a', b', n);
      assert a == a' + [x] && b == b' + [y];
    }
  }

  /** A selection is determined by its input: `IsSelection` fixes the result completely. */
  lemma {:induction false} SelectionDetermined<T, U>(r1: seq<U>, r2: seq<U>, s: seq<T>, keep: T -> bool, f: T -> U)
    requires IsSelection(r1, s, keep, f) && IsSelection(r2, s, keep, f)
    ensures r1 == r2
  {
    var idx1 :| SelectedAt(idx1, r1, s, keep, f);
    var idx2 :| SelectedAt(idx2, r2, s, keep, f);
    forall i ensures i in idx1 <==> i in idx2 {
      if i in idx1 || i in idx2 {
        assert 0 <= i < |s|;
      }
    }
    AscendingDetermined(idx1, idx2, |s|);
  }
}
