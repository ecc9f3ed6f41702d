/** The two array operations the dashboard is built from, `Array.prototype.filter` and
    `Array.prototype.map`, as functions on sequences, with the facts about them that the
    employee-list operations rely on. */
module ListOps {

  /** `a` is obtained from `b` by dropping elements, without reordering the ones kept. */
  predicate IsSubsequence<T(==)>(a: seq<T>, b: seq<T>)
    decreases |b|
  {
    if a == [] then true
    else if b == [] then false
    else (a[0] == b[0] && IsSubsequence(a[1..], b[1..])) || IsSubsequence(a, b[1..])
  }

  /** `s.filter(keep)`: the elements of `s` that `keep` accepts, in their original order.
      Every copy of an accepted element is kept and every copy of a rejected one dropped;
      with the order, this fixes the result. */
  function Filter<T(==)>(s: seq<T>, keep: T -> bool): (r: seq<T>)
    ensures |r| <= |s|
    ensures forall i :: 0 <= i < |r| ==> r[i] in s && keep(r[i])
    ensures forall i :: 0 <= i < |s| && keep(s[i]) ==> s[i] in r
    ensures forall i {:trigger multiset(r)[s[i]]} :: 0 <= i < |s| ==>
      multiset(r)[s[i]] == if keep(s[i]) then multiset(s)[s[i]] else 0
    ensures IsSubsequence(r, s)
  {
    if s == [] then []
    else
      var rest := Filter(s[1..], keep);
      var r := if keep(s[0]) then [s[0]] + rest else rest;
      FilterSoundStep(s, rest, keep, r);
      FilterCompleteStep(s, rest, keep, r);
      FilterCountStep(s, rest, keep, r);
      assert keep(s[0]) ==> r[1..] == rest;
      r
  }

  /** The inductive step of `Filter`'s first clause: what `rest` holds comes from the
      tail of `s` and is accepted, so the same holds of `r` and all of `s`. */
  lemma FilterSoundStep<T>(s: seq<T>, rest: seq<T>, keep: T -> bool, r: seq<T>)
    requires s != [] && r == if keep(s[0]) then [s[0]] + rest else rest
    requires forall i :: 0 <= i < |rest| ==> rest[i] in s[1..] && keep(rest[i])
    ensures forall i :: 0 <= i < |r| ==> r[i] in s && keep(r[i])
  {
    assert s == [s[0]] + s[1..];
    forall i | 0 <= i < |r| ensures r[i] in s && keep(r[i]) {
      if keep(s[0]) && i == 0 {
        assert r[i] == s[0];
      } else {
        var k := if keep(s[0]) then i - 1 else i;
        assert r[i] == rest[k];
      }
    }
  }

  /** The inductive step of `Filter`'s second clause: every accepted element of the tail
      is in `rest`, so every accepted element of `s` is in `r`. */
  lemma FilterCompleteStep<T>(s: seq<T>, rest: seq<T>, keep: T -> bool, r: seq<T>)
    requires s != [] && r == if keep(s[0]) then [s[0]] + rest else rest
    requires forall i :: 0 <= i < |s[1..]| && keep(s[1..][i]) ==> s[1..][i] in rest
    ensures forall i :: 0 <= i < |s| && keep(s[i]) ==> s[i] in r
  {
    forall i | 0 <= i < |s| && keep(s[i]) ensures s[i] in r {
      if i > 0 {
        assert s[i] == s[1..][i - 1];
      }
    }
  }

  /** The inductive step of `Filter`'s count clause: if `rest` draws its elements from
      the tail of `s` and holds each accepted one as often as the tail does, then putting
      back the head when it is accepted gives the same for all of `s`. */
  lemma FilterCountStep<T>(s: seq<T>, rest: seq<T>, keep: T -> bool, r: seq<T>)
    requires s != [] && r == if keep(s[0]) then [s[0]] + rest else rest
    requires forall i :: 0 <= i < |rest| ==> rest[i] in s[1..]
    requires forall i {:trigger multiset(rest)[s[1..][i]]} :: 0 <= i < |s[1..]| ==>
      multiset(rest)[s[1..][i]] == if keep(s[1..][i]) then multiset(s[1..])[s[1..][i]] else 0
    ensures forall i {:trigger multiset(r)[s[i]]} :: 0 <= i < |s| ==>
      multiset(r)[s[i]] == if keep(s[i]) then multiset(s)[s[i]] else 0
  {
    var tail := s[1..];
    assert s == [s[0]] + tail;
    assert multiset(s) == multiset{s[0]} + multiset(tail);
    assert multiset(r) == (if keep(s[0]) then multiset{s[0]} else multiset{}) + multiset(rest);
    forall i | 0 <= i < |s|
      ensures multiset(r)[s[i]] == if keep(s[i]) then multiset(s)[s[i]] else 0
    {
      var x := s[i];
      if x in tail {
        var j :| 0 <= j < |tail| && tail[j] == x;
        assert multiset(rest)[tail[j]] == if keep(x) then multiset(tail)[x] else 0;
      } else {
        assert x !in rest;
      }
    }
  }

  /** `s.map(f)`: `f` applied to every element, positions kept. */
  function Map<T, U>(s: seq<T>, f: T -> U): (r: seq<U>)
    ensures |r| == |s|
    ensures forall i :: 0 <= i < |s| ==> r[i] == f(s[i])
  {
    if s == [] then [] else [f(s[0])] + Map(s[1..], f)
  }

  /** Filtering a concatenation filters each part. */
  lemma {:induction false} FilterAppend<T>(a: seq<T>, b: seq<T>, keep: T -> bool)
    ensures Filter(a + b, keep) == Filter(a, keep) + Filter(b, keep)
  {
    if a == [] {
      assert a + b == b;
    } else {
      assert (a + b)[0] == a[0];
      assert (a + b)[1..] == a[1..] + b;
      FilterAppend(a[1..], b, keep);
    }
  }

  /** A filter that accepts every element of `s` returns `s` itself. */
  lemma {:induction false} FilterKeepsAll<T>(s: seq<T>, keep: T -> bool)
    requires forall i :: 0 <= i < |s| ==> keep(s[i])
    ensures Filter(s, keep) == s
  {
    if s != [] {
      assert keep(s[0]);
      FilterKeepsAll(s[1..], keep);
      assert [s[0]] + s[1..] == s;
    }
  }

  /** A filter that accepts no element of `s` returns the empty sequence. */
  lemma {:induction false} FilterDropsAll<T>(s: seq<T>, keep: T -> bool)
    requires forall i :: 0 <= i < |s| ==> !keep(s[i])
    ensures Filter(s, keep) == []
  {
    if s != [] {
      assert !keep(s[0]);
      FilterDropsAll(s[1..], keep);
    }
  }

  /** A filter that rejects the element at position `k` and accepts every other one cuts
      exactly that position out of the list. */
  lemma {:induction false} FilterCutsOut<T>(s: seq<T>, keep: T -> bool, k: nat)
    requires k < |s| && !keep(s[k])
    requires forall i :: 0 <= i < |s| && i != k ==> keep(s[i])
    ensures Filter(s, keep) == s[..k] + s[k + 1..]
    decreases k
  {
    var tail := s[1..];
    if k == 0 {
      FilterKeepsAll(tail, keep);
    } else {
      FilterCutsOut(tail, keep, k - 1);
      assert s[..k] == [s[0]] + tail[..k - 1];
      assert s[k + 1..] == tail[k..];
    }
  }

  /** Two filters applied one after the other are the filter by their conjunction:
      a chain of `.filter` calls is one pass with all the conditions ANDed. */
  lemma {:induction false} FilterTwice<T>(s: seq<T>, p: T -> bool, q: T -> bool, both: T -> bool)
    requires forall x :: both(x) == (p(x) && q(x))
    ensures Filter(Filter(s, p), q) == Filter(s, both)
  {
    if s != [] {
      FilterTwice(s[1..], p, q, both);
      if p(s[0]) {
        assert Filter(s, p) == [s[0]] + Filter(s[1..], p);
        assert Filter(s, p)[0] == s[0] && Filter(s, p)[1..] == Filter(s[1..], p);
      }
    }
  }

  /** The kept and the dropped elements together account for the whole sequence. */
  lemma {:induction false} FilterSplitsLength<T>(s: seq<T>, keep: T -> bool, drop: T -> bool)
    requires forall x :: drop(x) == !keep(x)
    ensures |Filter(s, keep)| + |Filter(s, drop)| == |s|
  {
    if s != [] {
      FilterSplitsLength(s[1..], keep, drop);
    }
  }
}
