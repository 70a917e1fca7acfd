/** Python's `[x for x in s if p(x)]` and `len([...])`, the only collection
    operations the report's counters use. */
module Comprehension {

  /** The elements of `s` that satisfy `p`, in the order of `s`. */
  function Filter<T>(s: seq<T>, p: T -> bool): (r: seq<T>)
    ensures |r| <= |s|
  {
    if s == [] then []
    else
      var kept := Filter(s[..|s| - 1], p);
      if p(s[|s| - 1]) then kept + [s[|s| - 1]] else kept
  }

  /** `len([x for x in s if p(x)])`. */
  function Count<T>(s: seq<T>, p: T -> bool): (n: nat)
    ensures n <= |s|
  {
    |Filter(s, p)|
  }

  /** Appending one element extends the filtered list by that element exactly
      when it satisfies `p`. */
  lemma FilterSnoc<T>(s: seq<T>, x: T, p: T -> bool)
    ensures Filter(s + [x], p) == if p(x) then Filter(s, p) + [x] else Filter(s, p)
  {
    assert (s + [x])[..|s + [x]| - 1] == s;
  }

  /** Filtering a two-element list keeps each element that satisfies `p`,
      in order. */
  lemma FilterPair<T>(a: T, b: T, p: T -> bool)
    ensures Filter([a, b], p) == (if p(a) then [a] else []) + (if p(b) then [b] else [])
  {
    assert [a, b] == [a] + [b];
    assert [a] == [] + [a];
    FilterSnoc([], a, p);
    FilterSnoc([a], b, p);
  }

  /** Filtering distributes over concatenation: everything kept from `a`
      precedes everything kept from `b`. */
  lemma {:induction false} FilterAppend<T>(a: seq<T>, b: seq<T>, p: T -> bool)
    ensures Filter(a + b, p) == Filter(a, p) + Filter(b, p)
    decreases |b|
  {
    if b == [] {
      assert a + b == a;
    } else {
      var b' := b[..|b| - 1];
      var x := b[|b| - 1];
      assert b == b' + [x];
      assert a + b == (a + b') + [x];
      FilterAppend(a, b', p);
      FilterSnoc(a + b', x, p);
      FilterSnoc(b', x, p);
      if p(x) {
        calc {
          Filter(a + b, p);
          Filter(a + b', p) + [x];
          (Filter(a, p) + Filter(b', p)) + [x];
          Filter(a, p) + (Filter(b', p) + [x]);
          Filter(a, p) + Filter(b, p);
        }
      }
    }
  }

  /** The filtered list holds every element satisfying `p` exactly as often
      as `s` does, and nothing else. */
  lemma {:induction false} FilterMultiset<T>(s: seq<T>, p: T -> bool, x: T)
    ensures multiset(Filter(s, p))[x] == if p(x) then multiset(s)[x] else 0
  {
    if s != [] {
      var s' := s[..|s| - 1];
      assert s == s' + [s[|s| - 1]];
      FilterMultiset(s', p, x);
      FilterSnoc(s', s[|s| - 1], p);
    }
  }

  /** Nothing in `s` satisfies `p` exactly when nothing is kept. */
  lemma {:induction false} FilterEmpty<T>(s: seq<T>, p: T -> bool)
    ensures Filter(s, p) == [] <==> forall i :: 0 <= i < |s| ==> !p(s[i])
  {
    if s != [] {
      var s' := s[..|s| - 1];
      FilterEmpty(s', p);
      assert forall i :: 0 <= i < |s'| ==> s'[i] == s[i];
    }
  }

  /** The positions of `s` whose elements satisfy `p`, in increasing order. */
  ghost function Positions<T>(s: seq<T>, p: T -> bool): seq<nat>
  {
    if s == [] then []
    else
      var ix := Positions(s[..|s| - 1], p);
      if p(s[|s| - 1]) then ix + [|s| - 1] else ix
  }

  lemma {:induction false} PositionsLength<T>(s: seq<T>, p: T -> bool)
    ensures |Positions(s, p)| == |Filter(s, p)|
  {
    if s != [] {
      PositionsLength(s[..|s| - 1], p);
    }
  }

  lemma {:induction false} PositionsBounded<T>(s: seq<T>, p: T -> bool)
    ensures forall k :: 0 <= k < |Positions(s, p)| ==> Positions(s, p)[k] < |s| && p(s[Positions(s, p)[k]])
    ensures forall k, l :: 0 <= k < l < |Positions(s, p)| ==> Positions(s, p)[k] < Positions(s, p)[l]
  {
    if s != [] {
      var s' := s[..|s| - 1];
      PositionsBounded(s', p);
      assert forall i :: 0 <= i < |s'| ==> s'[i] == s[i];
    }
  }

  lemma {:induction false} PositionsSelect<T>(s: seq<T>, p: T -> bool)
    ensures |Positions(s, p)| == |Filter(s, p)|
    ensures forall k :: 0 <= k < |Positions(s, p)| ==>
      Positions(s, p)[k] < |s| && s[Positions(s, p)[k]] == Filter(s, p)[k]
  {
    PositionsLength(s, p);
    PositionsBounded(s, p);
    if s != [] {
      var n := |s| - 1;
      var s' := s[..n];
      PositionsSelect(s', p);
      PositionsBounded(s', p);
      var ix, ix' := Positions(s, p), Positions(s', p);
      var f, f' := Filter(s, p), Filter(s', p);
      if p(s[n]) {
        assert ix == ix' + [n] && f == f' + [s[n]];
      } else {
        assert ix == ix' && f == f';
      }
      forall k | 0 <= k < |ix'|
        ensures s[ix[k]] == f[k]
      {
        assert ix[k] == ix'[k] && f[k] == f'[k];
        assert s'[ix'[k]] == s[ix'[k]];
      }
    }
  }

  lemma {:induction false} PositionsComplete<T>(s: seq<T>, p: T -> bool)
    ensures forall i :: 0 <= i < |s| && p(s[i]) ==> i in Positions(s, p)
  {
    if s != [] {
      var s' := s[..|s| - 1];
      PositionsComplete(s', p);
      assert forall i :: 0 <= i < |s'| ==> s'[i] == s[i];
    }
  }

  /** Filtering keeps the input order: the `k`-th kept element is the element
      of `s` at the `k`-th position that satisfies `p`, these positions
      increase, and no satisfying position is skipped. */
  lemma FilterKeepsOrder<T>(s: seq<T>, p: T -> bool)
    ensures |Positions(s, p)| == |Filter(s, p)|
    ensures forall k :: 0 <= k < |Positions(s, p)| ==>
      Positions(s, p)[k] < |s| && p(s[Positions(s, p)[k]]) && s[Positions(s, p)[k]] == Filter(s, p)[k]
    ensures forall k, l :: 0 <= k < l < |Positions(s, p)| ==> Positions(s, p)[k] < Positions(s, p)[l]
    ensures forall i :: 0 <= i < |s| && p(s[i]) ==> i in Positions(s, p)
  {
    PositionsSelect(s, p);
    PositionsBounded(s, p);
    PositionsComplete(s, p);
  }
}
