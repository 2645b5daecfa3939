/** Order-preserving selection from a sequence: the model of indexing a data
    frame with a boolean mask (`df[mask]`), which keeps the rows whose mask entry
    is true, in their original order. */
module Seqs {

  /** Strictly increasing sequence of positions. */
  predicate Ascending(idx: seq<int>)
  {
    forall j, k :: 0 <= j < k < |idx| ==> idx[j] < idx[k]
  }

  /** The elements of `s` that satisfy `keep`, in their original order. */
  function Filter<T>(s: seq<T>, keep: T -> bool): (r: seq<T>)
    ensures |r| <= |s|
    ensures forall x :: x in r ==> x in s && keep(x)
  {
    if |s| == 0 then []
    else Filter(s[..|s| - 1], keep) + (if keep(s[|s| - 1]) then [s[|s| - 1]] else [])
  }

  /** The positions in `s` of the elements that satisfy `keep`, ascending. */
  function KeptIndices<T>(s: seq<T>, keep: T -> bool): (idx: seq<int>)
    ensures forall j :: 0 <= j < |idx| ==> 0 <= idx[j] < |s|
    ensures Ascending(idx)
  {
    if |s| == 0 then []
    else KeptIndices(s[..|s| - 1], keep) + (if keep(s[|s| - 1]) then [|s| - 1] else [])
  }

  /** `r` is the order-preserving selection of the positions `idx` of `s`, and
      those positions are exactly the ones whose element satisfies `keep`. */
  ghost predicate SelectsExactly<T>(s: seq<T>, r: seq<T>, idx: seq<int>, keep: T -> bool)
  {
    && |r| == |idx|
    && Ascending(idx)
    && (forall j :: 0 <= j < |idx| ==> 0 <= idx[j] < |s| && r[j] == s[idx[j]])
    && (forall i :: 0 <= i < |s| ==> (i in idx <==> keep(s[i])))
  }

  /** The meaning of `Filter`: its result is exactly the elements at the kept
      positions, in ascending order of position, and a position is kept iff its
      element satisfies the predicate. */
  lemma {:induction false} FilterSelects<T>(s: seq<T>, keep: T -> bool)
    ensures SelectsExactly(s, Filter(s, keep), KeptIndices(s, keep), keep)
  {
    if |s| > 0 {
      var s', last := s[..|s| - 1], s[|s| - 1];
      FilterSelects(s', keep);
      var front, r' := KeptIndices(s', keep), Filter(s', keep);
      var idx, r := KeptIndices(s, keep), Filter(s, keep);
      assert idx == front + (if keep(last) then [|s| - 1] else []);
      assert r == r' + (if keep(last) then [last] else []);
      forall j | 0 <= j < |idx|
        ensures r[j] == s[idx[j]]
      {
        if j < |front| {
          assert r[j] == r'[j] == s'[front[j]];
        }
      }
      forall i | 0 <= i < |s|
        ensures i in idx <==> keep(s[i])
      {
        if i < |s'| {
          assert s'[i] == s[i];
          assert i in idx <==> i in front;
        } else {
          assert |s| - 1 !in front;
        }
      }
    }
  }

  /** When every element is kept, filtering is the identity. */
  lemma {:induction false} FilterKeepsAll<T>(s: seq<T>, keep: T -> bool)
    requires forall i :: 0 <= i < |s| ==> keep(s[i])
    ensures Filter(s, keep) == s
  {
    if |s| > 0 {
      FilterKeepsAll(s[..|s| - 1], keep);
      assert s[..|s| - 1] + [s[|s| - 1]] == s;
    }
  }

  /** Filtering drops something exactly when some element fails the predicate. */
  lemma {:induction false} FilterDropsFailing<T>(s: seq<T>, keep: T -> bool)
    ensures Filter(s, keep) == s <==> forall i :: 0 <= i < |s| ==> keep(s[i])
    ensures |Filter(s, keep)| == |s| <==> forall i :: 0 <= i < |s| ==> keep(s[i])
  {
    if |s| > 0 {
      var front, last := s[..|s| - 1], s[|s| - 1];
      FilterDropsFailing(front, keep);
      if forall i :: 0 <= i < |s| ==> keep(s[i]) {
        FilterKeepsAll(s, keep);
      } else {
        var i :| 0 <= i < |s| && !keep(s[i]);
        if i < |front| {
          assert front[i] == s[i];
          assert |Filter(front, keep)| < |front|;
        }
        assert |Filter(s, keep)| < |s|;
      }
    }
  }

  /** The positions of `s` whose element satisfies `keep`. */
  function Positions<T>(s: seq<T>, keep: T -> bool): set<int>
  {
    set i | 0 <= i < |s| && keep(s[i])
  }

  /** The selection has one element per position that passes: counting the
      mask's true entries gives the length of the selection. */
  lemma {:induction false} FilterCount<T>(s: seq<T>, keep: T -> bool)
    ensures |Filter(s, keep)| == |Positions(s, keep)|
  {
    if |s| > 0 {
      var s', last := s[..|s| - 1], s[|s| - 1];
      FilterCount(s', keep);
      var extra: set<int> := if keep(last) then {|s| - 1} else {};
      assert Positions(s, keep) == Positions(s', keep) + extra by {
        forall i | 0 <= i < |s'| ensures s[i] == s'[i] {}
      }
      assert |s| - 1 !in Positions(s', keep);
    }
  }

  /** Filtering twice by the same predicate is filtering once. */
  lemma {:induction false} FilterIdempotent<T>(s: seq<T>, keep: T -> bool)
    ensures Filter(Filter(s, keep), keep) == Filter(s, keep)
  {
    FilterKeepsAll(Filter(s, keep), keep);
  }

  /** Filtering distributes over concatenation. */
  lemma {:induction false} FilterAppend<T>(a: seq<T>, b: seq<T>, keep: T -> bool)
    ensures Filter(a + b, keep) == Filter(a, keep) + Filter(b, keep)
    decreases |b|
  {
    if |b| == 0 {
      assert a + b == a;
    } else {
      var b' := b[..|b| - 1];
      assert (a + b)[..|a + b| - 1] == a + b';
      FilterAppend(a, b', keep);
    }
  }

  /** Two filters commute, so a selection of a selection keeps no more than the
      second predicate alone would. */
  lemma {:induction false} FilterCommutes<T>(s: seq<T>, p: T -> bool, q: T -> bool)
    ensures Filter(Filter(s, p), q) == Filter(Filter(s, q), p)
    ensures |Filter(Filter(s, p), q)| <= |Filter(s, q)|
  {
    if |s| > 0 {
      var front, last := s[..|s| - 1], s[|s| - 1];
      FilterCommutes(front, p, q);
      FilterAppend(Filter(front, p), if p(last) then [last] else [], q);
      FilterAppend(Filter(front, q), if q(last) then [last] else [], p);
    }
  }

  /** Positions chosen by two predicates over two equally long sequences agree
      when the predicates agree position by position. */
  lemma {:induction false} KeptIndicesAgree<T, U>(s: seq<T>, p: T -> bool, u: seq<U>, q: U -> bool)
    requires |s| == |u|
    requires forall i :: 0 <= i < |s| ==> p(s[i]) == q(u[i])
    ensures KeptIndices(s, p) == KeptIndices(u, q)
  {
    if |s| > 0 {
      KeptIndicesAgree(s[..|s| - 1], p, u[..|u| - 1], q);
    }
  }
}
