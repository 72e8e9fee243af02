/** Order-preserving filters over sequences, the shape of every stage of the
    analysis: a loop appending kept items, a boolean-mask row selection. */
module Seqs {
  import opened Results

  /** Apply `f` to each item in order and keep the present results: the loop
      that appends to a list only when a line parses. */
  function FilterMap<A, B>(f: A -> Option<B>, s: seq<A>): (r: seq<B>)
    ensures |r| <= |s|
  {
    if |s| == 0 then []
    else FilterMap(f, s[..|s| - 1]) + (match f(s[|s| - 1]) case Some(y) => [y] case None => [])
  }

  /** Keep the items satisfying `p`, in order: a boolean-mask row selection. */
  function Filter<T>(p: T -> bool, s: seq<T>): (r: seq<T>)
    ensures |r| <= |s|
    ensures forall k :: 0 <= k < |r| ==> p(r[k])
  {
    if |s| == 0 then []
    else Filter(p, s[..|s| - 1]) + (if p(s[|s| - 1]) then [s[|s| - 1]] else [])
  }

  /** The positions of `s` that FilterMap keeps, in ascending order. */
  function KeptIndices<A, B>(f: A -> Option<B>, s: seq<A>): seq<nat>
  {
    if |s| == 0 then []
    else KeptIndices(f, s[..|s| - 1]) + (if f(s[|s| - 1]).Some? then [|s| - 1] else [])
  }

  predicate StrictlyIncreasing(idx: seq<nat>)
  {
    forall j, k :: 0 <= j < k < |idx| ==> idx[j] < idx[k]
  }

  /** `r` is the image under `f` of the subsequence of `s` at positions `idx`,
      and `idx` lists every position where `f` gives a value. */
  ghost predicate SelectedBy<A, B>(f: A -> Option<B>, s: seq<A>, idx: seq<nat>, r: seq<B>)
  {
    && |idx| == |r|
    && StrictlyIncreasing(idx)
    && (forall k :: 0 <= k < |idx| ==> idx[k] < |s| && f(s[idx[k]]) == Some(r[k]))
    && (forall i :: 0 <= i < |s| && f(s[i]).Some? ==> i in idx)
  }

  lemma SelectedByExtend<A, B>(f: A -> Option<B>, s: seq<A>, idx: seq<nat>, r: seq<B>)
    requires |s| > 0
    requires SelectedBy(f, s[..|s| - 1], idx, r)
    ensures f(s[|s| - 1]).None? ==> SelectedBy(f, s, idx, r)
    ensures f(s[|s| - 1]).Some? ==> SelectedBy(f, s, idx + [|s| - 1], r + [f(s[|s| - 1]).value])
  {
    var n := |s| - 1;
    var init := s[..n];
    assert forall i :: 0 <= i < n ==> s[i] == init[i];
    if f(s[n]).Some? {
      var idx', r' := idx + [n], r + [f(s[n]).value];
      forall k | 0 <= k < |idx'|
        ensures idx'[k] < |s| && f(s[idx'[k]]) == Some(r'[k])
      {
        if k < |idx| {
          assert idx'[k] == idx[k] && r'[k] == r[k];
        }
      }
      forall i | 0 <= i < |s| && f(s[i]).Some?
        ensures i in idx'
      {
        if i < n {
          assert init[i] == s[i];
          assert i in idx;
        } else {
          assert idx'[|idx|] == i;
        }
      }
    } else {
      forall i | 0 <= i < |s| && f(s[i]).Some?
        ensures i in idx
      {
        assert i < n;
        assert init[i] == s[i];
      }
    }
  }

  /** FilterMap keeps order and drops only absent results: its output is the
      image of the subsequence of `s` at the strictly increasing positions
      KeptIndices, and every position where `f` gives a value is among them. */
  lemma {:induction false} FilterMapSubsequence<A, B>(f: A -> Option<B>, s: seq<A>)
    ensures SelectedBy(f, s, KeptIndices(f, s), FilterMap(f, s))
  {
    if |s| > 0 {
      FilterMapSubsequence(f, s[..|s| - 1]);
      SelectedByExtend(f, s, KeptIndices(f, s[..|s| - 1]), FilterMap(f, s[..|s| - 1]));
    }
  }

  /** The predicate `p` as a partial identity, so a Filter is a FilterMap. */
  function Keep<T>(p: T -> bool): T -> Option<T>
  {
    x => if p(x) then Some(x) else None
  }

  lemma {:induction false} FilterIsFilterMap<T>(p: T -> bool, s: seq<T>)
    ensures Filter(p, s) == FilterMap(Keep(p), s)
  {
    if |s| > 0 {
      FilterIsFilterMap(p, s[..|s| - 1]);
    }
  }

  /** Filter removes items and never reorders or duplicates the rest: the
      result is the subsequence of `s` at strictly increasing positions, and
      those positions are exactly the items satisfying `p`. */
  lemma FilterSubsequence<T>(p: T -> bool, s: seq<T>)
    ensures SelectedBy(Keep(p), s, KeptIndices(Keep(p), s), Filter(p, s))
  {
    FilterIsFilterMap(p, s);
    FilterMapSubsequence(Keep(p), s);
  }

  /** Membership: an item is kept exactly when it occurs in `s` and satisfies `p`. */
  lemma {:induction false} FilterMembership<T>(p: T -> bool, s: seq<T>, x: T)
    ensures x in Filter(p, s) <==> x in s && p(x)
  {
    if |s| > 0 {
      var init := s[..|s| - 1];
      FilterMembership(p, init, x);
      assert s == init + [s[|s| - 1]];
    }
  }

  /** A property every item of `s` has survives filtering. */
  lemma {:induction false} FilterKeeps<T>(p: T -> bool, q: T -> bool, s: seq<T>)
    requires forall k :: 0 <= k < |s| ==> q(s[k])
    ensures forall k :: 0 <= k < |Filter(p, s)| ==> q(Filter(p, s)[k])
  {
    forall k | 0 <= k < |Filter(p, s)|
      ensures q(Filter(p, s)[k])
    {
      var x := Filter(p, s)[k];
      FilterMembership(p, s, x);
      var j :| 0 <= j < |s| && s[j] == x;
    }
  }

  /** Two complementary filters split `s` between them: their sizes add up to `|s|`. */
  lemma {:induction false} FilterComplement<T>(p: T -> bool, q: T -> bool, s: seq<T>)
    requires forall x :: q(x) == !p(x)
    ensures |Filter(p, s)| + |Filter(q, s)| == |s|
  {
    if |s| > 0 {
      FilterComplement(p, q, s[..|s| - 1]);
    }
  }

  /** `f` followed by the test `p` on its result, as a single partial function. */
  function Guard<A, B>(f: A -> Option<B>, p: B -> bool): A -> Option<B>
  {
    x => match f(x) case Some(y) => (if p(y) then Some(y) else None) case None => None
  }

  /** Filtering the output of a FilterMap is the FilterMap of the guarded
      function, so the kept items still trace back to input positions. */
  lemma {:induction false} FilterAfterFilterMap<A, B>(f: A -> Option<B>, p: B -> bool, s: seq<A>)
    ensures Filter(p, FilterMap(f, s)) == FilterMap(Guard(f, p), s)
  {
    if |s| > 0 {
      var init := s[..|s| - 1];
      FilterAfterFilterMap(f, p, init);
      var tail := match f(s[|s| - 1]) case Some(y) => [y] case None => [];
      FilterConcat(p, FilterMap(f, init), tail);
    }
  }

  lemma FilterConcat<T>(p: T -> bool, a: seq<T>, b: seq<T>)
    requires |b| <= 1
    ensures Filter(p, a + b) == Filter(p, a) + Filter(p, b)
  {
    if |b| == 1 {
      assert (a + b)[..|a + b| - 1] == a;
      assert Filter(p, b) == (if p(b[0]) then [b[0]] else []) by {
        assert b[..0] == [];
      }
    } else {
      assert a + b == a;
    }
  }
}
