/** Order-preserving selection over sequences: the model of the array `filter`
    method that the task list, the delete handler and the statistics all use. */
module Selection {

  /** The elements of `s` that satisfy `p`, in their original order. */
  function Select<T>(s: seq<T>, p: T -> bool): (r: seq<T>)
    ensures |r| <= |s|
    ensures forall i :: 0 <= i < |r| ==> r[i] in s && p(r[i])
    ensures forall i :: 0 <= i < |s| && p(s[i]) ==> s[i] in r
  {
    if s == [] then []
    else
      var last := s[|s| - 1];
      Select(s[..|s| - 1], p) + (if p(last) then [last] else [])
  }

  /** `idx` lists strictly increasing positions of `s` whose elements, in order, are `r`:
      `r` is a subsequence of `s`, and `idx` says where each element came from. */
  ghost predicate Picks<T>(idx: seq<int>, r: seq<T>, s: seq<T>)
  {
    && |idx| == |r|
    && (forall k :: 0 <= k < |idx| ==> 0 <= idx[k] < |s| && s[idx[k]] == r[k])
    && (forall k, l :: 0 <= k < l < |idx| ==> idx[k] < idx[l])
  }

  /** The selection keeps exactly the positions whose element satisfies `p`,
      and keeps them in order. */
  lemma {:induction false} SelectIsExactSubsequence<T>(s: seq<T>, p: T -> bool)
    ensures exists idx :: Picks(idx, Select(s, p), s) && Exact(idx, s, p)
  {
    if s == [] {
      assert Picks([], Select(s, p), s) && Exact([], s, p);
    } else {
      var n := |s|;
      var init := s[..n - 1];
      SelectIsExactSubsequence(init, p);
      var idx0 :| Picks(idx0, Select(init, p), init) && Exact(idx0, init, p);
      var idx := PicksSnoc(idx0, Select(init, p), s, p);
      assert Picks(idx, Select(s, p), s) && Exact(idx, s, p);
    }
  }

  /** `idx` holds exactly the positions of `s` whose element satisfies `p`. */
  ghost predicate Exact<T>(idx: seq<int>, s: seq<T>, p: T -> bool)
  {
    forall i :: 0 <= i < |s| ==> (i in idx <==> p(s[i]))
  }

  /** One step of the induction above: extending the witness by the last position. */
  lemma PicksSnoc<T>(idx0: seq<int>, r0: seq<T>, s: seq<T>, p: T -> bool) returns (idx: seq<int>)
    requires s != []
    requires Picks(idx0, r0, s[..|s| - 1]) && Exact(idx0, s[..|s| - 1], p)
    ensures var last := s[|s| - 1];
      Picks(idx, r0 + (if p(last) then [last] else []), s) && Exact(idx, s, p)
  {
    var n := |s|;
    var last := s[n - 1];
    assert forall k :: 0 <= k < |idx0| ==> idx0[k] < n - 1;
    idx := if p(last) then idx0 + [n - 1] else idx0;
    forall i | 0 <= i < n
      ensures i in idx <==> p(s[i])
    {
      if i < n - 1 {
        assert s[..n - 1][i] == s[i];
      } else {
        assert n - 1 !in idx0;
      }
    }
  }

  /** Appending one element selects it or not on its own. */
  lemma SelectSnoc<T>(s: seq<T>, x: T, p: T -> bool)
    ensures Select(s + [x], p) == Select(s, p) + (if p(x) then [x] else [])
  {
    assert (s + [x])[..|s|] == s;
  }

  /** Selection distributes over concatenation. */
  lemma {:induction false} SelectAppend<T>(a: seq<T>, b: seq<T>, p: T -> bool)
    ensures Select(a + b, p) == Select(a, p) + Select(b, p)
  {
    if b == [] {
      assert a + b == a;
    } else {
      var n := |b|;
      assert (a + b)[..|a + b| - 1] == a + b[..n - 1];
      SelectAppend(a, b[..n - 1], p);
    }
  }

  /** When every element passes, selection returns the sequence unchanged. */
  lemma {:induction false} SelectAllPass<T>(s: seq<T>, p: T -> bool)
    requires forall i :: 0 <= i < |s| ==> p(s[i])
    ensures Select(s, p) == s
  {
    if s != [] {
      var n := |s|;
      assert forall i :: 0 <= i < n - 1 ==> s[..n - 1][i] == s[i];
      SelectAllPass(s[..n - 1], p);
      assert s[..n - 1] + [s[n - 1]] == s;
    }
  }

  /** When no element passes, selection is empty. */
  lemma {:induction false} SelectNonePass<T>(s: seq<T>, p: T -> bool)
    requires forall i :: 0 <= i < |s| ==> !p(s[i])
    ensures Select(s, p) == []
  {
    if s != [] {
      var n := |s|;
      assert forall i :: 0 <= i < n - 1 ==> s[..n - 1][i] == s[i];
      SelectNonePass(s[..n - 1], p);
    }
  }

  /** Two predicates that agree on every element select the same subsequence. */
  lemma {:induction false} SelectAgreeing<T>(s: seq<T>, p: T -> bool, q: T -> bool)
    requires forall i :: 0 <= i < |s| ==> p(s[i]) == q(s[i])
    ensures Select(s, p) == Select(s, q)
  {
    if s != [] {
      var n := |s|;
      assert forall i :: 0 <= i < n - 1 ==> s[..n - 1][i] == s[i];
      SelectAgreeing(s[..n - 1], p, q);
    }
  }

  /** Selecting twice with the same predicate changes nothing the second time. */
  lemma {:induction false} SelectIdempotent<T>(s: seq<T>, p: T -> bool)
    ensures Select(Select(s, p), p) == Select(s, p)
  {
    var r := Select(s, p);
    assert forall i :: 0 <= i < |r| ==> r[i] in r;
    SelectAllPass(r, p);
  }

  /** Selecting from a sequence in which exactly one element fails drops just that element. */
  lemma SelectDropsOne<T>(front: seq<T>, x: T, back: seq<T>, p: T -> bool)
    requires forall i :: 0 <= i < |front| ==> p(front[i])
    requires forall i :: 0 <= i < |back| ==> p(back[i])
    requires !p(x)
    ensures Select(front + [x] + back, p) == front + back
  {
    calc {
      Select(front + [x] + back, p);
      { SelectAppend(front + [x], back, p); }
      Select(front + [x], p) + Select(back, p);
      { SelectAppend(front, [x], p); }
      Select(front, p) + Select([x], p) + Select(back, p);
      { SelectAllPass(front, p); SelectAllPass(back, p); SelectNonePass([x], p); }
      front + [] + back;
      { assert front + [] == front; }
      front + back;
    }
  }
}
