/** The derived state of the task list: the filtered view shown to the user
    (status filter, priority filter and case-insensitive search) and the counts
    shown in the header. */
module Query {
  import opened Tasks
  import opened Selection

  // ---------------------------------------------------------------------------
  // Case folding and substring search

  /** Lower-case one character (ASCII letters only). */
  function LowerChar(c: char): (r: char)
    ensures !('A' <= r <= 'Z')
    ensures !('A' <= c <= 'Z') ==> r == c
    ensures 'A' <= c <= 'Z' ==> r as int == c as int + ('a' as int - 'A' as int)
  {
    if 'A' <= c <= 'Z' then (c as int - 'A' as int + 'a' as int) as char else c
  }

  /** Lower-case a string, character by character. */
  function Lower(s: string): (r: string)
    ensures |r| == |s|
    ensures forall i :: 0 <= i < |s| ==> !('A' <= r[i] <= 'Z')
  {
    seq(|s|, i requires 0 <= i < |s| => LowerChar(s[i]))
  }

  /** Lower-casing twice is lower-casing once. */
  lemma LowerIdempotent(s: string)
    ensures Lower(Lower(s)) == Lower(s)
  {
  }

  /** Two characters are the same letter in either case, or simply equal. */
  predicate SameCharUpToCase(x: char, y: char)
  {
    x == y
    || ('A' <= x <= 'Z' && y as int == x as int + ('a' as int - 'A' as int))
    || ('A' <= y <= 'Z' && x as int == y as int + ('a' as int - 'A' as int))
  }

  /** Two strings differ at most in the case of their ASCII letters. */
  predicate SameUpToCase(a: string, b: string)
  {
    |a| == |b| && forall i :: 0 <= i < |a| ==> SameCharUpToCase(a[i], b[i])
  }

  /** Strings that differ only in letter case lower-case to the same string. */
  lemma LowerSameUpToCase(a: string, b: string)
    requires SameUpToCase(a, b)
    ensures Lower(a) == Lower(b)
  {
    forall i | 0 <= i < |a|
      ensures Lower(a)[i] == Lower(b)[i]
    {
      assert SameCharUpToCase(a[i], b[i]);
    }
  }

  /** Every string is the same as its lower-cased form, up to case. */
  lemma SameUpToCaseLower(s: string)
    ensures SameUpToCase(s, Lower(s))
  {
  }

  /** `sub` occurs in `s` starting at position `i`. */
  ghost predicate OccursAt(s: string, sub: string, i: int)
  {
    0 <= i && i + |sub| <= |s| && s[i..i + |sub|] == sub
  }

  /** String `includes`: `sub` occurs somewhere in `s`. */
  function Contains(s: string, sub: string): bool
  {
    |sub| <= |s| && (s[..|sub|] == sub || (|s| > 0 && Contains(s[1..], sub)))
  }

  /** A slice of the tail is the slice of the string one position further on. */
  lemma TailSlice(s: string, i: int, n: int)
    requires 0 <= i && 0 <= n && i + 1 + n <= |s|
    ensures s[1..][i..i + n] == s[i + 1..i + 1 + n]
  {
  }

  /** An occurrence in the tail is an occurrence in the string one position further on. */
  lemma OccursInTail(s: string, sub: string, i: int)
    requires |s| > 0 && 0 <= i
    ensures OccursAt(s[1..], sub, i) <==> OccursAt(s, sub, i + 1)
  {
    if i + 1 + |sub| <= |s| {
      TailSlice(s, i, |sub|);
    }
  }

  /** `Contains` agrees with the positional definition of a substring. */
  lemma {:induction false} ContainsIff(s: string, sub: string)
    ensures Contains(s, sub) <==> exists i :: OccursAt(s, sub, i)
  {
    if |sub| <= |s| && s[..|sub|] != sub && |s| > 0 {
      ContainsIff(s[1..], sub);
      if Contains(s[1..], sub) {
        var i :| OccursAt(s[1..], sub, i);
        OccursInTail(s, sub, i);
      } else if i :| OccursAt(s, sub, i) {
        assert i != 0;
        OccursInTail(s, sub, i - 1);
      }
    } else if |sub| <= |s| && s[..|sub|] == sub {
      assert OccursAt(s, sub, 0);
    }
  }

  /** Every string includes the empty string. */
  lemma ContainsEmpty(s: string)
    ensures Contains(s, "")
  {
  }

  // ---------------------------------------------------------------------------
  // The filter

  /** A select box: either "all" or one exact value. */
  datatype Choice<T> = All | Only(value: T)

  /** What the user has chosen in the two select boxes and typed in the search box. */
  datatype Criteria = Criteria(status: Choice<Status>, priority: Choice<Priority>, searchTerm: string)

  /** The criteria the page starts with: everything shown. */
  const ShowAll := Criteria(All, All, "")

  /** The choice passes `v` when it is "all" or names exactly `v`. */
  predicate Admits<T(==)>(c: Choice<T>, v: T)
  {
    c.All? || c.value == v
  }

  /** The search term occurs, ignoring case, in the title, the description or the assignee. */
  predicate MatchesSearch(t: Task, term: string)
  {
    var needle := Lower(term);
    Contains(Lower(t.title), needle) || Contains(Lower(t.description), needle) || Contains(Lower(t.assignee), needle)
  }

  /** The three conditions of the list filter, all at once. */
  predicate Matches(t: Task, c: Criteria)
  {
    Admits(c.status, t.status) && Admits(c.priority, t.priority) && MatchesSearch(t, c.searchTerm)
  }

  function MatchesOf(c: Criteria): Task -> bool
  {
    (t: Task) => Matches(t, c)
  }

  /** The visible task list. */
  function Filter(ts: seq<Task>, c: Criteria): (r: seq<Task>)
    ensures forall i :: 0 <= i < |r| ==> r[i] in ts && Matches(r[i], c)
    ensures forall i :: 0 <= i < |ts| && Matches(ts[i], c) ==> ts[i] in r
  {
    Select(ts, MatchesOf(c))
  }

  /** The visible list is the subsequence of the list made of exactly the tasks that match. */
  lemma FilterIsExactSubsequence(ts: seq<Task>, c: Criteria)
    ensures exists idx :: Picks(idx, Filter(ts, c), ts)
                          && (forall i :: 0 <= i < |ts| ==> (i in idx <==> Matches(ts[i], c)))
  {
    SelectIsExactSubsequence(ts, MatchesOf(c));
    var idx :| Picks(idx, Filter(ts, c), ts) && Exact(idx, ts, MatchesOf(c));
    var p := MatchesOf(c);
    assert Exact(idx, ts, p);
    forall i | 0 <= i < |ts|
      ensures i in idx <==> Matches(ts[i], c)
    {
      assert p(ts[i]) == Matches(ts[i], c);
    }
  }

  /** The search is insensitive to the case of the search term. */
  lemma SearchIgnoresCase(t: Task, term: string)
    ensures MatchesSearch(t, term) == MatchesSearch(t, Lower(term))
  {
    LowerIdempotent(term);
  }

  /** Two search terms that differ only in letter case select the same tasks. */
  lemma SearchTermCaseInsensitive(t: Task, a: string, b: string)
    requires SameUpToCase(a, b)
    ensures MatchesSearch(t, a) == MatchesSearch(t, b)
  {
    LowerSameUpToCase(a, b);
  }

  /** Two tasks whose title, description and assignee differ only in letter case
      match exactly the same search terms. */
  lemma SearchFieldsCaseInsensitive(t: Task, u: Task, term: string)
    requires SameUpToCase(t.title, u.title) && SameUpToCase(t.description, u.description)
    requires SameUpToCase(t.assignee, u.assignee)
    ensures MatchesSearch(t, term) == MatchesSearch(u, term)
  {
    LowerSameUpToCase(t.title, u.title);
    LowerSameUpToCase(t.description, u.description);
    LowerSameUpToCase(t.assignee, u.assignee);
  }

  /** Two search terms that differ only in letter case give the same view. */
  lemma FilterTermCaseInsensitive(ts: seq<Task>, st: Choice<Status>, pr: Choice<Priority>, a: string, b: string)
    requires SameUpToCase(a, b)
    ensures Filter(ts, Criteria(st, pr, a)) == Filter(ts, Criteria(st, pr, b))
  {
    forall i | 0 <= i < |ts|
      ensures MatchesOf(Criteria(st, pr, a))(ts[i]) == MatchesOf(Criteria(st, pr, b))(ts[i])
    {
      SearchTermCaseInsensitive(ts[i], a, b);
    }
    SelectAgreeing(ts, MatchesOf(Criteria(st, pr, a)), MatchesOf(Criteria(st, pr, b)));
  }

  /** With both filters on "all" and an empty search term every task is shown, in order. */
  lemma FilterShowAll(ts: seq<Task>)
    ensures Filter(ts, ShowAll) == ts
  {
    forall i | 0 <= i < |ts|
      ensures MatchesOf(ShowAll)(ts[i])
    {
      ContainsEmpty(Lower(ts[i].title));
    }
    SelectAllPass(ts, MatchesOf(ShowAll));
  }

  /** Filtering the visible list again with the same criteria changes nothing. */
  lemma FilterIdempotent(ts: seq<Task>, c: Criteria)
    ensures Filter(Filter(ts, c), c) == Filter(ts, c)
  {
    SelectIdempotent(ts, MatchesOf(c));
  }

  /** Filtering a longer list filters the added tasks on their own. */
  lemma FilterAppend(a: seq<Task>, b: seq<Task>, c: Criteria)
    ensures Filter(a + b, c) == Filter(a, c) + Filter(b, c)
  {
    SelectAppend(a, b, MatchesOf(c));
  }

  // ---------------------------------------------------------------------------
  // Statistics

  /** The header counts. */
  datatype Stats = Stats(total: nat, completed: nat, inProgress: nat, pending: nat)

  function HasStatus(s: Status): Task -> bool
  {
    (t: Task) => t.status == s
  }

  /** The number of tasks with status `s`. */
  function CountStatus(ts: seq<Task>, s: Status): (n: nat)
    ensures n <= |ts|
  {
    |Select(ts, HasStatus(s))|
  }

  /** The counts shown above the list. */
  function TaskStats(ts: seq<Task>): (st: Stats)
    ensures st.total == |ts|
    ensures st.completed + st.inProgress + st.pending == st.total
  {
    StatsAddUp(ts);
    Stats(|ts|, CountStatus(ts, Completed), CountStatus(ts, InProgress), CountStatus(ts, Pending))
  }

  /** Every task has exactly one of the three statuses, so the three counts add up to the total. */
  lemma {:induction false} StatsAddUp(ts: seq<Task>)
    ensures CountStatus(ts, Completed) + CountStatus(ts, InProgress) + CountStatus(ts, Pending) == |ts|
  {
    if ts != [] {
      StatsAddUp(ts[..|ts| - 1]);
    }
  }

  /** Adding one task raises the total and the count of that task's status by one,
      and leaves the other two counts alone. */
  lemma StatsAppend(ts: seq<Task>, t: Task)
    ensures var before, after := TaskStats(ts), TaskStats(ts + [t]);
      && after.total == before.total + 1
      && after.completed == before.completed + (if t.status == Completed then 1 else 0)
      && after.inProgress == before.inProgress + (if t.status == InProgress then 1 else 0)
      && after.pending == before.pending + (if t.status == Pending then 1 else 0)
  {
    assert (ts + [t])[..|ts|] == ts;
  }
}
