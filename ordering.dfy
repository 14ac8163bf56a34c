/** Ordering of academic projects by deadline: the comparator the dashboard and the timeline
    pass to `Array.prototype.sort`, which is a stable sort. */
module Ordering {
  import opened Types
  import opened Lists

  /** Ascending by deadline. */
  predicate SortedByDeadline(s: seq<AcademicProject>)
  {
    forall i, j :: 0 <= i < j < |s| ==> s[i].deadline <= s[j].deadline
  }

  /** The projects due on day `d`. */
  function DueOn(d: Day): AcademicProject -> bool
  {
    (p: AcademicProject) => p.deadline == d
  }

  /** Prepending an element no later than the head keeps a sorted list sorted. */
  lemma ConsSorted(x: AcademicProject, s: seq<AcademicProject>)
    requires SortedByDeadline(s)
    requires s != [] ==> x.deadline <= s[0].deadline
    ensures SortedByDeadline([x] + s)
  {
    var r := [x] + s;
    forall i, j | 0 <= i < j < |r| ensures r[i].deadline <= r[j].deadline {
      if i == 0 {
        assert r[j] == s[j - 1];
        assert s[0].deadline <= s[j - 1].deadline;
      } else {
        assert r[i] == s[i - 1] && r[j] == s[j - 1];
      }
    }
  }

  /** Places `p` before the first element that is not due earlier than it. */
  function Insert(p: AcademicProject, s: seq<AcademicProject>): (r: seq<AcademicProject>)
    requires SortedByDeadline(s)
    ensures SortedByDeadline(r)
    ensures multiset(r) == multiset(s) + multiset{p}
    ensures |r| == |s| + 1
    ensures r[0] == p || (s != [] && r[0] == s[0])
  {
    if s == [] then [p]
    else if p.deadline <= s[0].deadline then
      ConsSorted(p, s);
      [p] + s
    else
      var rest := Insert(p, s[1..]);
      assert s == [s[0]] + s[1..];
      ConsSorted(s[0], rest);
      [s[0]] + rest
  }

  /** The list sorted by deadline; projects due the same day keep their input order. */
  function SortByDeadline(s: seq<AcademicProject>): (r: seq<AcademicProject>)
    ensures SortedByDeadline(r)
    ensures multiset(r) == multiset(s)
    ensures |r| == |s|
  {
    if s == [] then []
    else
      assert s == [s[0]] + s[1..];
      Insert(s[0], SortByDeadline(s[1..]))
  }

  /** The first `n` projects of a sorted list are due no later than any project after them. */
  lemma SortedPrefixEarliest(s: seq<AcademicProject>, n: nat)
    requires SortedByDeadline(s) && n <= |s|
    ensures multiset(s[..n]) <= multiset(s)
    ensures forall y, i :: y in multiset(s) - multiset(s[..n]) && 0 <= i < n ==> s[i].deadline <= y.deadline
  {
    var rest := s[n..];
    assert s == s[..n] + rest;
    assert multiset(s) == multiset(s[..n]) + multiset(rest);
    forall y, i | y in multiset(s) - multiset(s[..n]) && 0 <= i < n
      ensures s[i].deadline <= y.deadline
    {
      assert y in rest;
      var j :| 0 <= j < |rest| && rest[j] == y;
      assert s[n + j] == y;
    }
  }

  /** Inserting `p` puts it ahead of every project already there that is due the same day. */
  lemma {:induction false} InsertStable(p: AcademicProject, s: seq<AcademicProject>, d: Day)
    requires SortedByDeadline(s)
    ensures Filter(Insert(p, s), DueOn(d)) == Filter([p], DueOn(d)) + Filter(s, DueOn(d))
  {
    if s == [] {
    } else if p.deadline <= s[0].deadline {
      FilterAppend([p], s, DueOn(d));
    } else {
      var key, t := DueOn(d), s[1..];
      assert s == [s[0]] + t;
      // s[0] is due strictly before p, so at most one of them is due on day d
      assert Filter([s[0]], key) == [] || Filter([p], key) == [];
      calc {
        Filter(Insert(p, s), key);
        Filter([s[0]] + Insert(p, t), key);
        { FilterAppend([s[0]], Insert(p, t), key); }
        Filter([s[0]], key) + Filter(Insert(p, t), key);
        { InsertStable(p, t, d); }
        Filter([s[0]], key) + (Filter([p], key) + Filter(t, key));
        Filter([p], key) + (Filter([s[0]], key) + Filter(t, key));
        { FilterAppend([s[0]], t, key); }
        Filter([p], key) + Filter(s, key);
      }
    }
  }

  /** Stability: for every day, the projects due that day appear in the same order before
      and after sorting. Together with SortedByDeadline this fixes the result completely. */
  lemma {:induction false} SortStable(s: seq<AcademicProject>, d: Day)
    ensures Filter(SortByDeadline(s), DueOn(d)) == Filter(s, DueOn(d))
  {
    if s != [] {
      SortStable(s[1..], d);
      InsertStable(s[0], SortByDeadline(s[1..]), d);
      assert s == [s[0]] + s[1..];
      FilterAppend([s[0]], s[1..], DueOn(d));
    }
  }
}
