/** The timeline view: every project, Submitted ones included, in deadline order. */
module Calendar {
  import opened Types
  import opened Lists
  import opened Ordering

  /** `[...academicProjects].sort(byDeadline)`: a sorted copy; the list itself is not reordered. */
  function Timeline(ps: seq<AcademicProject>): (r: seq<AcademicProject>)
    ensures SortedByDeadline(r)
    ensures multiset(r) == multiset(ps)
  {
    SortByDeadline(ps)
  }

  /** The timeline is an ascending permutation of the whole list: nothing is dropped, whatever its
      status, and projects due the same day keep their list order. */
  lemma TimelineEffect(ps: seq<AcademicProject>, d: Day)
    ensures |Timeline(ps)| == |ps|
    ensures forall i :: 0 <= i < |ps| ==> ps[i] in Timeline(ps)
    ensures Filter(Timeline(ps), DueOn(d)) == Filter(ps, DueOn(d))
  {
    assert |Timeline(ps)| == |multiset(Timeline(ps))|;
    forall i | 0 <= i < |ps| ensures ps[i] in Timeline(ps) {
      assert ps[i] in multiset(ps);
    }
    SortStable(ps, d);
  }
}
