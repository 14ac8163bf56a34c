/** The read-only figures the dashboard derives from the state: the mastery statistics, the
    two next-priority projects, the per-status pipeline breakdown and the unit count. */
module Dashboard {
  import opened Types
  import opened Lists
  import opened Strings
  import opened Ordering

  // ---------------------------------------------------------------------------------------
  // Walking the curriculum tree

  /** The topics of a module list, module by module. */
  function ModuleTopics(ms: seq<Module>): (r: seq<Topic>)
  {
    if ms == [] then [] else ModuleTopics(ms[..|ms| - 1]) + ms[|ms| - 1].topics
  }

  /** Every topic of every module of every course, in the order the nested `forEach` visits them. */
  function AllTopics(cs: seq<Course>): (r: seq<Topic>)
  {
    if cs == [] then [] else AllTopics(cs[..|cs| - 1]) + ModuleTopics(cs[|cs| - 1].modules)
  }

  lemma {:induction false} ModuleTopicsAppend(a: seq<Module>, b: seq<Module>)
    ensures ModuleTopics(a + b) == ModuleTopics(a) + ModuleTopics(b)
  {
    if b == [] {
      assert a + b == a;
    } else {
      assert (a + b)[..|a + b| - 1] == a + b[..|b| - 1];
      ModuleTopicsAppend(a, b[..|b| - 1]);
    }
  }

  lemma {:induction false} AllTopicsAppend(a: seq<Course>, b: seq<Course>)
    ensures AllTopics(a + b) == AllTopics(a) + AllTopics(b)
  {
    if b == [] {
      assert a + b == a;
    } else {
      assert (a + b)[..|a + b| - 1] == a + b[..|b| - 1];
      AllTopicsAppend(a, b[..|b| - 1]);
    }
  }

  /** The topics of one module sit between those of the modules before and after it. */
  lemma ModuleTopicsSplit(ms: seq<Module>, j: nat)
    requires j < |ms|
    ensures ModuleTopics(ms) == ModuleTopics(ms[..j]) + ms[j].topics + ModuleTopics(ms[j + 1..])
  {
    var front, back := ms[..j] + [ms[j]], ms[j + 1..];
    SplitAt(ms, j);
    ModuleTopicsAppend(front, back);
  }

  /** The topics of one course sit between those of the courses before and after it. */
  lemma AllTopicsSplit(cs: seq<Course>, i: nat)
    requires i < |cs|
    ensures AllTopics(cs) == AllTopics(cs[..i]) + ModuleTopics(cs[i].modules) + AllTopics(cs[i + 1..])
  {
    var front, back := cs[..i] + [cs[i]], cs[i + 1..];
    SplitAt(cs, i);
    AllTopicsAppend(front, back);
  }

  /** The topics with status `st`. */
  function TopicHas(st: ProgressStatus): Topic -> bool
  {
    (t: Topic) => t.status == st
  }

  // ---------------------------------------------------------------------------------------
  // Global mastery statistics

  datatype Stats = Stats(total: nat, mastered: nat, inProgress: nat, pct: nat)

  /** `Math.round(part / whole * 100)` for non-negative operands, with 0 for an empty whole:
      the integer that 100 * part / whole rounds to, halves rounding up. */
  function RoundedPercent(part: nat, whole: nat): (r: nat)
    requires part <= whole
    ensures r <= 100
    ensures whole == 0 ==> r == 0
    ensures whole > 0 ==> 2 * whole * r <= 200 * part + whole < 2 * whole * (r + 1)
  {
    if whole == 0 then 0
    else
      assert 200 * part + whole < 2 * whole * 101;
      DivBelow(200 * part + whole, 2 * whole, 101);
      (200 * part + whole) / (2 * whole)
  }

  /** Euclidean division facts for a positive divisor. */
  lemma DivBelow(n: nat, d: nat, k: nat)
    requires d > 0 && n < d * k
    ensures d * (n / d) <= n < d * (n / d + 1)
    ensures n / d < k
  {
    var q := n / d;
    assert n == d * q + n % d;
    assert d * q <= n < d * q + d;
    MulStrict(d, q, k);
  }

  lemma MulStrict(d: nat, q: nat, k: nat)
    requires d > 0 && d * q < d * k
    ensures q < k
  {
  }

  /** A topic is counted once, as mastered, as in progress, or neither. */
  lemma {:induction false} MasteredPlusInProgress(ts: seq<Topic>)
    ensures Count(ts, TopicHas(Mastered)) + Count(ts, TopicHas(ProgressStatus.InProgress)) <= |ts|
  {
    if ts != [] {
      MasteredPlusInProgress(ts[..|ts| - 1]);
    }
  }

  /** One more element adds one to the count exactly when it satisfies `p`. */
  lemma CountSnoc<T>(s: seq<T>, x: T, p: T -> bool)
    ensures Count(s + [x], p) == Count(s, p) + (if p(x) then 1 else 0)
  {
    assert (s + [x])[..|s|] == s;
  }

  /** One more module adds its topics at the end. */
  lemma ModuleTopicsSnoc(ms: seq<Module>, j: nat)
    requires j < |ms|
    ensures ModuleTopics(ms[..j + 1]) == ModuleTopics(ms[..j]) + ms[j].topics
  {
    assert ms[..j + 1][..j] == ms[..j];
  }

  /** One more course adds the topics of its modules at the end. */
  lemma AllTopicsSnoc(cs: seq<Course>, i: nat)
    requires i < |cs|
    ensures AllTopics(cs[..i + 1]) == AllTopics(cs[..i]) + ModuleTopics(cs[i].modules)
  {
    assert cs[..i + 1][..i] == cs[..i];
  }

  /** The innermost `forEach` of the dashboard statistics: every topic of one module bumps
      the total, and the mastered or in-progress counter when its status says so. */
  method TallyTopics(ts: seq<Topic>, total0: nat, mastered0: nat, inProgress0: nat)
    returns (total: nat, mastered: nat, inProgress: nat)
    ensures total == total0 + |ts|
    ensures mastered == mastered0 + Count(ts, TopicHas(Mastered))
    ensures inProgress == inProgress0 + Count(ts, TopicHas(ProgressStatus.InProgress))
  {
    total, mastered, inProgress := total0, mastered0, inProgress0;
    for k := 0 to |ts|
      invariant total == total0 + k
      invariant mastered == mastered0 + Count(ts[..k], TopicHas(Mastered))
      invariant inProgress == inProgress0 + Count(ts[..k], TopicHas(ProgressStatus.InProgress))
    {
      assert ts[..k + 1][..k] == ts[..k];
      total := total + 1;
      if ts[k].status == Mastered {
        mastered := mastered + 1;
      } else if ts[k].status == ProgressStatus.InProgress {
        inProgress := inProgress + 1;
      }
    }
    assert ts[..|ts|] == ts;
  }

  /** Dashboard `stats`: one pass over every topic of every course, counting all topics,
      the mastered ones, and the in-progress ones, then the rounded mastery percentage. */
  method MasteryStats(courses: seq<Course>) returns (s: Stats)
    ensures s.total == |AllTopics(courses)|
    ensures s.mastered == Count(AllTopics(courses), TopicHas(Mastered))
    ensures s.inProgress == Count(AllTopics(courses), TopicHas(ProgressStatus.InProgress))
    ensures s.mastered + s.inProgress <= s.total
    ensures s.pct == RoundedPercent(s.mastered, s.total) && s.pct <= 100
    ensures s.total == 0 ==> s.pct == 0
  {
    var total, mastered, inProgress := 0, 0, 0;
    ghost var seen: seq<Topic> := [];
    for i := 0 to |courses|
      invariant seen == AllTopics(courses[..i])
      invariant total == |seen|
      invariant mastered == Count(seen, TopicHas(Mastered))
      invariant inProgress == Count(seen, TopicHas(ProgressStatus.InProgress))
    {
      var ms := courses[i].modules;
      ghost var before := seen;
      for j := 0 to |ms|
        invariant seen == before + ModuleTopics(ms[..j])
        invariant total == |seen|
        invariant mastered == Count(seen, TopicHas(Mastered))
        invariant inProgress == Count(seen, TopicHas(ProgressStatus.InProgress))
      {
        var ts := ms[j].topics;
        total, mastered, inProgress := TallyTopics(ts, total, mastered, inProgress);
        CountAppend(seen, ts, TopicHas(Mastered));
        CountAppend(seen, ts, TopicHas(ProgressStatus.InProgress));
        ModuleTopicsSnoc(ms, j);
        seen := seen + ts;
      }
      assert ms[..|ms|] == ms;
      AllTopicsSnoc(courses, i);
    }
    assert courses[..|courses|] == courses;
    MasteredPlusInProgress(seen);
    s := Stats(total, mastered, inProgress, RoundedPercent(mastered, total));
  }

  // ---------------------------------------------------------------------------------------
  // Next priority: the two open projects due soonest

  /** A project that is not yet submitted. */
  predicate IsOpen(p: AcademicProject)
  {
    p.status != Submitted
  }

  /** Dashboard `topPriority`: drop submitted projects, sort by deadline, keep the first two. */
  function NextPriority(ps: seq<AcademicProject>): (r: seq<AcademicProject>)
    ensures |r| == if |Filter(ps, IsOpen)| < 2 then |Filter(ps, IsOpen)| else 2
    ensures SortedByDeadline(r)
  {
    var sorted := SortByDeadline(Filter(ps, IsOpen));
    sorted[..if |sorted| < 2 then |sorted| else 2]
  }

  /** The shortlist holds open projects of the list only. */
  lemma NextPriorityOpen(ps: seq<AcademicProject>)
    ensures forall i :: 0 <= i < |NextPriority(ps)| ==>
              NextPriority(ps)[i].status != Submitted && NextPriority(ps)[i] in ps
  {
    var open := Filter(ps, IsOpen);
    var sorted := SortByDeadline(open);
    var r := NextPriority(ps);
    FilterSound(ps, IsOpen);
    forall i | 0 <= i < |r| ensures r[i].status != Submitted && r[i] in ps {
      assert r[i] == sorted[i];
      assert sorted[i] in multiset(open);
      var k :| 0 <= k < |open| && open[k] == sorted[i];
      assert open[k] in multiset(ps);
    }
  }

  /** The shortlist is taken from the open projects, and no open project left out is due
      before one on the shortlist. */
  lemma NextPriorityEarliest(ps: seq<AcademicProject>)
    ensures multiset(NextPriority(ps)) <= multiset(Filter(ps, IsOpen))
    ensures forall y, i ::
              y in multiset(Filter(ps, IsOpen)) - multiset(NextPriority(ps)) && 0 <= i < |NextPriority(ps)|
              ==> NextPriority(ps)[i].deadline <= y.deadline
  {
    var sorted := SortByDeadline(Filter(ps, IsOpen));
    SortedPrefixEarliest(sorted, |NextPriority(ps)|);
  }

  // ---------------------------------------------------------------------------------------
  // Pipeline breakdown

  /** The projects with status `st`. */
  function HasStatus(st: AcademicTaskStatus): AcademicProject -> bool
  {
    (p: AcademicProject) => p.status == st
  }

  datatype ChartEntry = ChartEntry(name: string, value: nat)

  /** The chart label of a status: its text up to the first space. */
  function Label(st: AcademicTaskStatus): string
  {
    FirstWord(AcademicText(st))
  }

  /** The four labels are "Upcoming", "In", "Review" and "Submitted". */
  lemma Labels()
    ensures Label(Upcoming) == "Upcoming"
    ensures Label(AcademicTaskStatus.InProgress) == "In"
    ensures Label(Review) == "Review"
    ensures Label(Submitted) == "Submitted"
  {
    AcademicTextSpaces();
    FirstWordOfWord(AcademicText(Upcoming));
    FirstWordBeforeSpace(AcademicText(AcademicTaskStatus.InProgress), 2);
    FirstWordOfWord(AcademicText(Review));
    FirstWordOfWord(AcademicText(Submitted));
  }

  /** The four status counts add up to the number of projects. */
  lemma {:induction false} StatusCountsSum(ps: seq<AcademicProject>)
    ensures Count(ps, HasStatus(Upcoming)) + Count(ps, HasStatus(AcademicTaskStatus.InProgress))
          + Count(ps, HasStatus(Review)) + Count(ps, HasStatus(Submitted)) == |ps|
  {
    if ps != [] {
      StatusCountsSum(ps[..|ps| - 1]);
    }
  }

  /** Dashboard `pipelineChart`: a counter per status, bumped once per project, then one
      chart entry per status in enum order, labelled by the first word of the status text. */
  method PipelineBreakdown(ps: seq<AcademicProject>) returns (chart: seq<ChartEntry>)
    ensures |chart| == 4
    ensures forall i :: 0 <= i < 4 ==>
              chart[i] == ChartEntry(Label(AcademicStatuses[i]), Count(ps, HasStatus(AcademicStatuses[i])))
    ensures chart[0].value + chart[1].value + chart[2].value + chart[3].value == |ps|
  {
    var counts: map<AcademicTaskStatus, nat> :=
      map[Upcoming := 0, AcademicTaskStatus.InProgress := 0, Review := 0, Submitted := 0];
    AcademicStatusMembers();
    for i := 0 to |ps|
      invariant forall st :: st in AcademicStatuses ==> st in counts && counts[st] == Count(ps[..i], HasStatus(st))
    {
      assert ps[..i + 1] == ps[..i] + [ps[i]];
      forall st | st in AcademicStatuses
        ensures Count(ps[..i + 1], HasStatus(st)) == Count(ps[..i], HasStatus(st)) + (if ps[i].status == st then 1 else 0)
      {
        CountSnoc(ps[..i], ps[i], HasStatus(st));
      }
      counts := counts[ps[i].status := counts[ps[i].status] + 1];
    }
    assert ps[..|ps|] == ps;
    chart := [];
    for k := 0 to 4
      invariant |chart| == k
      invariant forall i :: 0 <= i < k ==>
                  chart[i] == ChartEntry(Label(AcademicStatuses[i]), counts[AcademicStatuses[i]])
    {
      var st := AcademicStatuses[k];
      var entry := ChartEntry(Label(st), counts[st]);
      assert forall i :: 0 <= i < k ==> (chart + [entry])[i] == chart[i];
      chart := chart + [entry];
    }
    StatusCountsSum(ps);
  }

  // ---------------------------------------------------------------------------------------
  // Unit count

  /** `courses.reduce((acc, c) => acc + c.modules.length, 0)`: every course's modules count
      toward it, and it is zero exactly when no course has a module. */
  function UnitCount(cs: seq<Course>): (r: nat)
    ensures forall i :: 0 <= i < |cs| ==> |cs[i].modules| <= r
    ensures r == 0 <==> forall i :: 0 <= i < |cs| ==> cs[i].modules == []
  {
    if cs == [] then 0 else UnitCount(cs[..|cs| - 1]) + |cs[|cs| - 1].modules|
  }

  /** The unit count of a concatenation is the sum of the unit counts. */
  lemma {:induction false} UnitCountAppend(a: seq<Course>, b: seq<Course>)
    ensures UnitCount(a + b) == UnitCount(a) + UnitCount(b)
  {
    if b == [] {
      assert a + b == a;
    } else {
      assert (a + b)[..|a + b| - 1] == a + b[..|b| - 1];
      UnitCountAppend(a, b[..|b| - 1]);
    }
  }

  /** Replacing one course changes the unit count by the difference of their module counts. */
  lemma UnitCountReplace(cs: seq<Course>, i: nat, c: Course)
    requires i < |cs|
    ensures UnitCount(cs[i := c]) + |cs[i].modules| == UnitCount(cs) + |c.modules|
  {
    assert cs == cs[..i] + [cs[i]] + cs[i + 1..];
    assert cs[i := c] == cs[..i] + [c] + cs[i + 1..];
    UnitCountAppend(cs[..i] + [cs[i]], cs[i + 1..]);
    UnitCountAppend(cs[..i] + [c], cs[i + 1..]);
    UnitCountAppend(cs[..i], [cs[i]]);
    UnitCountAppend(cs[..i], [c]);
    assert UnitCount([c]) == |c.modules| by { assert [c][..0] == []; }
    assert UnitCount([cs[i]]) == |cs[i].modules| by { assert [cs[i]][..0] == []; }
  }
}
