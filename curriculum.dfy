/** The curriculum view: adding courses, modules and topics, importing a parsed syllabus,
    deleting a course, cycling a topic's status and writing back an edited topic.
    The value-level operations on the course tree are functions; the handlers that mutate the
    shared course list in place, or build a new root around a new list, are methods. */
module Curriculum {
  import opened Types
  import opened Lists
  import opened Strings
  import opened Dashboard

  // ---------------------------------------------------------------------------------------
  // Locating a topic by course, module and topic id

  function CourseWithId(id: Id): Course -> bool
  {
    (c: Course) => c.id == id
  }

  function ModuleWithId(id: Id): Module -> bool
  {
    (m: Module) => m.id == id
  }

  function TopicWithId(id: Id): Topic -> bool
  {
    (t: Topic) => t.id == id
  }

  /** Positions of a course in the list, a module in that course, and a topic in that module. */
  datatype TopicPath = TopicPath(c: nat, m: nat, t: nat)

  predicate ValidPath(cs: seq<Course>, p: TopicPath)
  {
    p.c < |cs| && p.m < |cs[p.c].modules| && p.t < |cs[p.c].modules[p.m].topics|
  }

  function TopicAt(cs: seq<Course>, p: TopicPath): Topic
    requires ValidPath(cs, p)
  {
    cs[p.c].modules[p.m].topics[p.t]
  }

  /** `p` is where the chain of `find` calls lands: the first course with `cId`, the first
      module with `mId` inside it, and the first topic with `tId` inside that. */
  predicate Located(cs: seq<Course>, cId: Id, mId: Id, tId: Id, p: TopicPath)
  {
    && ValidPath(cs, p)
    && cs[p.c].id == cId && (forall i :: 0 <= i < p.c ==> cs[i].id != cId)
    && cs[p.c].modules[p.m].id == mId
    && (forall j :: 0 <= j < p.m ==> cs[p.c].modules[j].id != mId)
    && cs[p.c].modules[p.m].topics[p.t].id == tId
    && (forall k :: 0 <= k < p.t ==> cs[p.c].modules[p.m].topics[k].id != tId)
  }

  /** There is at most one such place. */
  lemma LocatedUnique(cs: seq<Course>, cId: Id, mId: Id, tId: Id, p: TopicPath, q: TopicPath)
    requires Located(cs, cId, mId, tId, p) && Located(cs, cId, mId, tId, q)
    ensures p == q
  {
    // each position is the first match at its level, so neither can precede the other
    assert cs[p.c].id == cId && cs[q.c].id == cId;
    assert p.c == q.c;
    var ms := cs[p.c].modules;
    assert ms[p.m].id == mId && ms[q.m].id == mId;
    assert p.m == q.m;
    var ts := ms[p.m].topics;
    assert ts[p.t].id == tId && ts[q.t].id == tId;
  }

  /** `courses.find(cId)?.modules.find(mId)?.topics.find(tId)`, as a position. */
  function FindTopic(cs: seq<Course>, cId: Id, mId: Id, tId: Id): (r: Option<TopicPath>)
    ensures r.Some? ==> Located(cs, cId, mId, tId, r.value)
    ensures r.None? ==> forall p :: !Located(cs, cId, mId, tId, p)
  {
    var ci := FindIndex(cs, CourseWithId(cId));
    if ci == -1 then None
    else
      var ms := cs[ci].modules;
      var mi := FindIndex(ms, ModuleWithId(mId));
      if mi == -1 then None
      else
        var ts := ms[mi].topics;
        var ti := FindIndex(ts, TopicWithId(tId));
        if ti == -1 then None
        else
          var r := TopicPath(ci, mi, ti);
          assert Located(cs, cId, mId, tId, r);
          Some(r)
  }

  /** The course tree with the topic at `p` replaced by `t`. */
  function WithTopicAt(cs: seq<Course>, p: TopicPath, t: Topic): (r: seq<Course>)
    requires ValidPath(cs, p)
    ensures SameOutline(cs, r)
    ensures forall q :: ValidPath(cs, q) ==> TopicAt(r, q) == if q == p then t else TopicAt(cs, q)
  {
    var c := cs[p.c];
    var m := c.modules[p.m];
    cs[p.c := c.(modules := c.modules[p.m := m.(topics := m.topics[p.t := t])])]
  }

  /** Two trees with the same courses and modules (ids, titles, descriptions, order) and the
      same number of topics everywhere; only topic contents may differ. */
  predicate SameOutline(a: seq<Course>, b: seq<Course>)
  {
    && |a| == |b|
    && (forall i :: 0 <= i < |a| ==>
          a[i].(modules := []) == b[i].(modules := []) && |a[i].modules| == |b[i].modules|)
    && (forall i, j :: 0 <= i < |a| && 0 <= j < |a[i].modules| ==>
          j < |b[i].modules|
          && a[i].modules[j].(topics := []) == b[i].modules[j].(topics := [])
          && |a[i].modules[j].topics| == |b[i].modules[j].topics|)
  }

  /** Writing the topic back where it was changes nothing. */
  lemma WithSameTopic(cs: seq<Course>, p: TopicPath)
    requires ValidPath(cs, p)
    ensures WithTopicAt(cs, p, TopicAt(cs, p)) == cs
  {
    var c := cs[p.c];
    var m := c.modules[p.m];
    assert m.topics[p.t := TopicAt(cs, p)] == m.topics;
    assert c.modules[p.m := m] == c.modules;
  }

  /** Of two writes to the same place, the second wins. */
  lemma WithTopicTwice(cs: seq<Course>, p: TopicPath, a: Topic, b: Topic)
    requires ValidPath(cs, p)
    ensures WithTopicAt(WithTopicAt(cs, p, a), p, b) == WithTopicAt(cs, p, b)
  {
    var c := cs[p.c];
    var m := c.modules[p.m];
    var once := WithTopicAt(cs, p, a);
    var m1 := m.(topics := m.topics[p.t := a]);
    assert once[p.c] == c.(modules := c.modules[p.m := m1]);
    assert once[p.c].modules[p.m] == m1;
    assert m1.(topics := m1.topics[p.t := b]) == m.(topics := m.topics[p.t := b]);
    assert c.modules[p.m := m1][p.m := m.(topics := m.topics[p.t := b])]
        == c.modules[p.m := m.(topics := m.topics[p.t := b])];
  }

  /** A write that keeps the topic's id leaves the lookup of every id triple where it was. */
  lemma FindTopicAfterWrite(cs: seq<Course>, p: TopicPath, t: Topic, cId: Id, mId: Id, tId: Id)
    requires ValidPath(cs, p) && t.id == TopicAt(cs, p).id
    ensures FindTopic(WithTopicAt(cs, p, t), cId, mId, tId) == FindTopic(cs, cId, mId, tId)
  {
    var r := WithTopicAt(cs, p, t);
    forall q ensures Located(r, cId, mId, tId, q) <==> Located(cs, cId, mId, tId, q) {
      if ValidPath(cs, q) {
        SameIds(cs, r, q);
        forall k | 0 <= k <= q.t
          ensures r[q.c].modules[q.m].topics[k].id == cs[q.c].modules[q.m].topics[k].id
        {
          assert TopicAt(r, TopicPath(q.c, q.m, k)).id == TopicAt(cs, TopicPath(q.c, q.m, k)).id;
        }
      } else if ValidPath(r, q) {
        SameIds(r, cs, q);
      }
    }
    var a, b := FindTopic(r, cId, mId, tId), FindTopic(cs, cId, mId, tId);
    if a.Some? && b.Some? {
      LocatedUnique(cs, cId, mId, tId, a.value, b.value);
    }
  }

  /** In trees with the same outline, the course and module ids on a path agree. */
  lemma SameIds(a: seq<Course>, b: seq<Course>, q: TopicPath)
    requires SameOutline(a, b) && ValidPath(a, q)
    ensures ValidPath(b, q)
    ensures forall i :: 0 <= i <= q.c ==> a[i].id == b[i].id
    ensures forall j :: 0 <= j <= q.m ==> a[q.c].modules[j].id == b[q.c].modules[j].id
  {
    forall i | 0 <= i <= q.c ensures a[i].id == b[i].id {
      assert a[i].(modules := []).id == b[i].(modules := []).id;
    }
    forall j | 0 <= j <= q.m ensures a[q.c].modules[j].id == b[q.c].modules[j].id {
      assert a[q.c].modules[j].(topics := []).id == b[q.c].modules[j].(topics := []).id;
    }
  }

  // ---------------------------------------------------------------------------------------
  // The status cycle

  /** `i` is the position `indexOf` reports for `x`: its first occurrence. */
  predicate FirstAt<T(==)>(flow: seq<T>, x: T, i: int)
  {
    0 <= i < |flow| && flow[i] == x && x !in flow[..i]
  }

  /** `flow[(flow.indexOf(x) + 1) % flow.length]`: the entry after the first occurrence of `x`,
      wrapping around at the end; a value missing from `flow` (index -1) maps to `flow[0]`. */
  function Advance<T(==)>(flow: seq<T>, x: T): (r: T)
    requires |flow| > 0
    ensures r in flow
    ensures x !in flow ==> r == flow[0]
    ensures forall i :: FirstAt(flow, x, i) ==> r == flow[(i + 1) % |flow|]
  {
    var i := FindIndex(flow, (y: T) => y == x);
    flow[(i + 1) % |flow|]
  }

  /** The status button's successor: Not Started, In Progress, Mastered, and round again. */
  function NextStatus(s: ProgressStatus): (r: ProgressStatus)
    ensures r != s
    ensures r == match s
                 case NotStarted => ProgressStatus.InProgress
                 case InProgress => Mastered
                 case Mastered => NotStarted
  {
    var i := if s == NotStarted then 0 else if s == ProgressStatus.InProgress then 1 else 2;
    assert ProgressStatuses[0] == NotStarted && ProgressStatuses[1] == ProgressStatus.InProgress;
    assert ProgressStatuses[2] == Mastered;
    assert FirstAt(ProgressStatuses, s, i);
    Advance(ProgressStatuses, s)
  }

  lemma StatusFlow()
    ensures NextStatus(NotStarted) == ProgressStatus.InProgress
    ensures NextStatus(ProgressStatus.InProgress) == Mastered
    ensures NextStatus(Mastered) == NotStarted
  {
  }

  /** Three presses of the status button give the status back. */
  lemma StatusThrice(s: ProgressStatus)
    ensures NextStatus(NextStatus(NextStatus(s))) == s
  {
    StatusFlow();
  }

  /** The tree after the status button of topic `tId` (in module `mId` of course `cId`) is
      pressed: the located topic moves to the next status, everything else stays. */
  function CycleAt(cs: seq<Course>, cId: Id, mId: Id, tId: Id): (r: seq<Course>)
    ensures FindTopic(cs, cId, mId, tId).None? ==> r == cs
    ensures FindTopic(cs, cId, mId, tId).Some? ==>
              var p := FindTopic(cs, cId, mId, tId).value;
              && SameOutline(cs, r)
              && TopicAt(r, p) == TopicAt(cs, p).(status := NextStatus(TopicAt(cs, p).status))
              && forall q :: ValidPath(cs, q) && q != p ==> TopicAt(r, q) == TopicAt(cs, q)
  {
    match FindTopic(cs, cId, mId, tId)
    case None => cs
    case Some(p) =>
      var t := TopicAt(cs, p);
      WithTopicAt(cs, p, t.(status := NextStatus(t.status)))
  }

  /** Pressing the same topic's status button three times restores the whole tree. */
  lemma CycleThrice(cs: seq<Course>, cId: Id, mId: Id, tId: Id)
    ensures CycleAt(CycleAt(CycleAt(cs, cId, mId, tId), cId, mId, tId), cId, mId, tId) == cs
  {
    match FindTopic(cs, cId, mId, tId)
    case None =>
    case Some(p) =>
      var t := TopicAt(cs, p);
      var s := t.status;
      var r1 := WithTopicAt(cs, p, t.(status := NextStatus(s)));
      FindTopicAfterWrite(cs, p, t.(status := NextStatus(s)), cId, mId, tId);
      var r2 := WithTopicAt(r1, p, t.(status := NextStatus(NextStatus(s))));
      WithTopicTwice(cs, p, t.(status := NextStatus(s)), t.(status := NextStatus(NextStatus(s))));
      FindTopicAfterWrite(cs, p, t.(status := NextStatus(NextStatus(s))), cId, mId, tId);
      WithTopicTwice(cs, p, t.(status := NextStatus(NextStatus(s))), t.(status := NextStatus(NextStatus(NextStatus(s)))));
      StatusThrice(s);
      WithSameTopic(cs, p);
  }

  // ---------------------------------------------------------------------------------------
  // Writing back an edited topic (`Object.assign(topicRef, ut)`)

  /** The tree after the topic detail view reports `ut`: the topic found by the course and
      module ids it was opened from and by `ut`'s own id takes all of `ut`'s fields. */
  function AssignAt(cs: seq<Course>, cId: Id, mId: Id, ut: Topic): (r: seq<Course>)
    ensures FindTopic(cs, cId, mId, ut.id).None? ==> r == cs
    ensures FindTopic(cs, cId, mId, ut.id).Some? ==>
              var p := FindTopic(cs, cId, mId, ut.id).value;
              && SameOutline(cs, r)
              && TopicAt(r, p) == ut
              && forall q :: ValidPath(cs, q) && q != p ==> TopicAt(r, q) == TopicAt(cs, q)
  {
    match FindTopic(cs, cId, mId, ut.id)
    case None => cs
    case Some(p) => WithTopicAt(cs, p, ut)
  }

  /** Reporting the same edited topic twice has the effect of reporting it once, and afterwards
      the lookup finds exactly `ut`. */
  lemma AssignIdempotent(cs: seq<Course>, cId: Id, mId: Id, ut: Topic)
    ensures AssignAt(AssignAt(cs, cId, mId, ut), cId, mId, ut) == AssignAt(cs, cId, mId, ut)
    ensures FindTopic(cs, cId, mId, ut.id).Some? ==>
              FindTopic(AssignAt(cs, cId, mId, ut), cId, mId, ut.id) == FindTopic(cs, cId, mId, ut.id)
              && TopicAt(AssignAt(cs, cId, mId, ut), FindTopic(cs, cId, mId, ut.id).value) == ut
  {
    match FindTopic(cs, cId, mId, ut.id)
    case None =>
    case Some(p) =>
      FindTopicAfterWrite(cs, p, ut, cId, mId, ut.id);
      WithTopicTwice(cs, p, ut, ut);
  }

  // ---------------------------------------------------------------------------------------
  // Adding a course, a module or a topic

  /** What the add dialog was opened for; the parent ids are optional, as on the modal state. */
  datatype AddRequest = AddCourse | AddModule(p1: Option<Id>) | AddTopic(p1: Option<Id>, p2: Option<Id>)

  /** A present, non-empty id (a truthy string). */
  predicate Truthy(o: Option<Id>)
  {
    o.Some? && o.value != ""
  }

  function NewCourse(id: Id, title: string): Course
  {
    Course(id, title, "", [])
  }

  function NewModule(id: Id, title: string): Module
  {
    Module(id, title, [])
  }

  function NewTopic(id: Id, title: string): Topic
  {
    Topic(id, title, NotStarted, [], [])
  }

  /** Some course carries `cId`. */
  predicate CourseFound(cs: seq<Course>, cId: Id)
  {
    FindIndex(cs, CourseWithId(cId)) >= 0
  }

  /** The first course with `cId` has a module with `mId`. */
  predicate ModuleFound(cs: seq<Course>, cId: Id, mId: Id)
  {
    var ci := FindIndex(cs, CourseWithId(cId));
    ci >= 0 && FindIndex(cs[ci].modules, ModuleWithId(mId)) >= 0
  }

  /** Push `m` onto the modules of the first course with `cId`, if there is one. */
  function AppendModule(cs: seq<Course>, cId: Id, m: Module): (r: seq<Course>)
    ensures |r| == |cs|
    ensures forall i :: 0 <= i < |cs| ==> r[i].(modules := cs[i].modules) == cs[i]
    ensures forall i :: 0 <= i < |cs| ==>
              r[i].modules == cs[i].modules + (if i == FindIndex(cs, CourseWithId(cId)) then [m] else [])
  {
    var ci := FindIndex(cs, CourseWithId(cId));
    if ci == -1 then cs
    else cs[ci := cs[ci].(modules := cs[ci].modules + [m])]
  }

  /** Push `t` onto the topics of the first module with `mId` in the first course with `cId`,
      if both exist. */
  function AppendTopic(cs: seq<Course>, cId: Id, mId: Id, t: Topic): (r: seq<Course>)
    ensures |r| == |cs|
    ensures !ModuleFound(cs, cId, mId) ==> r == cs
    ensures forall i :: 0 <= i < |cs| ==> r[i].(modules := cs[i].modules) == cs[i]
    ensures forall i :: 0 <= i < |cs| && i != FindIndex(cs, CourseWithId(cId)) ==> r[i] == cs[i]
    ensures ModuleFound(cs, cId, mId) ==>
              var ci := FindIndex(cs, CourseWithId(cId));
              var ms := cs[ci].modules;
              var mi := FindIndex(ms, ModuleWithId(mId));
              && |r[ci].modules| == |ms|
              && (forall j :: 0 <= j < |ms| && j != mi ==> r[ci].modules[j] == ms[j])
              && r[ci].modules[mi].(topics := ms[mi].topics) == ms[mi]
              && r[ci].modules[mi].topics == ms[mi].topics + [t]
  {
    var ci := FindIndex(cs, CourseWithId(cId));
    if ci == -1 then cs
    else
      var ms := cs[ci].modules;
      var mi := FindIndex(ms, ModuleWithId(mId));
      if mi == -1 then cs
      else cs[ci := cs[ci].(modules := ms[mi := ms[mi].(topics := ms[mi].topics + [t])])]
  }

  /** `handleAdd` after its blank-title guard: what the list of courses becomes. A course is
      appended at the end with no modules. A module goes to the course named by a truthy `p1`,
      a topic to the module named by truthy `p1` and `p2`; with a missing, empty or unmatched
      parent id nothing changes. The unit count grows exactly by an added module, the topic
      list exactly by an added topic, and the mastered and in-progress counts never move,
      since a new topic is Not Started. */
  function AddEntry(cs: seq<Course>, req: AddRequest, title: string, id: Id): (r: seq<Course>)
    ensures req.AddCourse? ==>
              && |r| == |cs| + 1 && r[..|cs|] == cs
              && r[|cs|].id == id && r[|cs|].title == title
              && r[|cs|].description == "" && r[|cs|].modules == []
    ensures req.AddModule? && !(Truthy(req.p1) && CourseFound(cs, req.p1.value)) ==> r == cs
    ensures req.AddTopic? && !(Truthy(req.p1) && Truthy(req.p2) && ModuleFound(cs, req.p1.value, req.p2.value))
            ==> r == cs
    ensures UnitCount(r)
            == UnitCount(cs) + (if req.AddModule? && Truthy(req.p1) && CourseFound(cs, req.p1.value) then 1 else 0)
    ensures !req.AddTopic? ==> AllTopics(r) == AllTopics(cs)
    ensures |AllTopics(r)| == |AllTopics(cs)| +
              (if req.AddTopic? && Truthy(req.p1) && Truthy(req.p2) && ModuleFound(cs, req.p1.value, req.p2.value)
               then 1 else 0)
    ensures Count(AllTopics(r), TopicHas(Mastered)) == Count(AllTopics(cs), TopicHas(Mastered))
    ensures Count(AllTopics(r), TopicHas(ProgressStatus.InProgress))
            == Count(AllTopics(cs), TopicHas(ProgressStatus.InProgress))
  {
    match req
    case AddCourse =>
      var r := cs + [NewCourse(id, title)];
      assert r[..|cs|] == cs;
      r
    case AddModule(p1) =>
      if Truthy(p1) then
        AppendModuleEffect(cs, p1.value, NewModule(id, title));
        AppendModule(cs, p1.value, NewModule(id, title))
      else cs
    case AddTopic(p1, p2) =>
      if Truthy(p1) && Truthy(p2) then
        var t := NewTopic(id, title);
        AppendTopicEffect(cs, p1.value, p2.value, t, Mastered);
        AppendTopicEffect(cs, p1.value, p2.value, t, ProgressStatus.InProgress);
        AppendTopic(cs, p1.value, p2.value, t)
      else cs
  }

  /** Replacing one course replaces its share of the topic list and nothing else. */
  lemma TopicsAfterCourseWrite(cs: seq<Course>, i: nat, c: Course)
    requires i < |cs|
    ensures AllTopics(cs[i := c]) == AllTopics(cs[..i]) + ModuleTopics(c.modules) + AllTopics(cs[i + 1..])
  {
    var r := cs[i := c];
    AllTopicsSplit(r, i);
    assert r[..i] == cs[..i] && r[i + 1..] == cs[i + 1..];
  }

  /** Replacing one module replaces its share of the module topics and nothing else. */
  lemma TopicsAfterModuleWrite(ms: seq<Module>, j: nat, m: Module)
    requires j < |ms|
    ensures ModuleTopics(ms[j := m]) == ModuleTopics(ms[..j]) + m.topics + ModuleTopics(ms[j + 1..])
  {
    var r := ms[j := m];
    ModuleTopicsSplit(r, j);
    assert r[..j] == ms[..j] && r[j + 1..] == ms[j + 1..];
  }

  /** Pushing a module without topics onto the first course with `cId` raises the unit count by
      one and leaves the topics alone; with no such course the tree is unchanged. */
  lemma AppendModuleEffect(cs: seq<Course>, cId: Id, m: Module)
    requires m.topics == []
    ensures !CourseFound(cs, cId) ==> AppendModule(cs, cId, m) == cs
    ensures UnitCount(AppendModule(cs, cId, m)) == UnitCount(cs) + (if CourseFound(cs, cId) then 1 else 0)
    ensures AllTopics(AppendModule(cs, cId, m)) == AllTopics(cs)
  {
    var ci := FindIndex(cs, CourseWithId(cId));
    if ci >= 0 {
      var c := cs[ci].(modules := cs[ci].modules + [m]);
      assert AppendModule(cs, cId, m) == cs[ci := c];
      assert UnitCount(cs[ci := c]) == UnitCount(cs) + 1 by {
        UnitCountReplace(cs, ci, c);
      }
      assert ModuleTopics(c.modules) == ModuleTopics(cs[ci].modules) by {
        ModuleTopicsAppend(cs[ci].modules, [m]);
        assert ModuleTopics([m]) == [] by { assert [m][..0] == []; }
      }
      assert AllTopics(cs[ci := c]) == AllTopics(cs) by {
        TopicsAfterCourseWrite(cs, ci, c);
        AllTopicsSplit(cs, ci);
      }
    }
  }

  /** The located module's topics sit in the middle of the topic list: pushing `t` there puts
      `t` between the topics before and after it. */
  lemma AppendTopicSplit(cs: seq<Course>, cId: Id, mId: Id, t: Topic)
    requires ModuleFound(cs, cId, mId)
    ensures exists a, b :: AllTopics(cs) == a + b && AllTopics(AppendTopic(cs, cId, mId, t)) == a + [t] + b
  {
    var ci := FindIndex(cs, CourseWithId(cId));
    var ms := cs[ci].modules;
    var mi := FindIndex(ms, ModuleWithId(mId));
    var m := ms[mi];
    var m' := m.(topics := m.topics + [t]);
    var c := cs[ci].(modules := ms[mi := m']);
    var before, after := AllTopics(cs[..ci]), AllTopics(cs[ci + 1..]);
    var a := before + ModuleTopics(ms[..mi]) + m.topics;
    var b := ModuleTopics(ms[mi + 1..]) + after;
    var front, back := ModuleTopics(ms[..mi]), ModuleTopics(ms[mi + 1..]);
    Regroup(before, front, m.topics, [t], back, after);
    assert AllTopics(cs) == before + (front + m.topics + back) + after by {
      AllTopicsSplit(cs, ci);
      ModuleTopicsSplit(ms, mi);
    }
    assert AllTopics(AppendTopic(cs, cId, mId, t)) == before + (front + (m.topics + [t]) + back) + after by {
      assert AppendTopic(cs, cId, mId, t) == cs[ci := c];
      TopicsAfterCourseWrite(cs, ci, c);
      TopicsAfterModuleWrite(ms, mi, m');
    }
  }

  lemma Regroup<T>(p: seq<T>, y: seq<T>, z: seq<T>, t: seq<T>, w: seq<T>, r: seq<T>)
    ensures p + (y + z + w) + r == (p + y + z) + (w + r)
    ensures p + (y + (z + t) + w) + r == (p + y + z) + t + (w + r)
  {
  }

  /** Pushing a topic into the located module adds it to the topic list and counts it under its
      own status only; with no such module the tree is unchanged. The unit count never moves. */
  lemma AppendTopicEffect(cs: seq<Course>, cId: Id, mId: Id, t: Topic, st: ProgressStatus)
    ensures !ModuleFound(cs, cId, mId) ==> AppendTopic(cs, cId, mId, t) == cs
    ensures UnitCount(AppendTopic(cs, cId, mId, t)) == UnitCount(cs)
    ensures |AllTopics(AppendTopic(cs, cId, mId, t))| == |AllTopics(cs)| + (if ModuleFound(cs, cId, mId) then 1 else 0)
    ensures Count(AllTopics(AppendTopic(cs, cId, mId, t)), TopicHas(st))
            == Count(AllTopics(cs), TopicHas(st)) + (if ModuleFound(cs, cId, mId) && t.status == st then 1 else 0)
  {
    if ModuleFound(cs, cId, mId) {
      var ci := FindIndex(cs, CourseWithId(cId));
      var ms := cs[ci].modules;
      var mi := FindIndex(ms, ModuleWithId(mId));
      var m := ms[mi];
      UnitCountReplace(cs, ci, cs[ci].(modules := ms[mi := m.(topics := m.topics + [t])]));
      AppendTopicSplit(cs, cId, mId, t);
      var a, b :| AllTopics(cs) == a + b && AllTopics(AppendTopic(cs, cId, mId, t)) == a + [t] + b;
      CountAppend(a + [t], b, TopicHas(st));
      CountAppend(a, [t], TopicHas(st));
      CountAppend(a, b, TopicHas(st));
      assert [t][..0] == [];
    }
  }

  // ---------------------------------------------------------------------------------------
  // A course from a parsed syllabus

  /** The shape of the syllabus parser's result: a course title and modules of topic titles. */
  datatype SyllabusTopic = SyllabusTopic(title: string)
  datatype SyllabusModule = SyllabusModule(title: string, topics: seq<SyllabusTopic>)
  datatype Syllabus = Syllabus(courseTitle: string, modules: seq<SyllabusModule>)

  /** The number of topic titles in the parsed modules. */
  function SyllabusTopicCount(ms: seq<SyllabusModule>): nat
  {
    if ms == [] then 0 else SyllabusTopicCount(ms[..|ms| - 1]) + |ms[|ms| - 1].topics|
  }

  /** One parsed module as a module: a fresh id from `topicId` for each of its topics. */
  function ModuleFromSyllabus(sm: SyllabusModule, id: Id, topicId: nat -> Id): (m: Module)
    ensures m.id == id && m.title == sm.title && |m.topics| == |sm.topics|
    ensures forall j :: 0 <= j < |sm.topics| ==> m.topics[j] == NewTopic(topicId(j), sm.topics[j].title)
  {
    Module(id, sm.title, seq(|sm.topics|, (j: int) requires 0 <= j < |sm.topics| =>
                                             NewTopic(topicId(j), sm.topics[j].title)))
  }

  /** `handleAI`'s course: the parsed title, description "AI Generated", one module per parsed
      module and one Not Started topic per parsed topic, in order, all with fresh ids. */
  function CourseFromSyllabus(res: Syllabus, courseId: Id, moduleId: nat -> Id,
                              topicId: (nat, nat) -> Id): (c: Course)
    ensures c.id == courseId && c.title == res.courseTitle && c.description == "AI Generated"
    ensures |c.modules| == |res.modules|
    ensures forall i :: 0 <= i < |res.modules| ==>
              c.modules[i] == ModuleFromSyllabus(res.modules[i], moduleId(i), (j: nat) => topicId(i, j))
  {
    Course(courseId, res.courseTitle, "AI Generated",
           seq(|res.modules|, (i: int) requires 0 <= i < |res.modules| =>
                                ModuleFromSyllabus(res.modules[i], moduleId(i), (j: nat) => topicId(i, j))))
  }

  /** Modules built from parsed modules hold exactly as many topics, all Not Started. */
  lemma {:induction false} SyllabusTopics(ms: seq<Module>, sms: seq<SyllabusModule>)
    requires |ms| == |sms|
    requires forall i :: 0 <= i < |ms| ==> |ms[i].topics| == |sms[i].topics|
    requires forall i, j :: 0 <= i < |ms| && 0 <= j < |ms[i].topics| ==> ms[i].topics[j].status == NotStarted
    ensures |ModuleTopics(ms)| == SyllabusTopicCount(sms)
    ensures forall k :: 0 <= k < |ModuleTopics(ms)| ==> ModuleTopics(ms)[k].status == NotStarted
  {
    if ms != [] {
      var n := |ms| - 1;
      SyllabusTopics(ms[..n], sms[..n]);
      assert sms[..n] == sms[..|sms| - 1];
      var front := ModuleTopics(ms[..n]);
      forall k | 0 <= k < |ModuleTopics(ms)| ensures ModuleTopics(ms)[k].status == NotStarted {
        if k >= |front| {
          assert ModuleTopics(ms)[k] == ms[n].topics[k - |front|];
        }
      }
    }
  }

  /** Importing a syllabus course raises the dashboard total by the number of parsed topics and
      the unit count by the number of parsed modules; the mastered and in-progress counts stay. */
  lemma ImportEffect(cs: seq<Course>, res: Syllabus, courseId: Id, moduleId: nat -> Id,
                     topicId: (nat, nat) -> Id)
    ensures var r := cs + [CourseFromSyllabus(res, courseId, moduleId, topicId)];
            && |AllTopics(r)| == |AllTopics(cs)| + SyllabusTopicCount(res.modules)
            && UnitCount(r) == UnitCount(cs) + |res.modules|
            && Count(AllTopics(r), TopicHas(Mastered)) == Count(AllTopics(cs), TopicHas(Mastered))
            && Count(AllTopics(r), TopicHas(ProgressStatus.InProgress))
               == Count(AllTopics(cs), TopicHas(ProgressStatus.InProgress))
  {
    var c := CourseFromSyllabus(res, courseId, moduleId, topicId);
    var r := cs + [c];
    SyllabusTopics(c.modules, res.modules);
    var added := ModuleTopics(c.modules);
    assert AllTopics(r) == AllTopics(cs) + added by { assert r[..|r| - 1] == cs; }
    assert UnitCount(r) == UnitCount(cs) + |c.modules| by { assert r[..|r| - 1] == cs; }
    forall st: ProgressStatus | st != NotStarted
      ensures Count(AllTopics(r), TopicHas(st)) == Count(AllTopics(cs), TopicHas(st))
    {
      CountAppend(AllTopics(cs), added, TopicHas(st));
      CountNone(added, TopicHas(st));
    }
  }

  // ---------------------------------------------------------------------------------------
  // Deleting a course

  /** The trash button of a course: every course carrying its id goes. */
  function WithoutCourse(cs: seq<Course>, id: Id): (r: seq<Course>)
    ensures |r| <= |cs|
  {
    Filter(cs, (c: Course) => c.id != id)
  }

  /** After a course delete no course carries the id, and every course with another id is kept. */
  lemma WithoutCourseFacts(cs: seq<Course>, id: Id)
    ensures forall j :: 0 <= j < |WithoutCourse(cs, id)| ==> WithoutCourse(cs, id)[j].id != id
    ensures forall j :: 0 <= j < |cs| && cs[j].id != id ==> cs[j] in WithoutCourse(cs, id)
  {
    var keep := (c: Course) => c.id != id;
    FilterSound(cs, keep);
    FilterComplete(cs, keep);
  }

  /** No course with the id is left, every other course is kept, and with distinct course ids
      exactly the one course at `i` disappears, taking its modules out of the unit count. */
  lemma DeleteCourseEffect(cs: seq<Course>, i: nat)
    requires i < |cs|
    requires forall j, k :: 0 <= j < k < |cs| ==> cs[j].id != cs[k].id
    ensures var r := WithoutCourse(cs, cs[i].id);
            && r == cs[..i] + cs[i + 1..]
            && (forall j :: 0 <= j < |r| ==> r[j].id != cs[i].id)
            && UnitCount(r) + |cs[i].modules| == UnitCount(cs)
  {
    var keep := (c: Course) => c.id != cs[i].id;
    FilterDropsOne(cs, keep, i);
    FilterSound(cs, keep);
    assert cs == cs[..i] + [cs[i]] + cs[i + 1..];
    UnitCountAppend(cs[..i] + [cs[i]], cs[i + 1..]);
    UnitCountAppend(cs[..i], [cs[i]]);
    UnitCountAppend(cs[..i], cs[i + 1..]);
    assert UnitCount([cs[i]]) == |cs[i].modules| by { assert [cs[i]][..0] == []; }
  }

  // ---------------------------------------------------------------------------------------
  // The handlers, on the shared state

  /** `handleAdd`: with a blank title or no open dialog nothing happens (`None`); otherwise a new
      root sharing both lists is published, after the entry was pushed into the shared course
      list, so the previous root sees the new entry as well. */
  method HandleAdd(data: AppState, req: Option<AddRequest>, formName: string, newId: Id)
    returns (next: Option<AppState>)
    modifies data.courses
    ensures IsBlank(formName) || req.None? ==>
              next.None? && data.courses.items == old(data.courses.items)
    ensures !IsBlank(formName) && req.Some? ==>
              && next.Some? && fresh(next.value)
              && next.value.user == data.user
              && next.value.courses == data.courses && next.value.projects == data.projects
              && data.courses.items == AddEntry(old(data.courses.items), req.value, formName, newId)
  {
    if IsBlank(formName) || req.None? {
      return None;
    }
    var newData := Spread(data);
    match req.value {
      case AddCourse =>
        newData.courses.items := newData.courses.items + [NewCourse(newId, formName)];
      case AddModule(p1) =>
        if Truthy(p1) {
          newData.courses.items := AppendModule(newData.courses.items, p1.value, NewModule(newId, formName));
        }
      case AddTopic(p1, p2) =>
        if Truthy(p1) && Truthy(p2) {
          newData.courses.items :=
            AppendTopic(newData.courses.items, p1.value, p2.value, NewTopic(newId, formName));
        }
    }
    next := Some(newData);
  }

  /** `handleAI` once the parser has answered: `None` stands for a failed parse (the handler
      publishes nothing). Otherwise the new root holds a new course list, the old one plus the
      syllabus course; the previous root and its list are untouched. */
  method ImportSyllabus(data: AppState, res: Option<Syllabus>, courseId: Id, moduleId: nat -> Id,
                        topicId: (nat, nat) -> Id)
    returns (next: Option<AppState>)
    ensures res.None? ==> next.None?
    ensures res.Some? ==>
              && next.Some? && fresh(next.value) && fresh(next.value.courses)
              && next.value.user == data.user && next.value.projects == data.projects
              && next.value.courses.items
                 == data.courses.items + [CourseFromSyllabus(res.value, courseId, moduleId, topicId)]
  {
    if res.None? {
      return None;
    }
    var c := CourseFromSyllabus(res.value, courseId, moduleId, topicId);
    var courses := new CourseList(data.courses.items + [c]);
    var root := new AppState(data.user, courses, data.projects);
    next := Some(root);
  }

  /** The trash button of course `id`: a new root with a new, filtered course list. */
  method DeleteCourse(data: AppState, id: Id) returns (next: AppState)
    ensures fresh(next) && fresh(next.courses)
    ensures next.user == data.user && next.projects == data.projects
    ensures next.courses.items == WithoutCourse(data.courses.items, id)
  {
    var courses := new CourseList(WithoutCourse(data.courses.items, id));
    next := new AppState(data.user, courses, data.projects);
  }

  /** The status button of a topic: the located topic's status is assigned in place, inside the
      shared course list, and a new root sharing both lists is published. */
  method CycleTopicStatus(data: AppState, cId: Id, mId: Id, tId: Id) returns (next: AppState)
    modifies data.courses
    ensures fresh(next)
    ensures next.user == data.user && next.courses == data.courses && next.projects == data.projects
    ensures data.courses.items == CycleAt(old(data.courses.items), cId, mId, tId)
  {
    var newData := Spread(data);
    var cs := newData.courses.items;
    var found := FindTopic(cs, cId, mId, tId);
    if found.Some? {
      var p := found.value;
      var tRef := TopicAt(cs, p);
      newData.courses.items := WithTopicAt(cs, p, tRef.(status := Advance(ProgressStatuses, tRef.status)));
    }
    next := newData;
  }

  /** The update callback of the topic detail view: the topic located by the view's course and
      module ids and by `ut`'s id takes `ut`'s fields, in place, and a new root sharing both
      lists is published. */
  method UpdateTopic(data: AppState, cId: Id, mId: Id, ut: Topic) returns (next: AppState)
    modifies data.courses
    ensures fresh(next)
    ensures next.user == data.user && next.courses == data.courses && next.projects == data.projects
    ensures data.courses.items == AssignAt(old(data.courses.items), cId, mId, ut)
  {
    var newData := Spread(data);
    var cs := newData.courses.items;
    var found := FindTopic(cs, cId, mId, ut.id);
    if found.Some? {
      newData.courses.items := WithTopicAt(cs, found.value, ut);
    }
    next := newData;
  }
}
