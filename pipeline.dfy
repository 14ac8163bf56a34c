/** The academic pipeline board: four status columns over the project list, the project form
    (create or edit), moving a project to another column, and deleting it. */
module Pipeline {
  import opened Types
  import opened Lists
  import opened Dashboard

  // ---------------------------------------------------------------------------------------
  // Columns

  /** A board column: its heading and the status whose projects it shows. */
  datatype Column = Column(title: string, status: AcademicTaskStatus)

  const Columns: seq<Column> := [
    Column("Upcoming", Upcoming),
    Column("Working", AcademicTaskStatus.InProgress),
    Column("Final Review", Review),
    Column("Done", Submitted)
  ]

  /** One column per status, in the order of the enum. */
  lemma ColumnsFollowStatuses()
    ensures |Columns| == |AcademicStatuses|
    ensures forall i :: 0 <= i < |Columns| ==> Columns[i].status == AcademicStatuses[i]
  {
  }

  /** The cards of the column for `st`, in list order. */
  function ColumnItems(ps: seq<AcademicProject>, st: AcademicTaskStatus): (r: seq<AcademicProject>)
    ensures |r| <= |ps|
  {
    Filter(ps, HasStatus(st))
  }

  /** The columns partition the list: a column holds projects of its own status only, every
      project shows up in the column of its status, the column sizes are the chart counts, and
      the four sizes add up to the number of projects. */
  lemma ColumnPartition(ps: seq<AcademicProject>)
    ensures forall st, j :: 0 <= j < |ColumnItems(ps, st)| ==>
              ColumnItems(ps, st)[j].status == st && ColumnItems(ps, st)[j] in ps
    ensures forall i :: 0 <= i < |ps| ==> ps[i] in ColumnItems(ps, ps[i].status)
    ensures forall st :: |ColumnItems(ps, st)| == Count(ps, HasStatus(st))
    ensures |ColumnItems(ps, Columns[0].status)| + |ColumnItems(ps, Columns[1].status)|
          + |ColumnItems(ps, Columns[2].status)| + |ColumnItems(ps, Columns[3].status)| == |ps|
  {
    forall st ensures |ColumnItems(ps, st)| == Count(ps, HasStatus(st))
      && (forall j :: 0 <= j < |ColumnItems(ps, st)| ==> ColumnItems(ps, st)[j].status == st && ColumnItems(ps, st)[j] in ps)
    {
      CountIsFilterLength(ps, HasStatus(st));
      FilterSound(ps, HasStatus(st));
      forall j | 0 <= j < |ColumnItems(ps, st)| ensures ColumnItems(ps, st)[j] in ps {
        assert ColumnItems(ps, st)[j] in multiset(ps);
      }
    }
    forall i | 0 <= i < |ps| ensures ps[i] in ColumnItems(ps, ps[i].status) {
      FilterComplete(ps, HasStatus(ps[i].status));
    }
    StatusCountsSum(ps);
  }

  // ---------------------------------------------------------------------------------------
  // The project form

  /** The form fields; an empty deadline field is `None`. */
  datatype ProjectForm = ProjectForm(title: string, category: string, deadline: Option<Day>, notes: string)

  /** The form as it is filled when a card is opened for editing. */
  function FormOf(p: AcademicProject): (f: ProjectForm)
  {
    ProjectForm(p.title, p.category, Some(p.deadline), p.notes)
  }

  /** `handleSave`'s guard: an empty title or an empty deadline declines the save. The title is
      not trimmed, so a title of spaces passes. */
  predicate Declined(form: ProjectForm)
  {
    form.title == "" || form.deadline.None?
  }

  function ProjectWithId(id: Id): AcademicProject -> bool
  {
    (p: AcademicProject) => p.id == id
  }

  /** The edited card: the form, which was filled from `item`, carries `item`'s id and status
      and the edited title, category, deadline and notes. */
  function Edited(item: AcademicProject, form: ProjectForm): (r: AcademicProject)
    requires form.deadline.Some?
    ensures r.id == item.id && r.status == item.status
    ensures FormOf(r) == form
  {
    item.(title := form.title, category := form.category, deadline := form.deadline.value, notes := form.notes)
  }

  /** A new card: a fresh id, the form's fields, status Upcoming. */
  function NewProject(id: Id, form: ProjectForm): (r: AcademicProject)
    requires form.deadline.Some?
    ensures r.id == id && r.status == Upcoming && FormOf(r) == form
  {
    AcademicProject(id, form.title, form.category, form.deadline.value, Upcoming, form.notes)
  }

  /** Saving an edit: the first project with the edited card's id is overwritten in place; with
      no such project the list stays as it is. An edit keeps the length and every position: the
      edited card stays where it was, found at the same index by its id, and every other
      project is untouched. */
  function SaveEdit(ps: seq<AcademicProject>, item: AcademicProject, form: ProjectForm): (r: seq<AcademicProject>)
    requires form.deadline.Some?
    ensures var idx := FindIndex(ps, ProjectWithId(item.id));
            && |r| == |ps|
            && (idx == -1 ==> r == ps)
            && (idx >= 0 ==> r[idx] == Edited(item, form) && FindIndex(r, ProjectWithId(item.id)) == idx)
            && forall j :: 0 <= j < |ps| && j != idx ==> r[j] == ps[j]
  {
    var idx := FindIndex(ps, ProjectWithId(item.id));
    if idx == -1 then ps
    else
      var r := ps[idx := Edited(item, form)];
      assert ProjectWithId(item.id)(r[idx]);
      assert forall j :: 0 <= j < idx ==> r[j] == ps[j];
      r
  }

  /** A new project goes to the end of the list and of the Upcoming column; the other columns
      keep their cards. */
  lemma SaveNewEffect(ps: seq<AcademicProject>, form: ProjectForm, id: Id, st: AcademicTaskStatus)
    requires form.deadline.Some?
    ensures var r := ps + [NewProject(id, form)];
            ColumnItems(r, st) == ColumnItems(ps, st) + (if st == Upcoming then [NewProject(id, form)] else [])
  {
    FilterAppend(ps, [NewProject(id, form)], HasStatus(st));
  }

  // ---------------------------------------------------------------------------------------
  // Moving and deleting

  /** The column dots of a card: every project with the card's id gets status `st`. */
  function Moved(ps: seq<AcademicProject>, id: Id, st: AcademicTaskStatus): (r: seq<AcademicProject>)
    ensures |r| == |ps|
    ensures forall i :: 0 <= i < |ps| ==> r[i] == if ps[i].id == id then ps[i].(status := st) else ps[i]
  {
    if ps == [] then []
    else [if ps[0].id == id then ps[0].(status := st) else ps[0]] + Moved(ps[1..], id, st)
  }

  /** Of two moves of the same card the second wins; a move keeps ids, order and every other
      field, and the moved card then sits in the column it was moved to. */
  lemma MoveEffect(ps: seq<AcademicProject>, id: Id, a: AcademicTaskStatus, b: AcademicTaskStatus)
    ensures Moved(Moved(ps, id, a), id, b) == Moved(ps, id, b)
    ensures forall i :: 0 <= i < |ps| ==>
              Moved(ps, id, a)[i].(status := ps[i].status) == ps[i]
    ensures forall i :: 0 <= i < |ps| && ps[i].id == id ==> Moved(ps, id, a)[i] in ColumnItems(Moved(ps, id, a), a)
  {
    assert Moved(Moved(ps, id, a), id, b) == Moved(ps, id, b);
    FilterComplete(Moved(ps, id, a), HasStatus(a));
  }

  /** The delete button of the edit dialog: every project with the edited card's id goes. */
  function WithoutProject(ps: seq<AcademicProject>, id: Id): (r: seq<AcademicProject>)
    ensures |r| <= |ps|
  {
    Filter(ps, (p: AcademicProject) => p.id != id)
  }

  /** After a project delete no project carries the id, and every project with another id is
      kept. */
  lemma WithoutProjectFacts(ps: seq<AcademicProject>, id: Id)
    ensures forall j :: 0 <= j < |WithoutProject(ps, id)| ==> WithoutProject(ps, id)[j].id != id
    ensures forall j :: 0 <= j < |ps| && ps[j].id != id ==> ps[j] in WithoutProject(ps, id)
  {
    var keep := (p: AcademicProject) => p.id != id;
    FilterSound(ps, keep);
    FilterComplete(ps, keep);
  }

  /** With distinct project ids, deleting the card at `i` removes exactly that card. */
  lemma DeleteProjectEffect(ps: seq<AcademicProject>, i: nat)
    requires i < |ps|
    requires forall j, k :: 0 <= j < k < |ps| ==> ps[j].id != ps[k].id
    ensures WithoutProject(ps, ps[i].id) == ps[..i] + ps[i + 1..]
    ensures forall j :: 0 <= j < |WithoutProject(ps, ps[i].id)| ==> WithoutProject(ps, ps[i].id)[j].id != ps[i].id
  {
    var keep := (p: AcademicProject) => p.id != ps[i].id;
    FilterDropsOne(ps, keep, i);
    FilterSound(ps, keep);
  }

  // ---------------------------------------------------------------------------------------
  // The handlers, on the shared state

  /** `handleSave`: a declined form publishes nothing. Otherwise the edit or the new card is
      written into the shared project list in place (indexed assignment or push), and a new
      root sharing both lists is published. */
  method HandleSave(data: AppState, editItem: Option<AcademicProject>, form: ProjectForm, newId: Id)
    returns (next: Option<AppState>)
    modifies data.projects
    ensures Declined(form) ==> next.None? && data.projects.items == old(data.projects.items)
    ensures !Declined(form) ==>
              && next.Some? && fresh(next.value)
              && next.value.user == data.user
              && next.value.courses == data.courses && next.value.projects == data.projects
              && data.projects.items == if editItem.Some?
                                        then SaveEdit(old(data.projects.items), editItem.value, form)
                                        else old(data.projects.items) + [NewProject(newId, form)]
  {
    if Declined(form) {
      return None;
    }
    var newData := Spread(data);
    if editItem.Some? {
      var idx := FindIndex(newData.projects.items, ProjectWithId(editItem.value.id));
      if idx != -1 {
        newData.projects.items := newData.projects.items[idx := Edited(editItem.value, form)];
      }
    } else {
      newData.projects.items := newData.projects.items + [NewProject(newId, form)];
    }
    next := Some(newData);
  }

  /** A column dot: a new root with a new, mapped project list. */
  method MoveToColumn(data: AppState, id: Id, st: AcademicTaskStatus) returns (next: AppState)
    ensures fresh(next) && fresh(next.projects)
    ensures next.user == data.user && next.courses == data.courses
    ensures next.projects.items == Moved(data.projects.items, id, st)
  {
    var projects := new ProjectList(Moved(data.projects.items, id, st));
    next := new AppState(data.user, data.courses, projects);
  }

  /** The confirmed delete: a new root with a new, filtered project list. */
  method DeleteProject(data: AppState, id: Id) returns (next: AppState)
    ensures fresh(next) && fresh(next.projects)
    ensures next.user == data.user && next.courses == data.courses
    ensures next.projects.items == WithoutProject(data.projects.items, id)
  {
    var projects := new ProjectList(WithoutProject(data.projects.items, id));
    next := new AppState(data.user, data.courses, projects);
  }
}
