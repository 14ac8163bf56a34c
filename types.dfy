/** Domain model of the academic tracker: the enums and records of types.ts.
    Courses, modules, topics, tasks and projects are datatypes: value copies held in the lists.
    Where the application changes such an object in place (a push onto a course's modules or a
    module's topics, a topic's status, `Object.assign` onto a topic), the model writes a new
    item into the list that holds it. The root state and the two top-level arrays, which the
    application shares between snapshots and pushes into, are classes so that this sharing of
    the source is visible in the model. */
module Types {

  datatype Option<T> = None | Some(value: T)

  /** Opaque identifier produced by the id generator. */
  type Id = string

  /** A calendar date, abstracted to a totally ordered day number. */
  type Day = int

  /** Learning status of a topic (types.ts ProgressStatus). */
  datatype ProgressStatus = NotStarted | InProgress | Mastered

  /** The string value each ProgressStatus member carries. */
  function ProgressText(s: ProgressStatus): string
  {
    match s
    case NotStarted => "Not Started"
    case InProgress => "In Progress"
    case Mastered => "Mastered"
  }

  /** Pipeline status of an academic project (types.ts AcademicTaskStatus). */
  datatype AcademicTaskStatus = Upcoming | InProgress | Review | Submitted

  /** The string value each AcademicTaskStatus member carries. */
  function AcademicText(s: AcademicTaskStatus): string
  {
    match s
    case Upcoming => "Upcoming"
    case InProgress => "In Progress"
    case Review => "Review"
    case Submitted => "Submitted"
  }

  /** The members of each enum, in declaration order. */
  const ProgressStatuses: seq<ProgressStatus> := [NotStarted, ProgressStatus.InProgress, Mastered]
  const AcademicStatuses: seq<AcademicTaskStatus> := [Upcoming, AcademicTaskStatus.InProgress, Review, Submitted]

  /** ProgressStatus has exactly the three members, each with its own text. */
  lemma ProgressStatusMembers()
    ensures |ProgressStatuses| == 3
    ensures forall s: ProgressStatus :: s in ProgressStatuses
    ensures forall i, j :: 0 <= i < j < 3 ==> ProgressText(ProgressStatuses[i]) != ProgressText(ProgressStatuses[j])
    ensures ProgressText(NotStarted) == "Not Started" && ProgressText(ProgressStatus.InProgress) == "In Progress"
    ensures ProgressText(Mastered) == "Mastered"
  {
    forall s: ProgressStatus ensures s in ProgressStatuses {
      match s
      case NotStarted => assert ProgressStatuses[0] == s;
      case InProgress => assert ProgressStatuses[1] == s;
      case Mastered => assert ProgressStatuses[2] == s;
    }
  }

  /** AcademicTaskStatus has exactly the four members, in this order, each with its own text. */
  lemma AcademicStatusMembers()
    ensures |AcademicStatuses| == 4
    ensures forall s: AcademicTaskStatus :: s in AcademicStatuses
    ensures forall i, j :: 0 <= i < j < 4 ==> AcademicText(AcademicStatuses[i]) != AcademicText(AcademicStatuses[j])
    ensures AcademicText(Upcoming) == "Upcoming" && AcademicText(AcademicTaskStatus.InProgress) == "In Progress"
    ensures AcademicText(Review) == "Review" && AcademicText(Submitted) == "Submitted"
  {
    forall s: AcademicTaskStatus ensures s in AcademicStatuses {
      match s
      case Upcoming => assert AcademicStatuses[0] == s;
      case InProgress => assert AcademicStatuses[1] == s;
      case Review => assert AcademicStatuses[2] == s;
      case Submitted => assert AcademicStatuses[3] == s;
    }
  }

  /** Where the spaces are in the AcademicTaskStatus texts: three single words, and "In Progress"
      with its first space after "In". */
  lemma AcademicTextSpaces()
    ensures forall i :: 0 <= i < |AcademicText(Upcoming)| ==> AcademicText(Upcoming)[i] != ' '
    ensures forall i :: 0 <= i < |AcademicText(Review)| ==> AcademicText(Review)[i] != ' '
    ensures forall i :: 0 <= i < |AcademicText(Submitted)| ==> AcademicText(Submitted)[i] != ' '
    ensures 2 < |AcademicText(AcademicTaskStatus.InProgress)|
    ensures AcademicText(AcademicTaskStatus.InProgress)[2] == ' '
    ensures forall i :: 0 <= i < 2 ==> AcademicText(AcademicTaskStatus.InProgress)[i] != ' '
    ensures AcademicText(AcademicTaskStatus.InProgress)[..2] == "In"
  {
  }

  datatype Priority = Low | Medium | High

  /** A study task; notes and deadline are optional. */
  datatype Task = Task(id: Id, title: string, completed: bool, priority: Priority,
                       notes: Option<string>, deadline: Option<Day>)

  /** The `type` field of a resource: 'markdown' or 'link'. */
  datatype ResourceKind = Markdown | Link

  datatype Resource = Resource(id: Id, kind: ResourceKind, title: string, content: string)

  /** A topic owns its tasks and resources. */
  datatype Topic = Topic(id: Id, title: string, status: ProgressStatus,
                         tasks: seq<Task>, resources: seq<Resource>)

  /** A module owns its topics. */
  datatype Module = Module(id: Id, title: string, topics: seq<Topic>)

  /** A course owns its modules. */
  datatype Course = Course(id: Id, title: string, description: string, modules: seq<Module>)

  /** An academic project always carries a deadline, a status and notes; it belongs to no course. */
  datatype AcademicProject = AcademicProject(id: Id, title: string, category: string,
                                             deadline: Day, status: AcademicTaskStatus, notes: string)

  datatype UserProfile = UserProfile(name: string, role: string,
                                     avatarUrl: Option<string>, apiKey: Option<string>)

  /** The `Course[]` array of a state: an object that several state snapshots can share. */
  class CourseList {
    var items: seq<Course>

    constructor (items: seq<Course>)
      ensures this.items == items
    {
      this.items := items;
    }
  }

  /** The `AcademicProject[]` array of a state. */
  class ProjectList {
    var items: seq<AcademicProject>

    constructor (items: seq<AcademicProject>)
      ensures this.items == items
    {
      this.items := items;
    }
  }

  /** The root aggregate: one profile, the course list and the separate project list.
      The application never assigns a field of a root object (it builds new roots by
      spreading), so the fields are constants; the lists they point to are mutable. */
  class AppState {
    const user: UserProfile
    const courses: CourseList
    const projects: ProjectList

    constructor (user: UserProfile, courses: CourseList, projects: ProjectList)
      ensures this.user == user && this.courses == courses && this.projects == projects
    {
      this.user := user;
      this.courses := courses;
      this.projects := projects;
    }
  }

  /** `{...data}`: a new root object that shares both arrays with `data`. */
  method Spread(data: AppState) returns (r: AppState)
    ensures fresh(r)
    ensures r.user == data.user && r.courses == data.courses && r.projects == data.projects
  {
    r := new AppState(data.user, data.courses, data.projects);
  }
}
