# Pathway academic tracker: a Dafny model of its state logic

Pathway is a single-page study tracker. Its state (`AppState`) holds a user profile, a tree of
courses → modules → topics → tasks, and a separate list of academic projects. This project
models the logic in `App.tsx` that reads and updates that state, and the domain types of
`types.ts`. It proves what the screens rely on:

- the dashboard derivations: mastery statistics, the two next-priority projects, the
  per-status pipeline chart and the unit count;
- the timeline ordering and the pipeline board's column partition;
- the task operations of the topic detail view;
- adding courses, modules and topics, importing a parsed syllabus, deleting a course and
  cycling a topic's status;
- saving, moving and deleting projects.

Modules:

- `Types` (`types.dfy`): the enums and records. Courses, modules, topics, tasks and projects
  are datatypes. The application does change some of these objects in place: it pushes onto
  a course's modules (App.tsx:395) or a module's topics (399), assigns a topic's status (463)
  and uses `Object.assign` onto a topic (513). The model writes a new item into the shared
  list instead. The root state and its two arrays are classes (`AppState`, `CourseList`,
  `ProjectList`), because the application shares those arrays between snapshots.
- `Lists`, `Strings` (`lists.dfy`): the array primitives the handlers use (`findIndex`/`find`,
  `filter`, counting) and the two string operations (`trim()`-blankness, `split(' ')[0]`).
- `Ordering` (`ordering.dfy`): the deadline comparator with a stable insertion sort, standing
  for `Array.prototype.sort`.
- `Dashboard` (`dashboard.dfy`): the statistics, next priority, pipeline chart and unit count.
- `TopicDetails` (`topic_details.dfy`): add, toggle, delete and annotate tasks.
- `Curriculum` (`curriculum.dfy`): locating a topic by ids, the status cycle, the write-back
  of an edited topic, `handleAdd`, the syllabus import and course delete.
- `Pipeline` (`pipeline.dfy`): the columns, `handleSave`, the column move and project delete.
- `Calendar` (`calendar.dfy`): the timeline.

**Aliasing.** The application describes its updates as new snapshots, but the code does not
copy what it changes. `{...data}` (App.tsx:391, 460, 511, 540) copies only the root. The
handlers then `push` into, or assign inside, arrays that the previous snapshot still holds.
The model follows the code:

- `Types.Spread` returns a new root that shares both lists.
- `Curriculum.HandleAdd`, `Curriculum.CycleTopicStatus`, `Curriculum.UpdateTopic` and
  `Pipeline.HandleSave` modify the shared list (`modifies data.courses` or
  `data.projects`). Their postconditions are stated against `old(...)`.
- The handlers that build new arrays with `map`, `filter` or spread return a root with a
  fresh list and leave the old one untouched: `Curriculum.DeleteCourse`,
  `Curriculum.ImportSyllabus`, `Pipeline.MoveToColumn` and `Pipeline.DeleteProject`.

**Parameters.**

- Generated ids are arguments. A single-id handler takes it directly; the syllabus import
  takes `nat -> Id` and `(nat, nat) -> Id` supplies, one id per module and per topic.
- Deadlines are abstract day numbers (`Day = int`). An empty date field is `None`.
- The syllabus parser's answer is an `Option<Syllabus>`, where `None` is a failed parse.
- A handler that returns early without calling `onUpdate` returns `None`.

## Model

| member | source | states |
|---|---|---|
| Types.ProgressStatusMembers | types.ts:2-6 | exactly three statuses, with their texts "Not Started", "In Progress", "Mastered", all distinct |
| Types.AcademicStatusMembers | types.ts:8-13 | exactly four statuses, in the order Upcoming, In Progress, Review, Submitted, with distinct texts |
| Types.Spread | App.tsx:391 | `{...data}` is a new root whose user, course list and project list are the very objects of `data` |
| Lists.FindIndex | App.tsx:542 | -1 exactly when no element matches; otherwise the match with no match before it |
| Strings.FirstWord | App.tsx:264 | the result is a prefix of the text without a space, ending at the text's end or at a space |
| Strings.FirstWordUnique | App.tsx:264 | any prefix with those three properties is the first word, so `split(' ')[0]` is pinned down |
| Ordering.Insert | App.tsx:256 | insertion keeps the list ascending by deadline and adds exactly the one project |
| Ordering.SortByDeadline | App.tsx:256 | the sorted list is ascending by deadline and a permutation of the input |
| Ordering.SortStable | App.tsx:256 | for every day, the projects due that day keep their input order (a stable sort) |
| Ordering.SortedPrefixEarliest | App.tsx:258 | the first n entries of a deadline-sorted list are drawn from it and due no later than any entry left after them |
| Dashboard.ModuleTopicsAppend | App.tsx:245 | walking the topics of two module lists is walking each in turn |
| Dashboard.AllTopicsAppend | App.tsx:245 | walking the topics of two course lists is walking each in turn |
| Dashboard.RoundedPercent | App.tsx:250 | 0 for an empty whole; otherwise the integer nearest to 100·part/whole, with halves rounded up; never above 100 |
| Dashboard.MasteredPlusInProgress | App.tsx:247-248 | mastered and in-progress topics together are at most all topics |
| Dashboard.TallyTopics | App.tsx:245-249 | the inner counting loop adds one per topic to total and one per Mastered or In Progress topic to those counters |
| Dashboard.MasteryStats | App.tsx:243-251 | total counts every topic of every module of every course; mastered and inProgress count topics with that status; mastered + inProgress <= total; pct is the rounded percentage, 0 when there are no topics, at most 100 |
| Dashboard.NextPriority | App.tsx:253-259 | at most two entries (fewer only when fewer projects are open), ascending by deadline |
| Dashboard.NextPriorityOpen | App.tsx:255 | every entry is a project of the list that is not Submitted |
| Dashboard.NextPriorityEarliest | App.tsx:254-258 | the entries are drawn from the open projects, and no open project left out is due before an entry |
| Dashboard.Labels | App.tsx:264 | the chart labels are "Upcoming", "In", "Review", "Submitted" |
| Dashboard.StatusCountsSum | App.tsx:263 | the four per-status counts add up to the number of projects |
| Dashboard.PipelineBreakdown | App.tsx:261-265 | four entries, in status order, each labelled by its status text up to the first space and counting the projects of that status; the values sum to the number of projects |
| Dashboard.UnitCount | App.tsx:359 | every course's module count is part of the unit count, which is zero exactly when no course has a module |
| Dashboard.UnitCountAppend | App.tsx:359 | the unit count of two course lists is the sum of their counts |
| Dashboard.UnitCountReplace | App.tsx:359 | replacing one course changes the unit count by the difference in its module count |
| Calendar.Timeline | App.tsx:614 | the timeline is ascending by deadline and a permutation of all projects |
| Calendar.TimelineEffect | App.tsx:614 | every project, Submitted ones included, is on the timeline; projects due on the same day keep their list order |
| TopicDetails.AddTask | App.tsx:185-189 | a blank or whitespace-only title changes nothing; otherwise exactly one task is appended (not completed, Medium, notes "", no deadline), the earlier tasks and the other topic fields are unchanged |
| TopicDetails.Toggled | App.tsx:206 | each task with the id has its completion flipped; every other task is unchanged; length and order are kept |
| TopicDetails.ToggleTask | App.tsx:206 | only `completed` can change, and it changes exactly on the tasks with the id |
| TopicDetails.ToggleTwice | App.tsx:206 | toggling twice restores the topic |
| TopicDetails.DeleteTask | App.tsx:212 | only the task list changes, and it does not grow |
| TopicDetails.DeleteTaskFacts | App.tsx:212 | no task with the id remains; every task with another id is kept |
| TopicDetails.DeleteTaskRemovesOne | App.tsx:212 | with distinct ids, exactly the task at that position is removed and the others keep their order |
| TopicDetails.DeleteUndoesAdd | App.tsx:187 | deleting a freshly added task gives back the original topic |
| TopicDetails.WithNotes | App.tsx:230 | the tasks with the id get the new notes; every other task is unchanged |
| TopicDetails.SaveTaskNotes | App.tsx:230 | only notes can change, only on the tasks with the id, and they become the saved text |
| TopicDetails.SaveNotesLastWins | App.tsx:230 | of two saves to the same task the second wins |
| Curriculum.LocatedUnique | App.tsx:462 | the chain of `find` calls lands in at most one place |
| Curriculum.FindTopic | App.tsx:462 | the chain of `find` calls: a position that is the first match at every level, or none when no such position exists |
| Curriculum.WithTopicAt | App.tsx:513 | writing a topic at a position keeps the course and module outline, puts the topic there and leaves every other topic unchanged |
| Curriculum.WithSameTopic | App.tsx:513 | writing back the topic already there changes nothing |
| Curriculum.WithTopicTwice | App.tsx:513 | of two writes to the same position the second wins |
| Curriculum.FindTopicAfterWrite | App.tsx:462-463 | a write that keeps the topic's id leaves every lookup where it was |
| Curriculum.SameIds | App.tsx:462 | trees with the same outline agree on the course and module ids along a path |
| Curriculum.Advance | App.tsx:463 | `flow[(flow.indexOf(x) + 1) % flow.length]`: the entry after x's first occurrence, wrapping around; flow[0] when x is not in the flow |
| Curriculum.NextStatus | App.tsx:461-463 | the status button never keeps a status: Not Started → In Progress → Mastered → Not Started |
| Curriculum.StatusFlow | App.tsx:461-463 | Not Started → In Progress → Mastered → Not Started |
| Curriculum.StatusThrice | App.tsx:463 | three steps of the cycle give any status back |
| Curriculum.CycleAt | App.tsx:459-464 | with no located topic the tree is unchanged; otherwise the outline is kept, the located topic's status advances and every other topic is unchanged |
| Curriculum.CycleThrice | App.tsx:459-464 | three presses of the same status button restore the whole course tree |
| Curriculum.AssignAt | App.tsx:510-515 | the topic found by the opening course and module ids and by the edited topic's own id becomes the edited topic; no match changes nothing; everything else is unchanged |
| Curriculum.AssignIdempotent | App.tsx:513 | reporting the same edited topic twice equals once, and the lookup then finds exactly it |
| Curriculum.AppendModule | App.tsx:394-395 | only the first course with the id gets the module, pushed at the end of its modules; every other course and field is unchanged |
| Curriculum.AppendTopic | App.tsx:397-399 | with no matching course and module the tree is unchanged; otherwise only the first matching module of the first matching course changes, and only by `t` pushed at the end of its topics; every other course, module and field is unchanged |
| Curriculum.AddEntry | App.tsx:390-400 | a course is appended at the end with the title, description "" and no modules; a module or topic request with a missing, empty or unmatched parent id changes nothing; the unit count grows by one exactly when a module is added, the topic list exactly when a topic is added, and the mastered and in-progress counts never change |
| Curriculum.TopicsAfterCourseWrite | App.tsx:392-399 | replacing one course replaces only its share of the topic list |
| Curriculum.TopicsAfterModuleWrite | App.tsx:399 | replacing one module replaces only its share of its course's topic list |
| Curriculum.AppendModuleEffect | App.tsx:395 | a module without topics raises the unit count by one exactly when the course is found, and the topic list stays |
| Curriculum.AppendTopicSplit | App.tsx:399 | the pushed topic is inserted once into the topic list, and the topics around it keep their order |
| Curriculum.AppendTopicEffect | App.tsx:397-399 | the topic list grows by one exactly when the module is found; the per-status counts grow only under the new topic's status; the unit count stays |
| Curriculum.ModuleFromSyllabus | App.tsx:410-412 | the module has the parsed title and one Not Started topic, with no tasks or resources, per parsed topic, in order |
| Curriculum.CourseFromSyllabus | App.tsx:408-414 | the course has the parsed title, description "AI Generated" and one module per parsed module, in order |
| Curriculum.SyllabusTopics | App.tsx:410-412 | modules built from the parsed modules hold as many topics as were parsed, all Not Started |
| Curriculum.ImportEffect | App.tsx:415 | importing raises the dashboard total by the number of parsed topics and the unit count by the number of parsed modules; the mastered and in-progress counts stay |
| Curriculum.WithoutCourse | App.tsx:442 | the filtered course list does not grow |
| Curriculum.DeleteCourseEffect | App.tsx:442 | with distinct course ids, deleting the course at a position removes exactly that course, order kept, leaves none with its id and drops the unit count by its modules |
| Curriculum.WithoutCourseFacts | App.tsx:442 | for any id, no course with the id remains and every course with another id is kept |
| Curriculum.HandleAdd | App.tsx:389-402 | a blank title or no open dialog publishes nothing and leaves the courses unchanged; otherwise the entry is pushed into the shared course list and a new root sharing both lists is published |
| Curriculum.ImportSyllabus | App.tsx:404-417 | a failed parse publishes nothing; otherwise a new root with a new course list, the old list plus the syllabus course, and the same user and projects |
| Curriculum.DeleteCourse | App.tsx:442 | a new root with a new, filtered course list and the same user and projects |
| Curriculum.CycleTopicStatus | App.tsx:459-464 | the located topic's status is assigned in the shared course list, as CycleAt says, and a new root sharing both lists is published |
| Curriculum.UpdateTopic | App.tsx:510-515 | the located topic is overwritten in the shared course list, as AssignAt says, and a new root sharing both lists is published |
| Pipeline.ColumnsFollowStatuses | App.tsx:531-536 | one column per status, in the order of the enum |
| Pipeline.ColumnItems | App.tsx:562 | a column holds no more cards than there are projects |
| Pipeline.ColumnPartition | App.tsx:562 | a column holds projects of its own status from the list only; every project is in its status's column; column sizes are the per-status counts and add up to the number of projects |
| Pipeline.Edited | App.tsx:543 | the edited card keeps its id and status and takes every form field |
| Pipeline.NewProject | App.tsx:545 | a new card has the fresh id, the form fields and status Upcoming |
| Pipeline.SaveEdit | App.tsx:541-543 | an edit keeps the length and positions: with no card of that id nothing changes; otherwise only the first such card's slot is overwritten with the edited card, which is found again at the same index |
| Pipeline.SaveNewEffect | App.tsx:545 | a new card goes to the end of the Upcoming column; the other columns keep their cards |
| Pipeline.Moved | App.tsx:578 | each project with the id gets the new status; every other project is unchanged; length and order are kept |
| Pipeline.MoveEffect | App.tsx:578 | of two moves the second wins; a move changes nothing but status; the moved card is in its new column |
| Pipeline.WithoutProject | App.tsx:605 | the filtered project list does not grow |
| Pipeline.DeleteProjectEffect | App.tsx:605 | with distinct ids exactly that project is removed, order kept, and no project with the id remains |
| Pipeline.WithoutProjectFacts | App.tsx:605 | for any id, no project with the id remains and every project with another id is kept |
| Pipeline.HandleSave | App.tsx:538-548 | an empty title or deadline publishes nothing and leaves the projects unchanged; otherwise the edit or the new Upcoming card is written into the shared project list and a new root sharing both lists is published |
| Pipeline.MoveToColumn | App.tsx:578 | a new root with a new, mapped project list and the same user and courses |
| Pipeline.DeleteProject | App.tsx:605 | a new root with a new, filtered project list and the same user and courses |

## Left out

- Dashboard.RoundedPercent: the percentage is computed on integers, as round-half-up of
  100·mastered/total. The source computes `Math.round((mastered / total) * 100)` in double
  precision. The two can differ when the product rounds below a half, e.g. 23 of 40 mastered
  gives 57 there and 58 here. Floating point is not modelled.
- Dashboard.NextPriority, Calendar.Timeline: deadlines are day numbers. Parsing and formatting
  date strings (`new Date(...)`, `toLocaleDateString`, App.tsx:256, 324, 571, 614, 634) is
  not modelled. Neither is the NaN comparison an unparsable date gives.
- Persistence is not modelled because it is browser I/O over JSON. This covers
  `StorageService` over `localStorage` (App.tsx:51-68), the save effect (App.tsx:657),
  backup and restore through Blob and FileReader (App.tsx:687, 692), and clear-and-reload
  (App.tsx:695).
- Restored or hand-edited JSON can hold status strings outside the enums. It can also give
  the pipeline chart an extra key. The model's enums admit only the declared members.
- The `confirm()` dialogs (App.tsx:605, 695) are user interaction. The project delete is
  modelled as the filter it performs once the user confirms.
- `generateId` (App.tsx:70) draws from `Math.random`. Ids are parameters instead.
- The random tip (App.tsx:241) is left out because it draws from `Math.random`.
- The syllabus parser `services/geminiService.ts` calls a remote model and `JSON.parse`. Only
  its result shape (geminiService.ts:19-43) is modelled, as the `Syllabus` datatype, whose
  `courseTitle` is always present. A reply without `modules` (including the `{}` that
  geminiService.ts:46 gives for an empty reply), or a module without `topics`, throws at
  App.tsx:410 or 412; the `try`/`finally` at 406-416 has no `catch`, so nothing is published,
  and the model's `None` stands for that. The model returns `None` also for a reply without
  `courseTitle`, which the source imports as a course with an undefined title (App.tsx:409,
  415). The loading flag is not modelled.
- Curriculum.ImportSyllabus: `data` is the root captured when the import began (App.tsx:407,
  415). Changes published during the parse through a new course list, such as a course
  delete (App.tsx:442), are lost, as in the source. The sharing of course, module and topic
  objects between different lists is not modelled. So a change made in place through one
  list, such as a module pushed onto a course after that course was delete-filtered into a
  new list, is not seen through the other list, while in the source it is.
- Curriculum.UpdateTopic: the detail view's own copy of the topic (`setActiveTopic`,
  App.tsx:514) is view state outside `AppState` and is not modelled.
- The profile update (App.tsx:681) is not part of this model. It replaces the user field of
  a new root.
- React components, routing, charts, the modal and form state, expand and collapse, and
  styling are left out, and so is the resetting of form fields after a save.
- Urgency labels, a "strategic next step", task-progress rings and aggregation of task
  deadlines are left out because the source has no implementation of them.
