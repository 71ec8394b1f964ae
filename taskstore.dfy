/** The task store: the task list and the add form's drafts, and the three
    handlers that change them (add, toggle completion, delete). */
module TaskStore {
  import opened Text
  import opened Tasks
  import opened Sequences

  /** The task addTask appends for draft `text`, the selected category and
      priority, the due-date and notes drafts, the id `id` and the clock
      reading `now`. */
  function CreateTask(text: string, selectedCategory: string, priority: Priority,
                      dueDate: string, notes: string, id: int, now: int): (t: Task)
    ensures t.id == id && t.text == text && !t.completed && t.priority == priority
    ensures t.createdAt == now && t.lastModified == Some(now)
    ensures selectedCategory == AllCategories ==> t.category == Categories[0].name
    ensures selectedCategory != AllCategories ==> t.category == selectedCategory
    ensures t.color == ColorFor(t.category)
    ensures t.dueDate.None? <==> dueDate == ""
    ensures t.notes.None? <==> notes == ""
    ensures t.dueDate.Some? ==> t.dueDate.value == dueDate
    ensures t.notes.Some? ==> t.notes.value == notes
  {
    var category := if selectedCategory == AllCategories then Categories[0].name else selectedCategory;
    Task(id, text, false, ColorFor(category), category, priority,
         if dueDate == "" then None else Some(dueDate),
         if notes == "" then None else Some(notes),
         now, Some(now))
  }

  /** What addTask guarantees of every task it creates, and toggling and
      deleting keep. */
  ghost predicate WellFormed(t: Task) {
    && !IsBlank(t.text)
    && t.category != AllCategories
    && t.color == ColorFor(t.category)
    && t.dueDate != Some("")
    && t.notes != Some("")
    && t.lastModified.Some?
  }

  ghost predicate AllWellFormed(ts: seq<Task>) {
    forall i :: 0 <= i < |ts| ==> WellFormed(ts[i])
  }

  /** No two tasks share an id. The application draws ids from the clock and
      does not check this, so it is assumed where needed, never promised. */
  ghost predicate UniqueIds(ts: seq<Task>) {
    forall i, j :: 0 <= i < j < |ts| ==> ts[i].id != ts[j].id
  }

  lemma CreateTaskWellFormed(text: string, selectedCategory: string, priority: Priority,
                             dueDate: string, notes: string, id: int, now: int)
    requires !IsBlank(text)
    ensures WellFormed(CreateTask(text, selectedCategory, priority, dueDate, notes, id, now))
  {
  }

  /** One task as toggleTask's `map` callback leaves it. */
  function ToggleOne(t: Task, id: int, now: int): Task {
    if t.id == id then t.(completed := !t.completed, lastModified := Some(now)) else t
  }

  /** toggleTask(id): flip `completed` on every task whose id is `id`, stamping
      it with `now`; every other task, and the order, stay as they were. */
  function Toggle(ts: seq<Task>, id: int, now: int): (r: seq<Task>)
    ensures |r| == |ts|
    ensures forall i :: 0 <= i < |ts| ==> r[i].completed == (ts[i].completed != (ts[i].id == id))
    ensures forall i :: 0 <= i < |ts| && ts[i].id == id ==> r[i].lastModified == Some(now)
    ensures forall i :: 0 <= i < |ts| ==>
              r[i].(completed := ts[i].completed, lastModified := ts[i].lastModified) == ts[i]
    ensures forall i :: 0 <= i < |ts| && ts[i].id != id ==> r[i] == ts[i]
  {
    seq(|ts|, i requires 0 <= i < |ts| => ToggleOne(ts[i], id, now))
  }

  /** Toggling the same id twice restores every completion flag and changes
      nothing but the modification stamps. */
  lemma ToggleTwiceRestores(ts: seq<Task>, id: int, now1: int, now2: int)
    ensures var r := Toggle(Toggle(ts, id, now1), id, now2);
      && |r| == |ts|
      && (forall i :: 0 <= i < |ts| ==> r[i].completed == ts[i].completed)
      && (forall i :: 0 <= i < |ts| ==> r[i].(lastModified := ts[i].lastModified) == ts[i])
  {
  }

  /** Toggling an id no task has leaves the list as it was. */
  lemma ToggleUnknownId(ts: seq<Task>, id: int, now: int)
    requires forall i :: 0 <= i < |ts| ==> ts[i].id != id
    ensures Toggle(ts, id, now) == ts
  {
  }

  /** The test deleteTask's `filter` applies. */
  function IdIsNot(id: int): Task -> bool {
    (t: Task) => t.id != id
  }

  /** deleteTask(id): the tasks whose id is not `id`, in their original order. */
  function Delete(ts: seq<Task>, id: int): (r: seq<Task>)
    ensures IsSubseq(r, ts)
    ensures forall t | t in r :: t in ts && t.id != id
    ensures forall t | t in ts && t.id != id :: t in r
    ensures forall t {:trigger multiset(r)[t]} :: multiset(r)[t] == if t.id != id then multiset(ts)[t] else 0
  {
    FilterIsSubseq(ts, IdIsNot(id));
    FilterMembers(ts, IdIsNot(id));
    FilterCount(ts, IdIsNot(id));
    Filter(ts, IdIsNot(id))
  }

  /** Deleting an id no task has leaves the list as it was. */
  lemma DeleteUnknownId(ts: seq<Task>, id: int)
    requires forall i :: 0 <= i < |ts| ==> ts[i].id != id
    ensures Delete(ts, id) == ts
  {
    FilterKeepsAllIff(ts, IdIsNot(id));
  }

  /** With unique ids, deleting the id of the task at `i` removes exactly that
      task. */
  lemma DeleteRemovesOne(ts: seq<Task>, i: int)
    requires UniqueIds(ts) && 0 <= i < |ts|
    ensures Delete(ts, ts[i].id) == ts[..i] + ts[i + 1..]
  {
    var id, p := ts[i].id, IdIsNot(ts[i].id);
    assert ts == ts[..i] + [ts[i]] + ts[i + 1..];
    FilterConcat(ts[..i] + [ts[i]], ts[i + 1..], p);
    FilterConcat(ts[..i], [ts[i]], p);
    FilterKeepsAllIff(ts[..i], p);
    FilterKeepsAllIff(ts[i + 1..], p);
  }

  /** Dropping tasks keeps ids unique. */
  lemma {:induction false} SubseqKeepsUniqueIds(a: seq<Task>, b: seq<Task>)
    requires IsSubseq(a, b) && UniqueIds(b)
    ensures UniqueIds(a)
    decreases |b|
  {
    if b != [] {
      assert UniqueIds(b[1..]);
      if a != [] && a[0] == b[0] && IsSubseq(a[1..], b[1..]) {
        SubseqKeepsUniqueIds(a[1..], b[1..]);
        forall j | 0 < j < |a| ensures a[0].id != a[j].id {
          assert a[j] == a[1..][j - 1];
          SubseqMember(a[1..], b[1..], a[j]);
          var k :| 0 <= k < |b[1..]| && b[1..][k] == a[j];
          assert b[k + 1] == a[j];
        }
      } else {
        SubseqKeepsUniqueIds(a, b[1..]);
      }
    }
  }

  lemma {:induction false} SubseqMember(a: seq<Task>, b: seq<Task>, t: Task)
    requires IsSubseq(a, b) && t in a
    ensures t in b
    decreases |b|
  {
    if b != [] {
      if a != [] && a[0] == b[0] && IsSubseq(a[1..], b[1..]) {
        if t != a[0] {
          SubseqMember(a[1..], b[1..], t);
        }
      } else {
        SubseqMember(a, b[1..], t);
      }
    }
  }

  /** The three handlers keep ids unique, adding provided the new id is fresh. */
  lemma OperationsKeepUniqueIds(ts: seq<Task>, t: Task, id: int, now: int)
    requires UniqueIds(ts)
    ensures (forall i :: 0 <= i < |ts| ==> ts[i].id != t.id) ==> UniqueIds(ts + [t])
    ensures UniqueIds(Toggle(ts, id, now))
    ensures UniqueIds(Delete(ts, id))
  {
    SubseqKeepsUniqueIds(Delete(ts, id), ts);
  }

  /** The three handlers keep every task well formed, adding provided the
      draft text is not blank. */
  lemma OperationsKeepWellFormed(ts: seq<Task>, t: Task, id: int, now: int)
    requires AllWellFormed(ts)
    ensures WellFormed(t) ==> AllWellFormed(ts + [t])
    ensures AllWellFormed(Toggle(ts, id, now))
    ensures AllWellFormed(Delete(ts, id))
  {
    var r := Delete(ts, id);
    forall i | 0 <= i < |r| ensures WellFormed(r[i]) {
      assert r[i] in r;
    }
  }

  /** The tasks appear in the order they were created. */
  ghost predicate CreatedInOrder(ts: seq<Task>) {
    forall i, j :: 0 <= i < j < |ts| ==> ts[i].createdAt < ts[j].createdAt
  }

  /** Dropping tasks keeps the creation order. */
  lemma {:induction false} SubseqKeepsCreationOrder(a: seq<Task>, b: seq<Task>)
    requires IsSubseq(a, b) && CreatedInOrder(b)
    ensures CreatedInOrder(a)
    decreases |b|
  {
    if b != [] {
      assert CreatedInOrder(b[1..]);
      if a != [] && a[0] == b[0] && IsSubseq(a[1..], b[1..]) {
        SubseqKeepsCreationOrder(a[1..], b[1..]);
        forall j | 0 < j < |a| ensures a[0].createdAt < a[j].createdAt {
          assert a[j] == a[1..][j - 1];
          SubseqMember(a[1..], b[1..], a[j]);
          var k :| 0 <= k < |b[1..]| && b[1..][k] == a[j];
          assert b[k + 1] == a[j];
        }
      } else {
        SubseqKeepsCreationOrder(a, b[1..]);
      }
    }
  }

  /** The three handlers keep the creation order, adding provided the clock
      reads later than every earlier creation. */
  lemma OperationsKeepCreationOrder(ts: seq<Task>, t: Task, id: int, now: int)
    requires CreatedInOrder(ts)
    ensures (forall i :: 0 <= i < |ts| ==> ts[i].createdAt < t.createdAt) ==> CreatedInOrder(ts + [t])
    ensures CreatedInOrder(Toggle(ts, id, now))
    ensures CreatedInOrder(Delete(ts, id))
  {
    SubseqKeepsCreationOrder(Delete(ts, id), ts);
  }

  /** The state of the task list and of the add form. */
  class Store {
    var tasks: seq<Task>
    var newTask: string
    var selectedCategory: string
    var selectedPriority: Priority
    var dueDate: string
    var notes: string

    /** The initial state; `saved` is what local storage held under "tasks",
        already parsed, if anything. */
    constructor (saved: Option<seq<Task>>)
      ensures saved.Some? ==> tasks == saved.value
      ensures saved.None? ==> tasks == []
      ensures newTask == "" && dueDate == "" && notes == ""
      ensures selectedCategory == AllCategories && selectedPriority == Medium
    {
      tasks := if saved.Some? then saved.value else [];
      newTask := "";
      selectedCategory := AllCategories;
      selectedPriority := Medium;
      dueDate := "";
      notes := "";
    }

    /** addTask: a blank draft changes nothing; otherwise one task built from
        the drafts is appended after the unchanged earlier tasks and the text,
        due-date and notes drafts are cleared. */
    method AddTask(id: int, now: int)
      modifies this`tasks, this`newTask, this`dueDate, this`notes
      ensures IsBlank(old(newTask)) ==>
        tasks == old(tasks) && newTask == old(newTask) && dueDate == old(dueDate) && notes == old(notes)
      ensures !IsBlank(old(newTask)) ==>
        && tasks == old(tasks) + [CreateTask(old(newTask), selectedCategory, selectedPriority,
                                             old(dueDate), old(notes), id, now)]
        && newTask == "" && dueDate == "" && notes == ""
    {
      if !IsBlank(newTask) {
        var t := CreateTask(newTask, selectedCategory, selectedPriority, dueDate, notes, id, now);
        tasks := tasks + [t];
        newTask := "";
        dueDate := "";
        notes := "";
      }
    }

    /** toggleTask(id). */
    method ToggleTask(id: int, now: int)
      modifies this`tasks
      ensures tasks == Toggle(old(tasks), id, now)
    {
      tasks := Toggle(tasks, id, now);
    }

    /** deleteTask(id). */
    method DeleteTask(id: int)
      modifies this`tasks
      ensures tasks == Delete(old(tasks), id)
    {
      tasks := Delete(tasks, id);
    }
  }
}
