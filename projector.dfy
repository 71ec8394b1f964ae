/** The view projector: what the task list shows (the tasks that pass the
    search, category and completion filters, sorted by the chosen key) and the
    statistics and progress shown above it, which are over all tasks. */
module ViewProjector {
  import opened Text
  import opened Tasks
  import opened Sequences
  import opened TaskStore

  datatype SortBy = ByDueDate | ByPriority | ByCreatedAt
  datatype Direction = Asc | Desc

  /** The filter settings: the search box, the selected category (or the
      sentinel "All") and the `showCompleted` flag. The page never changes that
      flag from `true`; the model keeps it a parameter. */
  datatype ViewFilter = ViewFilter(searchQuery: string, selectedCategory: string, showCompleted: bool)

  /** The settings the page starts with, which filter nothing out. */
  const DefaultFilter := ViewFilter("", AllCategories, true)

  /** The text contains the query, ignoring case. */
  predicate MatchesSearch(t: Task, query: string) {
    Includes(Lower(t.text), Lower(query))
  }

  /** The three filter conditions, all of which must hold. */
  predicate Matches(t: Task, f: ViewFilter) {
    && MatchesSearch(t, f.searchQuery)
    && (f.selectedCategory == AllCategories || t.category == f.selectedCategory)
    && (f.showCompleted || !t.completed)
  }

  function Shown(f: ViewFilter): Task -> bool {
    (t: Task) => Matches(t, f)
  }

  /** `filteredTasks`: the tasks that pass the filter, in list order. */
  function FilteredTasks(ts: seq<Task>, f: ViewFilter): (r: seq<Task>)
    ensures IsSubseq(r, ts)
    ensures forall t | t in r :: t in ts && Matches(t, f)
    ensures forall t | t in ts && Matches(t, f) :: t in r
    ensures forall t {:trigger multiset(r)[t]} :: multiset(r)[t] == if Matches(t, f) then multiset(ts)[t] else 0
  {
    FilterIsSubseq(ts, Shown(f));
    FilterMembers(ts, Shown(f));
    FilterCount(ts, Shown(f));
    Filter(ts, Shown(f))
  }

  /** The search condition holds exactly when the lower-cased query occurs
      somewhere in the lower-cased text. */
  lemma MatchesSearchIff(t: Task, query: string)
    ensures MatchesSearch(t, query) <==> exists i :: OccursAt(Lower(t.text), Lower(query), i)
  {
    IncludesIff(Lower(t.text), Lower(query));
  }

  /** Filtering the filtered list again changes nothing. */
  lemma FilteredTasksIdempotent(ts: seq<Task>, f: ViewFilter)
    ensures FilteredTasks(FilteredTasks(ts, f), f) == FilteredTasks(ts, f)
  {
    FilterIdempotent(ts, Shown(f));
  }

  /** With an empty search, "All" categories and completed tasks shown, every
      task is listed. */
  lemma DefaultFilterShowsAll(ts: seq<Task>)
    ensures FilteredTasks(ts, DefaultFilter) == ts
  {
    forall i | 0 <= i < |ts| ensures Matches(ts[i], DefaultFilter) {
      IncludesEmpty(Lower(ts[i].text));
    }
    FilterKeepsAllIff(ts, Shown(DefaultFilter));
  }

  /** The due-date key: the parsed date, or 0 when there is none. `dateTime`
      stands for `new Date(d).getTime()`. */
  function DueTime(t: Task, dateTime: string -> int): int {
    match t.dueDate
    case Some(d) => if d != "" then dateTime(d) else 0
    case None => 0
  }

  /** The key the comparator subtracts. */
  function SortKey(t: Task, sortBy: SortBy, dateTime: string -> int): int {
    match sortBy
    case ByPriority => PriorityRank(t.priority)
    case ByDueDate => DueTime(t, dateTime)
    case ByCreatedAt => t.createdAt
  }

  /** The comparator as a rank: "asc" orders by the key, "desc" by its negation
      (the comparator's sign flipped). */
  function Rank(sortBy: SortBy, dir: Direction, dateTime: string -> int): Task -> int {
    (t: Task) => if dir == Desc then -SortKey(t, sortBy, dateTime) else SortKey(t, sortBy, dateTime)
  }

  /** `sortTasks`: a sorted copy; the input is a value and is left as it was. */
  function SortTasks(ts: seq<Task>, sortBy: SortBy, dir: Direction, dateTime: string -> int): (r: seq<Task>)
    ensures multiset(r) == multiset(ts)
    ensures dir == Asc ==> forall i, j :: 0 <= i < j < |r| ==> SortKey(r[i], sortBy, dateTime) <= SortKey(r[j], sortBy, dateTime)
    ensures dir == Desc ==> forall i, j :: 0 <= i < j < |r| ==> SortKey(r[i], sortBy, dateTime) >= SortKey(r[j], sortBy, dateTime)
  {
    var r := Sort(ts, Rank(sortBy, dir, dateTime));
    assert forall i, j :: 0 <= i < j < |r| ==> Rank(sortBy, dir, dateTime)(r[i]) <= Rank(sortBy, dir, dateTime)(r[j]);
    r
  }

  /** Tasks with equal keys keep their list order, and that fixes the result:
      any ordering sorted by the key that keeps ties in list order is this one,
      whatever stable algorithm produced it. */
  lemma SortTasksIsTheStableSort(ts: seq<Task>, r: seq<Task>, sortBy: SortBy, dir: Direction, dateTime: string -> int)
    ensures SameTies(SortTasks(ts, sortBy, dir, dateTime), ts, Rank(sortBy, dir, dateTime))
    ensures SortedBy(r, Rank(sortBy, dir, dateTime)) && SameTies(r, ts, Rank(sortBy, dir, dateTime))
            ==> r == SortTasks(ts, sortBy, dir, dateTime)
  {
    SortIsStable(ts, Rank(sortBy, dir, dateTime));
    if SortedBy(r, Rank(sortBy, dir, dateTime)) && SameTies(r, ts, Rank(sortBy, dir, dateTime)) {
      StableSortIsSort(ts, r, Rank(sortBy, dir, dateTime));
    }
  }

  /** When no two tasks share a key, "desc" lists exactly the reverse of "asc". */
  lemma DescReversesAsc(ts: seq<Task>, sortBy: SortBy, dateTime: string -> int)
    requires forall i, j :: 0 <= i < j < |ts| ==> SortKey(ts[i], sortBy, dateTime) != SortKey(ts[j], sortBy, dateTime)
    ensures SortTasks(ts, sortBy, Desc, dateTime) == Reverse(SortTasks(ts, sortBy, Asc, dateTime))
  {
    var up, down := Rank(sortBy, Asc, dateTime), Rank(sortBy, Desc, dateTime);
    assert DistinctRanks(ts, up);
    NegatedRankReverses(ts, up, down);
  }

  /** Tasks listed in the order they were created (as addTask appends them
      while the clock advances) are already in "asc" creation order, and
      "desc" lists them newest first. */
  lemma CreationOrderSort(ts: seq<Task>, dateTime: string -> int)
    requires CreatedInOrder(ts)
    ensures SortTasks(ts, ByCreatedAt, Asc, dateTime) == ts
    ensures SortTasks(ts, ByCreatedAt, Desc, dateTime) == Reverse(ts)
  {
    var up := Rank(ByCreatedAt, Asc, dateTime);
    assert SortedBy(ts, up);
    SortedIsFixed(ts, up);
    DescReversesAsc(ts, ByCreatedAt, dateTime);
  }

  /** `filteredAndSortedTasks`: the listed tasks, in display order. */
  function Visible(ts: seq<Task>, f: ViewFilter, sortBy: SortBy, dir: Direction, dateTime: string -> int): (r: seq<Task>)
    ensures multiset(r) == multiset(FilteredTasks(ts, f))
    ensures forall t | t in r :: t in ts && Matches(t, f)
    ensures forall t | t in ts && Matches(t, f) :: t in r
    ensures dir == Asc ==> forall i, j :: 0 <= i < j < |r| ==> SortKey(r[i], sortBy, dateTime) <= SortKey(r[j], sortBy, dateTime)
    ensures dir == Desc ==> forall i, j :: 0 <= i < j < |r| ==> SortKey(r[i], sortBy, dateTime) >= SortKey(r[j], sortBy, dateTime)
    ensures SameTies(r, FilteredTasks(ts, f), Rank(sortBy, dir, dateTime))
  {
    var shown := FilteredTasks(ts, f);
    var r := SortTasks(shown, sortBy, dir, dateTime);
    SortIsStable(shown, Rank(sortBy, dir, dateTime));
    SameElements(r, shown);
    r
  }

  datatype TaskStats = TaskStats(total: int, completed: int, pending: int, highPriority: int)

  predicate IsCompleted(t: Task) {
    t.completed
  }

  predicate IsHighPriority(t: Task) {
    t.priority == High
  }

  /** `completedTasks`: how many tasks are completed. */
  function CompletedCount(ts: seq<Task>): nat {
    |Filter(ts, IsCompleted)|
  }

  /** `getTaskStats`, over the whole, unfiltered list. */
  function GetTaskStats(ts: seq<Task>): (s: TaskStats)
    ensures s.total == |ts|
    ensures s.completed + s.pending == s.total
    ensures 0 <= s.completed <= s.total && 0 <= s.pending
    ensures 0 <= s.highPriority <= s.total
    ensures s.completed == s.total <==> forall i :: 0 <= i < |ts| ==> ts[i].completed
    ensures s.completed == 0 <==> forall i :: 0 <= i < |ts| ==> !ts[i].completed
    ensures s.highPriority == 0 <==> forall i :: 0 <= i < |ts| ==> ts[i].priority != High
  {
    FilterKeepsAllIff(ts, IsCompleted);
    FilterEmptyIff(ts, IsCompleted);
    FilterEmptyIff(ts, IsHighPriority);
    var completed := CompletedCount(ts);
    TaskStats(|ts|, completed, |ts| - completed, |Filter(ts, IsHighPriority)|)
  }

  /** `progress`: the completed share of all tasks, in percent; 0 for an empty list. */
  function Progress(ts: seq<Task>): (p: real)
    ensures 0.0 <= p <= 100.0
    ensures p == 100.0 <==> |ts| > 0 && forall i :: 0 <= i < |ts| ==> ts[i].completed
    ensures p == 0.0 <==> forall i :: 0 <= i < |ts| ==> !ts[i].completed
    ensures p * (|ts| as real) == 100.0 * (GetTaskStats(ts).completed as real)
  {
    var s := GetTaskStats(ts);
    if |ts| > 0 then
      var c, n := s.completed as real, |ts| as real;
      ShareBounds(c, n);
      c / n * 100.0
    else
      0.0
  }

  /** The share `c / n` of a positive whole, in percent, lies in [0, 100], is
      100 only for the whole and 0 only for nothing, and times `n` gives back
      `100 * c`. */
  lemma ShareBounds(c: real, n: real)
    requires 0.0 <= c <= n && n > 0.0
    ensures 0.0 <= c / n * 100.0 <= 100.0
    ensures c / n * 100.0 == 100.0 <==> c == n
    ensures c / n * 100.0 == 0.0 <==> c == 0.0
    ensures c / n * 100.0 * n == 100.0 * c
  {
    var q := c / n;
    assert q * n == c;
    assert (1.0 - q) * n == n - c;
    assert q * 100.0 * n == 100.0 * (q * n);
  }

  /** The statistics do not depend on the order of the list. */
  lemma StatsIgnoreOrder(a: seq<Task>, b: seq<Task>)
    requires multiset(a) == multiset(b)
    ensures GetTaskStats(a) == GetTaskStats(b)
  {
    assert |a| == |multiset(a)| == |multiset(b)| == |b|;
    FilterLengthOfPermutation(a, b, IsCompleted);
    FilterLengthOfPermutation(a, b, IsHighPriority);
  }

  /** Adding task `t` adds one to the total, and one to the completed or the
      high-priority count when `t` is completed or high priority. */
  lemma StatsAfterAdd(ts: seq<Task>, t: Task)
    ensures var s, s' := GetTaskStats(ts), GetTaskStats(ts + [t]);
      && s'.total == s.total + 1
      && s'.completed == s.completed + (if t.completed then 1 else 0)
      && s'.highPriority == s.highPriority + (if t.priority == High then 1 else 0)
  {
    FilterSnoc(ts, t, IsCompleted);
    FilterSnoc(ts, t, IsHighPriority);
  }

  /** With unique ids, toggling the task at `i` moves it between completed and
      pending and changes no other count. */
  lemma StatsAfterToggle(ts: seq<Task>, i: int, now: int)
    requires UniqueIds(ts) && 0 <= i < |ts|
    ensures var s, s' := GetTaskStats(ts), GetTaskStats(Toggle(ts, ts[i].id, now));
      && s'.total == s.total
      && s'.completed == s.completed + (if ts[i].completed then -1 else 1)
      && s'.highPriority == s.highPriority
  {
    var id := ts[i].id;
    var t' := ToggleOne(ts[i], id, now);
    assert ts == ts[..i] + [ts[i]] + ts[i + 1..];
    assert Toggle(ts, id, now) == ts[..i] + [t'] + ts[i + 1..];
    CountSplit(ts[..i], ts[i], ts[i + 1..]);
    CountSplit(ts[..i], t', ts[i + 1..]);
  }

  /** With unique ids, deleting the task at `i` takes it out of every count it
      was in. */
  lemma StatsAfterDelete(ts: seq<Task>, i: int)
    requires UniqueIds(ts) && 0 <= i < |ts|
    ensures var s, s' := GetTaskStats(ts), GetTaskStats(Delete(ts, ts[i].id));
      && s'.total == s.total - 1
      && s'.completed == s.completed - (if ts[i].completed then 1 else 0)
      && s'.highPriority == s.highPriority - (if ts[i].priority == High then 1 else 0)
  {
    DeleteRemovesOne(ts, i);
    assert ts == ts[..i] + [ts[i]] + ts[i + 1..];
    CountSplit(ts[..i], ts[i], ts[i + 1..]);
    FilterConcat(ts[..i], ts[i + 1..], IsCompleted);
    FilterConcat(ts[..i], ts[i + 1..], IsHighPriority);
  }

  lemma CountSplit(a: seq<Task>, t: Task, b: seq<Task>)
    ensures CompletedCount(a + [t] + b) == CompletedCount(a) + (if t.completed then 1 else 0) + CompletedCount(b)
    ensures |Filter(a + [t] + b, IsHighPriority)|
         == |Filter(a, IsHighPriority)| + (if t.priority == High then 1 else 0) + |Filter(b, IsHighPriority)|
  {
    FilterConcat(a + [t], b, IsCompleted);
    FilterSnoc(a, t, IsCompleted);
    FilterConcat(a + [t], b, IsHighPriority);
    FilterSnoc(a, t, IsHighPriority);
  }

  /** The draft "Buy milk" passes addTask's guard. */
  lemma BuyMilkIsNotBlank()
    ensures !IsBlank("Buy milk")
  {
    assert !IsWhiteSpace("Buy milk"[0]);
    assert TrimStart("Buy milk") == "Buy milk";
  }

  /** A list of one pending task, before and after it is ticked off. */
  lemma OneTaskStats(t: Task, later: int)
    requires !t.completed
    ensures GetTaskStats([t]) == TaskStats(1, 0, 1, if t.priority == High then 1 else 0)
    ensures GetTaskStats(Toggle([t], t.id, later)) == TaskStats(1, 1, 0, if t.priority == High then 1 else 0)
    ensures Progress(Toggle([t], t.id, later)) == 100.0
  {
    StatsAfterAdd([], t);
    assert [] + [t] == [t];
    StatsAfterToggle([t], 0, later);
    var done := Toggle([t], t.id, later);
    assert GetTaskStats(done).completed == GetTaskStats(done).total;
    assert forall i :: 0 <= i < |done| ==> done[i].completed;
  }

  /** A client of the store: a fresh page, one task added from a non-blank
      draft and then ticked off, shows one completed task and full progress. */
  method AddThenComplete(text: string, category: string, priority: Priority, id: int, now: int, later: int)
    returns (added: TaskStats, stats: TaskStats, progress: real)
    requires !IsBlank(text)
    ensures added == TaskStats(1, 0, 1, if priority == High then 1 else 0)
    ensures stats == TaskStats(1, 1, 0, if priority == High then 1 else 0)
    ensures progress == 100.0
  {
    var store := new Store(None);
    store.newTask := text;
    store.selectedCategory := category;
    store.selectedPriority := priority;
    assert store.tasks == [] && store.dueDate == "" && store.notes == "";
    store.AddTask(id, now);
    ghost var t := CreateTask(text, category, priority, "", "", id, now);
    assert store.tasks == [t];
    OneTaskStats(t, later);
    added := GetTaskStats(store.tasks);
    store.ToggleTask(id, later);
    stats := GetTaskStats(store.tasks);
    progress := Progress(store.tasks);
  }

  /** Adding "Buy milk" (Personal, Low) on a fresh page shows one pending
      task; ticking it off shows one completed task and full progress. */
  method BuyMilkThroughStore(id: int, now: int, later: int)
    returns (added: TaskStats, done: TaskStats, progress: real)
    ensures added == TaskStats(1, 0, 1, 0)
    ensures done == TaskStats(1, 1, 0, 0)
    ensures progress == 100.0
  {
    BuyMilkIsNotBlank();
    added, done, progress := AddThenComplete("Buy milk", "Personal", Low, id, now, later);
  }
}
