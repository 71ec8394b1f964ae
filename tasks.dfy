/** The task record and the fixed tables of the task list: the categories with
    their colours, the fallback colour classes and the three priorities. */
module Tasks {

  datatype Option<T> = None | Some(value: T)

  /** The three priorities the priority picker offers. */
  datatype Priority = High | Medium | Low

  /** The weight the priority sort uses: High 3, Medium 2, Low 1. */
  function PriorityRank(p: Priority): (r: int)
    ensures 1 <= r <= 3
    ensures p == High <==> r == 3
    ensures p == Low <==> r == 1
  {
    match p
    case High => 3
    case Medium => 2
    case Low => 1
  }

  /** One to-do item. `createdAt` and `lastModified` are the instants the
      application stores as ISO-8601 strings, here as milliseconds since the
      epoch; `dueDate` is the date string the date picker produced. */
  datatype Task = Task(
    id: int,
    text: string,
    completed: bool,
    color: string,
    category: string,
    priority: Priority,
    dueDate: Option<string>,
    notes: Option<string>,
    createdAt: int,
    lastModified: Option<int>)

  datatype Category = Category(name: string, color: string)

  const Categories: seq<Category> := [
    Category("Work", "bg-blue-100"),
    Category("Personal", "bg-green-100"),
    Category("Shopping", "bg-yellow-100"),
    Category("Health", "bg-red-100"),
    Category("Education", "bg-purple-100")
  ]

  const ColorClasses: seq<string> := [
    "bg-red-100", "bg-blue-100", "bg-green-100", "bg-yellow-100",
    "bg-purple-100", "bg-pink-100", "bg-indigo-100", "bg-teal-100"
  ]

  /** The category filter's sentinel for "every category". */
  const AllCategories: string := "All"

  /** `categories.find(c => c.name === name)`: the first category so named. */
  function FindCategory(cs: seq<Category>, name: string): (r: Option<Category>)
    ensures r.Some? ==> r.value in cs && r.value.name == name
    ensures r.None? ==> forall i :: 0 <= i < |cs| ==> cs[i].name != name
  {
    if cs == [] then None
    else if cs[0].name == name then Some(cs[0])
    else FindCategory(cs[1..], name)
  }

  /** `categories.find(...)?.color || colorClasses[0]`: the colour of the named
      category, or the first colour class when there is no such category (or
      its colour were empty). */
  function ColorFor(name: string): string {
    match FindCategory(Categories, name)
    case Some(c) => if c.color != "" then c.color else ColorClasses[0]
    case None => ColorClasses[0]
  }

  /** A listed category gets its own colour; any other name gets "bg-red-100". */
  lemma ColorForIsCategoryColor(name: string)
    ensures forall i :: 0 <= i < |Categories| && Categories[i].name == name ==> ColorFor(name) == Categories[i].color
    ensures (forall i :: 0 <= i < |Categories| ==> Categories[i].name != name) ==> ColorFor(name) == "bg-red-100"
  {
    forall i | 0 <= i < |Categories| && Categories[i].name == name
      ensures ColorFor(name) == Categories[i].color
    {
      assert forall j :: 0 <= j < i ==> Categories[j].name != Categories[i].name;
      FindFirst(Categories, name, i);
    }
  }

  /** `find` returns the first entry with the name. */
  lemma {:induction false} FindFirst(cs: seq<Category>, name: string, i: int)
    requires 0 <= i < |cs| && cs[i].name == name
    requires forall j :: 0 <= j < i ==> cs[j].name != name
    ensures FindCategory(cs, name) == Some(cs[i])
  {
    if i > 0 {
      FindFirst(cs[1..], name, i - 1);
    }
  }
}
