/**
 * The interactive menus: the one-level flattening of a task list into
 * selectable items, and the labels shown for items, task lists and projects.
 */
module Interactive {
  import opened Decimal
  import opened Entities

  /** A selectable task; `isSub` marks a direct sub-task of the task listed before it. */
  datatype TaskItem = TaskItem(task: Task, isSub: bool)

  /** The items for the direct sub-tasks of one task. */
  function SubItems(subTasks: seq<Task>): (r: seq<TaskItem>)
    ensures |r| == |subTasks|
    ensures forall j :: 0 <= j < |subTasks| ==> r[j] == TaskItem(subTasks[j], true)
  {
    seq(|subTasks|, j requires 0 <= j < |subTasks| => TaskItem(subTasks[j], true))
  }

  /** A task followed by its direct sub-tasks. */
  function Group(t: Task): seq<TaskItem> {
    [TaskItem(t, false)] + SubItems(t.subTasks)
  }

  function Flatten(tasks: seq<Task>): seq<TaskItem> {
    if tasks == [] then [] else Flatten(tasks[..|tasks| - 1]) + Group(tasks[|tasks| - 1])
  }

  /** The number of items a task list flattens to: each task and its direct sub-tasks. */
  function FlatSize(tasks: seq<Task>): nat {
    if tasks == [] then 0 else FlatSize(tasks[..|tasks| - 1]) + 1 + |tasks[|tasks| - 1].subTasks|
  }

  /** `flatten_tasks`: push each task, then each of its direct sub-tasks. */
  method FlattenTasks(taskList: seq<Task>) returns (items: seq<TaskItem>)
    ensures items == Flatten(taskList)
    ensures |items| == FlatSize(taskList)
  {
    items := [];
    var i := 0;
    while i < |taskList|
      invariant 0 <= i <= |taskList|
      invariant items == Flatten(taskList[..i])
      invariant |items| == FlatSize(taskList[..i])
    {
      var t := taskList[i];
      ghost var before := items;
      items := items + [TaskItem(t, false)];
      var j := 0;
      while j < |t.subTasks|
        invariant 0 <= j <= |t.subTasks|
        invariant items == before + [TaskItem(t, false)] + SubItems(t.subTasks[..j])
      {
        items := items + [TaskItem(t.subTasks[j], true)];
        j := j + 1;
      }
      assert t.subTasks[..j] == t.subTasks;
      assert taskList[..i + 1][..i] == taskList[..i];
      i := i + 1;
    }
    assert taskList[..i] == taskList;
  }

  lemma {:induction false} FlattenAppend(a: seq<Task>, b: seq<Task>)
    ensures Flatten(a + b) == Flatten(a) + Flatten(b)
    decreases |b|
  {
    if b == [] {
      assert a + b == a;
    } else {
      var init, last := b[..|b| - 1], b[|b| - 1];
      var ab := a + b;
      assert ab[..|ab| - 1] == a + init;
      assert ab[|ab| - 1] == last;
      assert Flatten(ab) == Flatten(a + init) + Group(last);
      assert Flatten(b) == Flatten(init) + Group(last);
      FlattenAppend(a, init);
    }
  }

  lemma {:induction false} FlattenSize(tasks: seq<Task>)
    ensures |Flatten(tasks)| == FlatSize(tasks)
  {
    if tasks != [] {
      FlattenSize(tasks[..|tasks| - 1]);
    }
  }

  /**
   * Task `i` is listed at position `FlatSize(tasks[..i])` as a top-level
   * item and is followed directly by its sub-tasks, in order, as sub-items.
   */
  lemma FlattenLayout(tasks: seq<Task>, i: nat)
    requires i < |tasks|
    ensures var at := FlatSize(tasks[..i]);
      var items := Flatten(tasks);
      && at + |tasks[i].subTasks| < |items|
      && items[at] == TaskItem(tasks[i], false)
      && forall j :: 0 <= j < |tasks[i].subTasks| ==> items[at + 1 + j] == TaskItem(tasks[i].subTasks[j], true)
  {
    var before, t, after := tasks[..i], tasks[i], tasks[i + 1..];
    assert tasks == (before + [t]) + after;
    assert [t][..0] == [];
    assert Flatten([t]) == Group(t);
    FlattenAppend(before, [t]);
    FlattenAppend(before + [t], after);
    FlattenSize(before);
    var items := Flatten(tasks);
    assert items == Flatten(before) + Group(t) + Flatten(after);
    var at := FlatSize(before);
    assert items[at..at + |Group(t)|] == Group(t);
  }

  /**
   * Only one level is flattened: every item is a listed task (as a top-level
   * item) or a direct sub-task of one (as a sub-item); deeper sub-tasks stay
   * inside their parent.
   */
  lemma {:induction false} FlattenOneLevel(tasks: seq<Task>, k: nat)
    requires k < |Flatten(tasks)|
    ensures var item := Flatten(tasks)[k];
      && (!item.isSub ==> item.task in tasks)
      && (item.isSub ==> exists i :: 0 <= i < |tasks| && item.task in tasks[i].subTasks)
  {
    var prefix := tasks[..|tasks| - 1];
    var last := tasks[|tasks| - 1];
    FlattenSize(prefix);
    var item := Flatten(tasks)[k];
    if k < |Flatten(prefix)| {
      FlattenOneLevel(prefix, k);
      assert item == Flatten(prefix)[k];
      if item.isSub {
        var i :| 0 <= i < |prefix| && item.task in prefix[i].subTasks;
        assert tasks[i] == prefix[i];
      }
    } else {
      var j := k - |Flatten(prefix)|;
      assert item == Group(last)[j];
      if j > 0 {
        assert item == TaskItem(last.subTasks[j - 1], true);
        assert item.task in tasks[|tasks| - 1].subTasks;
      }
    }
  }

  /** The number shown between `name (` and the closing words reads back as the count it renders. */
  lemma CountInLabel(name: string, n: nat, closing: string)
    ensures var text := name + " (" + NatToString(n) + closing;
      && |name| + 2 + |NatToString(n)| + |closing| == |text|
      && text[|name|..|name| + 2] == " ("
      && |name| + 2 < |text| - |closing|
      && (text[|name| + 2] == '0' ==> |text| - |closing| == |name| + 3)
      && AllDigits(text[|name| + 2..|text| - |closing|])
      && DecimalValue(text[|name| + 2..|text| - |closing|]) == n
  {
    var text := name + " (" + NatToString(n) + closing;
    assert text[|name| + 2..|text| - |closing|] == NatToString(n);
    assert text[|name|..|name| + 2] == " (";
    DecimalRoundTrip(n);
  }

  /**
   * The menu text of an item: a sub-task's name after a tab and a space; a
   * task's name, then its number of direct sub-tasks.
   */
  function TaskItemLabel(item: TaskItem): (text: string)
    ensures item.isSub ==> |text| >= 2 && text[..2] == "\t " && text[2..] == item.task.name
    ensures !item.isSub ==>
      && |item.task.name| + 2 + 11 <= |text|
      && text[..|item.task.name|] == item.task.name
      && text[|item.task.name|..|item.task.name| + 2] == " ("
      && |item.task.name| + 2 < |text| - 11
      && (text[|item.task.name| + 2] == '0' ==> |text| - 11 == |item.task.name| + 3)
      && text[|text| - 11..] == " sub tasks)"
      && AllDigits(text[|item.task.name| + 2..|text| - 11])
      && DecimalValue(text[|item.task.name| + 2..|text| - 11]) == |item.task.subTasks|
  {
    if item.isSub then "\t " + item.task.name
    else
      var text := item.task.name + " (" + NatToString(|item.task.subTasks|) + " sub tasks)";
      CountInLabel(item.task.name, |item.task.subTasks|, " sub tasks)");
      text
  }

  /** The menu text of a task list: its name, then its number of uncompleted tasks. */
  function TaskListLabel(list: TaskList): (text: string)
    ensures |list.name| + 2 + 7 <= |text|
    ensures text[..|list.name|] == list.name
    ensures text[|list.name|..|list.name| + 2] == " ("
    ensures |list.name| + 2 < |text| - 7
    ensures text[|list.name| + 2] == '0' ==> |text| - 7 == |list.name| + 3
    ensures text[|text| - 7..] == " tasks)"
    ensures AllDigits(text[|list.name| + 2..|text| - 7])
    ensures DecimalValue(text[|list.name| + 2..|text| - 7]) == list.uncompletedCount
  {
    var text := list.name + " (" + NatToString(list.uncompletedCount) + " tasks)";
    CountInLabel(list.name, list.uncompletedCount, " tasks)");
    text
  }

  /** The menu text of a project: its name alone. */
  function ProjectLabel(project: Project): (text: string)
    ensures text == project.name
  {
    project.name
  }
}
