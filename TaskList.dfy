/** The values held by the task-list screen and the pure computations its
    handlers perform on them: the array spread of `addTask`, the `map` of
    `editTask`, the `filter` of `deleteTasks`, the object spread of
    `toggleCheckBox`, the `some` that shows the delete button and the
    `find` of the save-edit handler. */
module TaskList {

  datatype Option<T> = None | Some(value: T)

  /** One row of the list. `isChecked` is set to false on creation and
      never read or written again; selection lives in a separate map. */
  datatype Task = Task(id: string, text: string, isChecked: bool)

  /** The selection map `selectedTasks`: task id to "marked for deletion". */
  type Selection = map<string, bool>

  /** The ids of the list, in list order. */
  function Ids(tasks: seq<Task>): seq<string>
  {
    seq(|tasks|, i requires 0 <= i < |tasks| => tasks[i].id)
  }

  /** No two tasks of the list share an id. */
  predicate UniqueIds(tasks: seq<Task>)
  {
    forall i, j :: 0 <= i < j < |tasks| ==> tasks[i].id != tasks[j].id
  }

  // ---------------------------------------------------------------- add

  /** The task `addTask` creates from the draft: raw text, not checked. */
  function NewTask(id: string, draft: string): (t: Task)
    ensures t.id == id && t.text == draft && !t.isChecked
  {
    Task(id, draft, false)
  }

  /** Appending a task whose id is not in use keeps the ids unique. */
  lemma AppendKeepsUniqueIds(tasks: seq<Task>, id: string, draft: string)
    requires UniqueIds(tasks) && id !in Ids(tasks)
    ensures UniqueIds(tasks + [NewTask(id, draft)])
  {
    var r := tasks + [NewTask(id, draft)];
    forall i, j | 0 <= i < j < |r| ensures r[i].id != r[j].id {
      if j == |tasks| {
        assert Ids(tasks)[i] == r[i].id;
      }
    }
  }

  // --------------------------------------------------------------- edit

  /** `tasks.map(t => t.id === id ? {...t, text: newText} : t)`: the list
      keeps its length and its ids; every task with that id gets the new
      text and keeps its other fields, every other task is untouched. */
  function EditTask(tasks: seq<Task>, id: string, newText: string): (r: seq<Task>)
    ensures |r| == |tasks| && Ids(r) == Ids(tasks)
    ensures forall i :: 0 <= i < |tasks| && tasks[i].id == id ==> r[i] == tasks[i].(text := newText)
    ensures forall i :: 0 <= i < |tasks| && tasks[i].id != id ==> r[i] == tasks[i]
  {
    if tasks == [] then []
    else
      var t := tasks[0];
      var rest := EditTask(tasks[1..], id, newText);
      var r := [if t.id == id then t.(text := newText) else t] + rest;
      assert forall i :: 1 <= i < |tasks| ==> r[i] == rest[i - 1];
      r
  }

  /** Editing never changes which ids are present, so uniqueness is kept. */
  lemma EditKeepsUniqueIds(tasks: seq<Task>, id: string, newText: string)
    requires UniqueIds(tasks)
    ensures UniqueIds(EditTask(tasks, id, newText))
  {
  }

  /** Writing back the text a task already has leaves a list with unique
      ids exactly as it was (only that task carries the id). */
  lemma EditSameTextIsIdentity(tasks: seq<Task>, k: nat)
    requires UniqueIds(tasks) && k < |tasks|
    ensures EditTask(tasks, tasks[k].id, tasks[k].text) == tasks
  {
  }

  // ---------------------------------------------------------- selection

  /** `selectedTasks[id]` as a condition: a missing entry reads as false. */
  predicate Selected(sel: Selection, id: string)
  {
    id in sel && sel[id]
  }

  /** `{...selectedTasks, [id]: !selectedTasks[id]}`: the entry for `id`
      is present and holds the negation of what the checkbox showed;
      every other entry, present or absent, is as it was. */
  function Toggle(sel: Selection, id: string): (r: Selection)
    ensures r.Keys == sel.Keys + {id}
    ensures r[id] == !Selected(sel, id)
    ensures forall k :: k in sel && k != id ==> r[k] == sel[k]
  {
    sel[id := !Selected(sel, id)]
  }

  /** Toggling twice restores the value every checkbox shows, and restores
      the map itself when it already had an entry for `id`. */
  lemma ToggleTwice(sel: Selection, id: string)
    ensures forall k :: Selected(Toggle(Toggle(sel, id), id), k) == Selected(sel, k)
    ensures id in sel ==> Toggle(Toggle(sel, id), id) == sel
    ensures id !in sel ==> Toggle(Toggle(sel, id), id) == sel[id := false]
  {
  }

  /** `Object.values(selectedTasks).some(isChecked => isChecked)`: some
      entry of the map is true, i.e. some id is selected. */
  function AnySelected(sel: Selection): (r: bool)
    ensures r <==> exists id :: Selected(sel, id)
  {
    if true in sel.Values then
      var id :| id in sel && sel[id] == true;
      assert Selected(sel, id);
      true
    else
      false
  }

  // ------------------------------------------------------------- delete

  /** `b` contains the elements of `a` in the same order, possibly with
      others in between. */
  predicate IsSubsequence(a: seq<Task>, b: seq<Task>)
    decreases |b|
  {
    a == [] ||
    (b != [] && ((a[0] == b[0] && IsSubsequence(a[1..], b[1..])) || IsSubsequence(a, b[1..])))
  }

  /** `tasks.filter(t => !selectedTasks[t.id])`: what is kept is an
      in-order subsequence of the list. */
  function KeepUnselected(tasks: seq<Task>, sel: Selection): (r: seq<Task>)
    ensures IsSubsequence(r, tasks)
  {
    if tasks == [] then []
    else
      var rest := KeepUnselected(tasks[1..], sel);
      if Selected(sel, tasks[0].id) then rest
      else
        var r := [tasks[0]] + rest;
        assert r[0] == tasks[0] && r[1..] == rest;
        r
  }

  /** The filter keeps exactly the unselected tasks: each task occurs in
      the result as often as in the list when its id is not selected, and
      not at all when it is. */
  lemma {:induction false} KeepUnselectedCounts(tasks: seq<Task>, sel: Selection)
    ensures forall t ::
      multiset(KeepUnselected(tasks, sel))[t] == (if Selected(sel, t.id) then 0 else multiset(tasks)[t])
    ensures forall t :: t in KeepUnselected(tasks, sel) <==> t in tasks && !Selected(sel, t.id)
  {
    if tasks != [] {
      assert tasks == [tasks[0]] + tasks[1..];
      KeepUnselectedCounts(tasks[1..], sel);
    }
  }

  /** The filter works piecewise: filtering a concatenation concatenates
      the filtered parts, so the relative order of the kept tasks is the
      order they had in the list. */
  lemma {:induction false} KeepUnselectedAppend(a: seq<Task>, b: seq<Task>, sel: Selection)
    ensures KeepUnselected(a + b, sel) == KeepUnselected(a, sel) + KeepUnselected(b, sel)
  {
    if a != [] {
      var ab := a + b;
      assert ab[0] == a[0] && ab[1..] == a[1..] + b;
      KeepUnselectedAppend(a[1..], b, sel);
      var ka, kb := KeepUnselected(a[1..], sel), KeepUnselected(b, sel);
      assert KeepUnselected(ab, sel) == (if Selected(sel, a[0].id) then [] else [a[0]]) + KeepUnselected(ab[1..], sel);
      assert KeepUnselected(a, sel) == (if Selected(sel, a[0].id) then [] else [a[0]]) + ka;
    } else {
      assert a + b == b;
    }
  }

  /** Uniqueness of a list with a head: the tail is unique and no task of
      the tail shares the head's id. */
  lemma UniqueIdsCons(t: Task, s: seq<Task>)
    ensures UniqueIds([t] + s) <==> UniqueIds(s) && forall u :: u in s ==> u.id != t.id
  {
    var r := [t] + s;
    assert r[0] == t;
    assert forall i :: 0 < i < |r| ==> r[i] == s[i - 1];
    if UniqueIds(r) {
      forall i, j | 0 <= i < j < |s| ensures s[i].id != s[j].id {
        assert r[i + 1] == s[i] && r[j + 1] == s[j];
      }
      forall u | u in s ensures u.id != t.id {
        var m :| 0 <= m < |s| && s[m] == u;
        assert r[m + 1] == u;
      }
    }
    if UniqueIds(s) && forall u :: u in s ==> u.id != t.id {
      forall i, j | 0 <= i < j < |r| ensures r[i].id != r[j].id {
        assert s[j - 1] in s;
      }
    }
  }

  /** Deleting keeps the ids unique: every kept task comes from the list,
      so no id can appear twice among them. */
  lemma {:induction false} KeepUnselectedKeepsUniqueIds(tasks: seq<Task>, sel: Selection)
    requires UniqueIds(tasks)
    ensures UniqueIds(KeepUnselected(tasks, sel))
  {
    if tasks != [] {
      assert tasks == [tasks[0]] + tasks[1..];
      UniqueIdsCons(tasks[0], tasks[1..]);
      KeepUnselectedKeepsUniqueIds(tasks[1..], sel);
      var rest := KeepUnselected(tasks[1..], sel);
      if !Selected(sel, tasks[0].id) {
        KeepUnselectedCounts(tasks[1..], sel);
        UniqueIdsCons(tasks[0], rest);
      }
    }
  }

  // --------------------------------------------------------------- find

  /** `tasks.find(t => t.text === text)`, as the index of the element it
      returns: the first task with that text, or None (JavaScript's
      `undefined`) when there is none. */
  function FindByText(tasks: seq<Task>, text: string): (r: Option<nat>)
    ensures r.None? <==> forall i :: 0 <= i < |tasks| ==> tasks[i].text != text
    ensures r.Some? ==>
      (r.value < |tasks| && tasks[r.value].text == text
       && forall j :: 0 <= j < r.value ==> tasks[j].text != text)
  {
    if tasks == [] then None
    else if tasks[0].text == text then Some(0)
    else
      match FindByText(tasks[1..], text)
      case None =>
        assert forall i :: 1 <= i < |tasks| ==> tasks[i] == tasks[1..][i - 1];
        None
      case Some(k) =>
        assert forall i :: 1 <= i <= k + 1 ==> tasks[i] == tasks[1..][i - 1];
        Some(k + 1)
  }
}
