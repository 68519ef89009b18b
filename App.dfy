/** The `App` component: its four state cells and the handlers that
    overwrite them. Each handler runs to completion before the next event,
    so the setters of one handler are applied in order. */
module TaskApp {
  import opened TaskList
  import JsString

  class App {
    /** Whether the edit dialog is shown. */
    var modalVisible: bool
    /** The task list, in insertion order. */
    var task: seq<Task>
    /** The draft: the text field of the input bar, shared with the dialog. */
    var taskText: string
    /** Checkbox state, by task id. */
    var selectedTasks: Selection

    /** Ids in the list are unique. This rests on an assumption: the clock
        never repeats an id that is in use. */
    ghost predicate Valid()
      reads this
    {
      UniqueIds(task)
    }

    /** The initial state of the four cells. */
    constructor ()
      ensures Valid()
      ensures !modalVisible && task == [] && taskText == "" && selectedTasks == map[]
    {
      modalVisible := false;
      task := [];
      taskText := "";
      selectedTasks := map[];
    }

    /** `onChangeText={setTaskText}` of the input bar and of the dialog. */
    method SetTaskText(text: string)
      requires Valid()
      modifies this`taskText
      ensures Valid()
      ensures taskText == text
    {
      taskText := text;
    }

    /** `addTask`. `freshId` stands for `Date.now().toString()`. A blank
        draft changes nothing; otherwise the raw draft is appended as an
        unchecked task and the draft is cleared. */
    method AddTask(freshId: string)
      requires Valid() && freshId !in Ids(task)
      modifies this`task, this`taskText
      ensures Valid()
      ensures JsString.Trim(old(taskText)) == [] ==> task == old(task) && taskText == old(taskText)
      ensures JsString.Trim(old(taskText)) != [] ==>
        task == old(task) + [NewTask(freshId, old(taskText))] && taskText == ""
      ensures task == old(task) <==> JsString.IsBlank(old(taskText))
    {
      if JsString.Trim(taskText) != [] {
        AppendKeepsUniqueIds(task, freshId, taskText);
        task := task + [NewTask(freshId, taskText)];
        taskText := "";
        assert |task| == |old(task)| + 1;
      }
    }

    /** `editTask(id, newText)`: the mapped list replaces the old one. */
    method EditTask(id: string, newText: string)
      requires Valid()
      modifies this`task
      ensures Valid()
      ensures task == TaskList.EditTask(old(task), id, newText)
    {
      EditKeepsUniqueIds(task, id, newText);
      task := TaskList.EditTask(task, id, newText);
    }

    /** `deleteTasks`: keep the unselected tasks, then empty the selection,
        which hides the delete button. */
    method DeleteTasks()
      requires Valid()
      modifies this`task, this`selectedTasks
      ensures Valid()
      ensures task == KeepUnselected(old(task), old(selectedTasks))
      ensures selectedTasks == map[] && !ShowDeleteButton()
    {
      KeepUnselectedKeepsUniqueIds(task, selectedTasks);
      task := KeepUnselected(task, selectedTasks);
      selectedTasks := map[];
    }

    /** `toggleCheckBox(id)`. */
    method ToggleCheckBox(id: string)
      requires Valid()
      modifies this`selectedTasks
      ensures Valid()
      ensures selectedTasks == Toggle(old(selectedTasks), id)
    {
      selectedTasks := Toggle(selectedTasks, id);
    }

    /** The pencil button of a row: copy the row's text into the draft and
        open the dialog. Only the text is remembered, not the id. While
        the draft is left as it is, some task has that text. */
    method BeginEdit(item: Task)
      requires Valid()
      modifies this`taskText, this`modalVisible
      ensures Valid()
      ensures taskText == item.text && modalVisible
      ensures item in task ==> FindByText(task, taskText).Some?
    {
      taskText := item.text;
      modalVisible := true;
    }

    /** `onRequestClose` of the dialog: flips the flag, keeps the draft. */
    method Dismiss()
      requires Valid()
      modifies this`modalVisible
      ensures Valid()
      ensures modalVisible == !old(modalVisible)
    {
      modalVisible := !modalVisible;
    }

    /** The save button of the dialog. `find` looks up the first task whose
        text equals the draft. With no such task, `.id` of `undefined`
        throws before any setter runs (`ok` is false) and nothing changes.
        Otherwise that task's text is overwritten with the draft, which is
        the text it already has, so the list is unchanged; the flag is
        flipped and the draft cleared. */
    method SaveEdit() returns (ok: bool)
      requires Valid()
      modifies this`task, this`modalVisible, this`taskText
      ensures Valid()
      ensures ok <==> exists t :: t in old(task) && t.text == old(taskText)
      ensures task == old(task)
      ensures ok ==> modalVisible == !old(modalVisible) && taskText == ""
      ensures !ok ==> modalVisible == old(modalVisible) && taskText == old(taskText)
    {
      match FindByText(task, taskText)
      case None =>
        ok := false;
      case Some(k) =>
        EditSameTextIsIdentity(task, k);
        EditTask(task[k].id, taskText);
        modalVisible := !modalVisible;
        taskText := "";
        ok := true;
    }

    /** The "no tasks" placeholder is rendered exactly when the list is empty. */
    function ShowPlaceholder(): (r: bool)
      reads this
      ensures r <==> task == []
    {
      |task| == 0
    }

    /** The delete button is rendered exactly when some id is selected. */
    function ShowDeleteButton(): (r: bool)
      reads this
      ensures r <==> exists id :: Selected(selectedTasks, id)
    {
      AnySelected(selectedTasks)
    }

    /** `selectedTasks[item.id] || false`: what the row's checkbox shows.
        A row without an entry shows unchecked; a row with an entry shows
        the entry's value. */
    function CheckBoxValue(id: string): (r: bool)
      reads this
      ensures id !in selectedTasks ==> !r
      ensures id in selectedTasks ==> r == selectedTasks[id]
    {
      Selected(selectedTasks, id)
    }
  }

  /** Toggling the same checkbox twice through the component restores what
      every checkbox shows. */
  method ToggleTwiceRestoresCheckBoxes(app: App, id: string)
    requires app.Valid()
    modifies app`selectedTasks
    ensures forall k :: app.CheckBoxValue(k) == old(app.CheckBoxValue(k))
  {
    ToggleTwice(app.selectedTasks, id);
    app.ToggleCheckBox(id);
    app.ToggleCheckBox(id);
  }

  /** Add a task (say "Buy milk"), try to add a blank draft (say "  "),
      select the task and delete it: the list is empty again. */
  method ScenarioAddSelectDelete(text: string, blank: string, id1: string, id2: string)
    requires !JsString.IsBlank(text) && JsString.IsBlank(blank)
  {
    var app := new App();
    app.SetTaskText(text);
    app.AddTask(id1);
    assert app.task == [Task(id1, text, false)];
    app.SetTaskText(blank);
    assert Ids(app.task) == [id1];
    if id2 != id1 {
      app.AddTask(id2);
      assert app.task == [Task(id1, text, false)];
    }
    app.ToggleCheckBox(id1);
    assert Selected(app.selectedTasks, id1);
    assert app.ShowDeleteButton();
    app.DeleteTasks();
    assert app.ShowPlaceholder() && !app.ShowDeleteButton();
  }

  /** Two tasks share a text (say "Call mom"). Opening the second one and
      typing a different text (say "Call mother") makes save fail, since
      no task has the new text; saving the unchanged draft succeeds and
      changes nothing. */
  method ScenarioEditByText(text: string, edited: string)
    requires !JsString.IsBlank(text) && edited != text
  {
    var app := new App();
    app.SetTaskText(text);
    app.AddTask("1");
    app.SetTaskText(text);
    assert Ids(app.task) == ["1"];
    app.AddTask("2");
    assert app.task == [Task("1", text, false), Task("2", text, false)];
    var second := app.task[1];
    app.BeginEdit(second);
    app.SetTaskText(edited);
    var ok := app.SaveEdit();
    assert !ok;
    app.BeginEdit(second);
    ok := app.SaveEdit();
    assert ok && app.task[1].text == text && !app.modalVisible;
  }
}
