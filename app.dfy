/**
 * The application state: a quit flag and a cursor over the 24 fixed task
 * names, driven by key handlers (src/main.rs:44-84).
 */
module Application {
  import opened ListCursor

  /** The fixed task list the application starts with. */
  const Tasks: seq<string> := [
    "Item1", "Item2", "Item3", "Item4", "Item5", "Item6", "Item7", "Item8", "Item9", "Item10",
    "Item11", "Item12", "Item13", "Item14", "Item15", "Item16", "Item17", "Item18", "Item19",
    "Item20", "Item21", "Item22", "Item23", "Item24"
  ]

  /** What of the application state its handlers change: the quit flag and the selection. */
  datatype AppView = AppView(shouldQuit: bool, selected: Option<nat>)

  /** The view of a freshly constructed application. */
  const InitialView := AppView(false, None)

  /** The selection names one of the tasks, if it names anything. */
  predicate ViewValid(v: AppView) {
    InRange(v.selected, |Tasks|)
  }

  class App {
    const title: string
    var shouldQuit: bool
    const tasks: StatefulList<string>

    /** The cursor always ranges over the fixed task list, so it never panics. */
    predicate Valid() {
      tasks.items == Tasks
    }

    function View(): (v: AppView)
      reads this, tasks
    {
      AppView(shouldQuit, tasks.selected)
    }

    /** `App::new`: not quitting, the fixed tasks, nothing selected. */
    constructor New(title: string)
      ensures this.title == title
      ensures Valid() && fresh(tasks)
      ensures View() == InitialView
    {
      this.title := title;
      shouldQuit := false;
      tasks := new StatefulList<string>.WithItems(Tasks);
    }

    /** `on_up` moves the cursor back and touches nothing else. */
    method OnUp()
      requires Valid()
      modifies tasks
      ensures tasks.selected == Some(PreviousIndex(old(tasks.selected), |Tasks|))
      ensures old(ViewValid(View())) ==> ViewValid(View())
      ensures unchanged(this)
    {
      tasks.Previous();
    }

    /** `on_down` moves the cursor forward and touches nothing else. */
    method OnDown()
      requires Valid()
      modifies tasks
      ensures tasks.selected == Some(NextIndex(old(tasks.selected), |Tasks|))
      ensures ViewValid(View())
      ensures unchanged(this)
    {
      tasks.Next();
    }

    /** `on_key` raises the quit flag on 'q' and ignores every other character;
        the flag is never lowered. */
    method OnKey(c: char)
      modifies this
      ensures shouldQuit == (old(shouldQuit) || c == 'q')
      ensures old(shouldQuit) ==> shouldQuit
      ensures unchanged(tasks)
    {
      if c == 'q' {
        shouldQuit := true;
      }
    }

    /** `on_tick` is an empty hook. */
    method OnTick()
      ensures unchanged(this) && unchanged(tasks)
    {
    }
  }
}
