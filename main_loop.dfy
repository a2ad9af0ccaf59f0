/**
 * The consumer side of the main loop (src/main.rs:232-258): each event taken
 * from the channel is dispatched to the application, and the loop ends on
 * the quit key or once the quit flag is set.
 *
 * Rendering before each event, terminal teardown and the producer thread are
 * not part of this model; the channel is a finite sequence of events, and
 * a run that consumes all of them without ending is still waiting for more.
 */
module MainLoop {
  import opened ListCursor
  import opened Application

  /** The key codes the loop tells apart; `Other` stands for every other key. */
  datatype KeyCode = Char(c: char) | Up | Down | Other

  datatype Event = Input(code: KeyCode) | Tick

  /** What one event leaves behind: keep looping, or leave the loop.
      `teardown` says whether the terminal was restored before leaving. */
  datatype Outcome = Continue(view: AppView) | Exit(view: AppView, teardown: bool)

  /** What a sequence of events leaves behind: still waiting for events, or
      left the loop after `consumed` of them. */
  datatype RunResult = Running(view: AppView) | Exited(view: AppView, consumed: nat, teardown: bool)

  const QuitEvent := Input(Char('q'))

  /** The handler an event other than the quit key is forwarded to. The
      `'q'` branch mirrors `on_key`, but it cannot be reached from here: the
      loop takes `Char('q')` itself before `on_key` sees it. */
  function Handle(v: AppView, e: Event): (w: AppView)
    requires e != QuitEvent
  {
    match e
    case Input(Char(c)) => if c == 'q' then v.(shouldQuit := true) else v
    case Input(Up) => v.(selected := Some(PreviousIndex(v.selected, |Tasks|)))
    case Input(Down) => v.(selected := Some(NextIndex(v.selected, |Tasks|)))
    case Input(Other) => v
    case Tick => v
  }

  /** One turn of the loop body: the quit key exits with teardown, every
      other event goes to `Handle`, and a set quit flag then exits. */
  function Dispatch(v: AppView, e: Event): (r: Outcome)
    ensures r.Exit? <==> e == QuitEvent || v.shouldQuit
    ensures r.Exit? ==> (r.teardown <==> e == QuitEvent)
    ensures r.view.shouldQuit == v.shouldQuit
    ensures e == QuitEvent ==> r.view == v
    ensures ViewValid(v) ==> ViewValid(r.view)
  {
    if e == QuitEvent then Exit(v, true)
    else
      var w := Handle(v, e);
      if w.shouldQuit then Exit(w, false) else Continue(w)
  }

  /** Only the arrow keys move the cursor; the quit key, other keys and ticks
      leave the whole view as it was. */
  lemma DispatchMovesOnlyOnArrows(v: AppView, e: Event)
    ensures e == Input(Up) ==> Dispatch(v, e).view.selected == Some(PreviousIndex(v.selected, |Tasks|))
    ensures e == Input(Down) ==> Dispatch(v, e).view.selected == Some(NextIndex(v.selected, |Tasks|))
    ensures e != Input(Up) && e != Input(Down) ==> Dispatch(v, e).view == v
  {
  }

  function Later(r: RunResult, n: nat): (s: RunResult)
  {
    match r
    case Running(v) => Running(v)
    case Exited(v, k, t) => Exited(v, k + n, t)
  }

  /** The loop run over a sequence of events. */
  function Run(v: AppView, events: seq<Event>): (r: RunResult)
    ensures r.Exited? ==> 1 <= r.consumed <= |events|
    ensures r.Exited? ==> events[r.consumed - 1] == QuitEvent || v.shouldQuit
    ensures r.view.shouldQuit == v.shouldQuit
    decreases |events|
  {
    if events == [] then Running(v)
    else
      match Dispatch(v, events[0])
      case Exit(w, t) => Exited(w, 1, t)
      case Continue(w) => Later(Run(w, events[1..]), 1)
  }

  /** Starting without the quit flag, the loop leaves exactly when it meets
      the quit key, always after restoring the terminal, and consumes the
      events up to and including the first quit key. */
  lemma {:induction false} RunStopsAtFirstQuitKey(v: AppView, events: seq<Event>)
    requires !v.shouldQuit
    ensures Run(v, events).Exited? <==> QuitEvent in events
    ensures Run(v, events).Exited? ==>
      var k := Run(v, events).consumed;
      Run(v, events).teardown && events[k - 1] == QuitEvent && QuitEvent !in events[..k - 1]
    decreases |events|
  {
    if events != [] {
      if events[0] != QuitEvent {
        var w := Handle(v, events[0]);
        RunStopsAtFirstQuitKey(w, events[1..]);
        assert events == [events[0]] + events[1..];
        var r := Run(w, events[1..]);
        if r.Exited? {
          assert events[..r.consumed] == [events[0]] + events[1..][..r.consumed - 1];
        }
      }
    }
  }

  /** Through the loop the quit flag is never raised: 'q' is taken by the
      loop itself before `on_key` could see it. */
  lemma NewAppNeverQuitsByFlag(events: seq<Event>)
    ensures !Run(InitialView, events).view.shouldQuit
    ensures Run(InitialView, events).Exited? ==> Run(InitialView, events).teardown
  {
    RunStopsAtFirstQuitKey(InitialView, events);
  }

  /** A valid selection stays valid however many events are processed. */
  lemma {:induction false} RunKeepsSelectionInRange(v: AppView, events: seq<Event>)
    requires ViewValid(v)
    ensures ViewValid(Run(v, events).view)
    decreases |events|
  {
    if events != [] && Dispatch(v, events[0]).Continue? {
      RunKeepsSelectionInRange(Dispatch(v, events[0]).view, events[1..]);
    }
  }

  /** The loop of `main` from any valid application state: the state after
      the run and the way the loop ended are those `Run` describes. */
  method EventLoop(app: App, events: seq<Event>) returns (result: RunResult)
    requires app.Valid()
    modifies app, app.tasks
    ensures result == Run(old(app.View()), events)
    ensures app.View() == result.view
  {
    var i := 0;
    while i < |events|
      invariant 0 <= i <= |events|
      invariant Run(old(app.View()), events) == Later(Run(app.View(), events[i..]), i)
    {
      var e := events[i];
      assert events[i..][1..] == events[i + 1..];
      match e {
        case Input(Char(c)) =>
          if c == 'q' {
            return Exited(app.View(), i + 1, true);
          }
          app.OnKey(c);
        case Input(Up) => app.OnUp();
        case Input(Down) => app.OnDown();
        case Input(Other) =>
        case Tick => app.OnTick();
      }
      i := i + 1;
      if app.shouldQuit {
        return Exited(app.View(), i, false);
      }
    }
    result := Running(app.View());
  }

  /** `main`: a new application named "Termline" fed the events in order. */
  method RunMain(events: seq<Event>) returns (result: RunResult)
    ensures result == Run(InitialView, events)
    ensures result.Exited? <==> QuitEvent in events
  {
    var app := new App.New("Termline");
    result := EventLoop(app, events);
    RunStopsAtFirstQuitKey(InitialView, events);
  }
}
