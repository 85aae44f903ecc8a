/**
 * The key loop of the curses interface (`EnhancedRoadmapTUI.run`): each
 * round reads the terminal height and one key and updates the selection,
 * the scroll position, the view, the filters or one task's status.
 *
 * `Step` is the specification of one round; the `Tui` class holds the
 * interface's fields and its methods are proved against `Step`.
 */
module EnhancedTui {
  import opened Wrappers
  import opened Seqs
  import opened Text
  import opened EnhancedTasks

  /** The fields of `EnhancedRoadmapTUI`, with the tool's task dictionary. */
  datatype TuiState = TuiState(
    store: seq<Entry>,
    selectedIndex: nat,
    scrollOffset: nat,
    filterStatus: Option<string>,
    filterPriority: Option<string>,
    filterMilestone: Option<string>,
    viewMode: string)

  /** One round of the loop: the terminal height, the key pressed, and the clock's reading. */
  datatype Event = Event(height: int, key: int, now: string)

  const KeyQuit: int := 113      // ord('q')
  const KeyDown: int := 258      // curses.KEY_DOWN
  const KeyUp: int := 259        // curses.KEY_UP
  const KeyView: int := 118      // ord('v')
  const KeySpace: int := 32      // ord(' ')
  const KeyFilter: int := 102    // ord('f')

  /** The state `__init__` sets up. */
  function Initial(store: seq<Entry>): TuiState {
    TuiState(store, 0, 0, None, None, None, "split")
  }

  function Tasks(st: TuiState): seq<Entry> {
    FilteredTasks(st.store, st.filterStatus, st.filterPriority, st.filterMilestone)
  }

  /** The task the detail pane shows: `tasks[selected_index]` when there is one. */
  function SelectedTask(st: TuiState): (r: Option<Entry>)
    ensures r.Some? <==> st.selectedIndex < |Tasks(st)|
    ensures r.Some? ==> r.value == Tasks(st)[st.selectedIndex]
    ensures r.Some? ==> r.value in st.store
  {
    var tasks := Tasks(st);
    FilteredTasksProperties(st.store, st.filterStatus, st.filterPriority, st.filterMilestone);
    if |tasks| > 0 && st.selectedIndex < |tasks| then Some(tasks[st.selectedIndex]) else None
  }

  /** `draw_status_bar`'s text for the state `st`. */
  function StatusBarOf(st: TuiState): (r: string)
    ensures StartsWith(r, StatusTitle + NatToString(|Tasks(st)|) + "/" + NatToString(|st.store|))
    ensures Valid(st) ==> r == StatusTitle + NatToString(|st.store|) + "/" + NatToString(|st.store|)
  {
    FilteredTasksProperties(st.store, st.filterStatus, st.filterPriority, st.filterMilestone);
    StatusBar(|Tasks(st)|, |st.store|, FilterLabels(st.filterStatus, st.filterPriority, st.filterMilestone))
  }

  // ---------------------------------------------------------------------------
  // Navigation
  // ---------------------------------------------------------------------------

  /** Row `k` of the filtered list is drawn: within `tasks[scroll:scroll + height - 3]` and above the help bar. */
  predicate Drawn(k: int, scroll: int, contentHeight: int) {
    scroll <= k < scroll + contentHeight - 3
  }

  /** The UP key: one row up, scrolling up to keep the selection in view. */
  function MoveUp(sel: nat, scroll: nat): (r: (nat, nat))
    ensures sel > 0 ==> r.0 == sel - 1
    ensures sel == 0 ==> r == (sel, scroll)
    ensures sel > 0 || scroll <= sel ==> r.1 <= r.0
  {
    if sel > 0 then
      var s := sel - 1;
      (s, if s < scroll then s else scroll)
    else (sel, scroll)
  }

  /**
   * The DOWN key as the source writes it: it scrolls once the selection
   * reaches `scroll + content_height - 2`, so it keeps the selection within
   * `content_height - 2` rows from the scroll position.
   */
  function MoveDownAsWritten(sel: nat, scroll: nat, count: int, contentHeight: int): (r: (nat, nat))
    ensures sel < count - 1 ==> r.0 == sel + 1 && r.0 < r.1 + contentHeight - 2
    ensures sel >= count - 1 ==> r == (sel, scroll)
    ensures contentHeight >= 3 && scroll <= sel ==> r.1 <= r.0
  {
    if sel < count - 1 then
      var s := sel + 1;
      (s, if s >= scroll + contentHeight - 2 then s - contentHeight + 3 else scroll)
    else (sel, scroll)
  }

  /**
   * The list draws rows `scroll` to `scroll + content_height - 4`, one fewer
   * than the DOWN rule allows for: from the last drawn row, DOWN selects the
   * row below without scrolling, and that row is not drawn.
   */
  lemma MoveDownAsWrittenLeavesView(scroll: nat, count: int, contentHeight: int)
    requires contentHeight >= 4 && count > scroll + contentHeight - 2
    ensures var sel := scroll + contentHeight - 4;
      var r := MoveDownAsWritten(sel, scroll, count, contentHeight);
      Drawn(sel, scroll, contentHeight) && !Drawn(r.0, r.1, contentHeight)
  {
  }

  /** The instance: eight tasks in a 14-line terminal, the seventh selected. */
  lemma MoveDownAsWrittenExample()
    ensures Drawn(6, 0, 10)
    ensures MoveDownAsWritten(6, 0, 8, 10) == (7, 0)
    ensures !Drawn(7, 0, 10)
  {
  }

  /** The DOWN key with the threshold the drawing uses: it scrolls once the selection leaves the drawn rows. */
  function MoveDown(sel: nat, scroll: nat, count: int, contentHeight: int): (r: (nat, nat))
    ensures sel < count - 1 ==> r.0 == sel + 1
    ensures sel >= count - 1 ==> r == (sel, scroll)
    ensures contentHeight >= 4 && Drawn(sel, scroll, contentHeight) ==> Drawn(r.0, r.1, contentHeight)
  {
    if sel < count - 1 then
      var s := sel + 1;
      (s, if s >= scroll + contentHeight - 3 then s - contentHeight + 4 else scroll)
    else (sel, scroll)
  }

  /** Which DOWN rule a round follows: the one the source writes, or the one that matches the drawing. */
  datatype DownRule = AsWritten | Corrected

  /**
   * The rows a DOWN rule keeps the selection within: `content_height - 2`
   * rows from the scroll position as written, the drawn rows corrected.
   */
  predicate InView(rule: DownRule, k: int, scroll: int, contentHeight: int) {
    match rule
    case AsWritten => scroll <= k < scroll + contentHeight - 2
    case Corrected => Drawn(k, scroll, contentHeight)
  }

  /** The DOWN key under `rule`; each rule keeps the selection within its own rows. */
  function MoveDownBy(rule: DownRule, sel: nat, scroll: nat, count: int, contentHeight: int): (r: (nat, nat))
    ensures sel < count - 1 ==> r.0 == sel + 1
    ensures sel >= count - 1 ==> r == (sel, scroll)
    ensures contentHeight >= 4 && InView(rule, sel, scroll, contentHeight) ==>
      InView(rule, r.0, r.1, contentHeight)
  {
    match rule
    case AsWritten => MoveDownAsWritten(sel, scroll, count, contentHeight)
    case Corrected => MoveDown(sel, scroll, count, contentHeight)
  }

  /** UP keeps the selection within the rows of either rule. */
  lemma MoveUpKeepsInView(rule: DownRule, sel: nat, scroll: nat, contentHeight: int)
    requires contentHeight >= 4 && InView(rule, sel, scroll, contentHeight)
    ensures InView(rule, MoveUp(sel, scroll).0, MoveUp(sel, scroll).1, contentHeight)
  {
  }

  // ---------------------------------------------------------------------------
  // The space key
  // ---------------------------------------------------------------------------

  /** `task.status = ...; task.updated = now` on the task stored under `key`. */
  function SetStatus(store: seq<Entry>, key: string, status: string, now: string): (r: seq<Entry>)
    ensures |r| == |store|
    ensures forall i :: 0 <= i < |store| ==> r[i].0 == store[i].0
    ensures forall i :: 0 <= i < |store| && store[i].0 != key ==> r[i] == store[i]
    ensures forall i :: 0 <= i < |store| && store[i].0 == key ==>
      r[i].1 == store[i].1.(status := status, updated := Some(now))
    decreases |store|
  {
    if |store| == 0 then []
    else
      var e := store[0];
      var e' := if e.0 == key then (e.0, e.1.(status := status, updated := Some(now))) else e;
      [e'] + SetStatus(store[1..], key, status, now)
  }

  // ---------------------------------------------------------------------------
  // One round
  // ---------------------------------------------------------------------------

  /** The state after one round of the loop (the quit key leaves it unchanged). */
  function Step(st: TuiState, ev: Event, rule: DownRule): (r: TuiState)
    ensures |r.store| == |st.store|
    ensures forall i :: 0 <= i < |st.store| ==> r.store[i].0 == st.store[i].0
    ensures ev.key != KeySpace ==> r.store == st.store
  {
    StepWith(st, Tasks(st), ev, rule)
  }

  /**
   * One round, given the list `get_filtered_tasks` returned at its start:
   * only the space key touches the tasks, and then not their keys; only the
   * filter key touches the filters.
   */
  function StepWith(st: TuiState, tasks: seq<Entry>, ev: Event, rule: DownRule): (r: TuiState)
    ensures |r.store| == |st.store|
    ensures forall i :: 0 <= i < |st.store| ==> r.store[i].0 == st.store[i].0
    ensures ev.key != KeySpace ==> r.store == st.store
    ensures ev.key != KeyFilter ==>
      r.filterStatus == st.filterStatus && r.filterPriority == st.filterPriority &&
      r.filterMilestone == st.filterMilestone
  {
    var contentHeight := ev.height - 4;
    if ev.key == KeyUp then
      var r := MoveUp(st.selectedIndex, st.scrollOffset);
      st.(selectedIndex := r.0, scrollOffset := r.1)
    else if ev.key == KeyDown then
      var r := MoveDownBy(rule, st.selectedIndex, st.scrollOffset, |tasks|, contentHeight);
      st.(selectedIndex := r.0, scrollOffset := r.1)
    else if ev.key == KeyView then
      st.(viewMode := ToggleView(st.viewMode))
    else if ev.key == KeySpace then
      if |tasks| > 0 && st.selectedIndex < |tasks| then
        var task := tasks[st.selectedIndex];
        st.(store := SetStatus(st.store, task.0, NextStatus(task.1.status), ev.now))
      else st
    else if ev.key == KeyFilter then
      st.(filterStatus := None, filterPriority := None, filterMilestone := None,
          selectedIndex := 0, scrollOffset := 0)
    else st
  }

  /** The loop over a run of events, stopping at the quit key; the tasks keep their keys throughout. */
  function RunEvents(st: TuiState, events: seq<Event>, rule: DownRule): (r: TuiState)
    ensures |r.store| == |st.store|
    ensures forall i :: 0 <= i < |st.store| ==> r.store[i].0 == st.store[i].0
    ensures (forall i :: 0 <= i < |events| ==> events[i].key != KeySpace) ==> r.store == st.store
    decreases |events|
  {
    if |events| == 0 then st
    else if events[0].key == KeyQuit then st
    else
      assert forall i :: 0 <= i < |events[1..]| ==> events[1..][i] == events[i + 1];
      RunEvents(Step(st, events[0], rule), events[1..], rule)
  }

  // ---------------------------------------------------------------------------
  // What every round keeps
  // ---------------------------------------------------------------------------

  /**
   * What holds of the interface at every round. Nothing in the loop sets a
   * filter, so the list always shows every task; the selection is a row of
   * it (or 0 when it is empty); the view is one of the two modes.
   */
  predicate Valid(st: TuiState) {
    && UniqueKeys(st.store)
    && st.filterStatus == None && st.filterPriority == None && st.filterMilestone == None
    && st.viewMode in {"split", "list"}
    && (|st.store| == 0 ==> st.selectedIndex == 0)
    && (|st.store| > 0 ==> st.selectedIndex < |st.store|)
  }

  /** The state `__init__` sets up is valid. */
  lemma InitialValid(store: seq<Entry>)
    requires UniqueKeys(store)
    ensures Valid(Initial(store))
  {
  }

  /** The first row is selected and the view is at the top, so the selection is in view under either rule. */
  lemma InitialInView(store: seq<Entry>, rule: DownRule, contentHeight: int)
    requires contentHeight >= 4
    ensures InView(rule, Initial(store).selectedIndex, Initial(store).scrollOffset, contentHeight)
  {
  }

  /** Without filters the list has every task. */
  lemma TasksOfValid(st: TuiState)
    requires Valid(st)
    ensures |Tasks(st)| == |st.store|
    ensures multiset(Tasks(st)) == multiset(st.store)
  {
    FilteredTasksProperties(st.store, st.filterStatus, st.filterPriority, st.filterMilestone);
  }

  /** Every round keeps `Valid`, under either DOWN rule. */
  lemma StepValid(st: TuiState, ev: Event, rule: DownRule)
    requires Valid(st)
    ensures Valid(Step(st, ev, rule))
  {
    TasksOfValid(st);
    StepWithValid(st, Tasks(st), ev, rule);
  }

  lemma StepWithValid(st: TuiState, tasks: seq<Entry>, ev: Event, rule: DownRule)
    requires Valid(st) && |tasks| == |st.store|
    ensures Valid(StepWith(st, tasks, ev, rule))
  {
    var st' := StepWith(st, tasks, ev, rule);
    assert UniqueKeys(st'.store) by {
      forall i, j | 0 <= i < j < |st'.store| ensures st'.store[i].0 != st'.store[j].0 {
        assert st'.store[i].0 == st.store[i].0 && st'.store[j].0 == st.store[j].0;
      }
    }
  }

  /**
   * For a terminal of fixed height, with room for at least one row, every
   * round keeps the selection within the rows of its DOWN rule: the rows
   * the DOWN branch allows for as written, the drawn rows corrected.
   */
  lemma StepKeepsSelectionInView(st: TuiState, ev: Event, rule: DownRule)
    requires ev.height >= 8
    requires InView(rule, st.selectedIndex, st.scrollOffset, ev.height - 4)
    ensures InView(rule, Step(st, ev, rule).selectedIndex, Step(st, ev, rule).scrollOffset, ev.height - 4)
  {
    StepWithKeepsInView(st, Tasks(st), ev, rule);
  }

  lemma StepWithKeepsInView(st: TuiState, tasks: seq<Entry>, ev: Event, rule: DownRule)
    requires ev.height >= 8
    requires InView(rule, st.selectedIndex, st.scrollOffset, ev.height - 4)
    ensures var st' := StepWith(st, tasks, ev, rule);
      InView(rule, st'.selectedIndex, st'.scrollOffset, ev.height - 4)
  {
    if ev.key == KeyUp {
      MoveUpKeepsInView(rule, st.selectedIndex, st.scrollOffset, ev.height - 4);
    }
  }

  /**
   * The space key advances the selected task's status and stamps it; every
   * other task stays as it was, and the list keeps its length.
   */
  lemma SpaceTogglesSelected(st: TuiState, now: string, height: int, rule: DownRule)
    requires Valid(st) && |st.store| > 0
    ensures var task := Tasks(st)[st.selectedIndex];
      var st' := Step(st, Event(height, KeySpace, now), rule);
      && |st'.store| == |st.store|
      && (forall i :: 0 <= i < |st.store| && st.store[i].0 != task.0 ==> st'.store[i] == st.store[i])
      && (forall i :: 0 <= i < |st.store| && st.store[i].0 == task.0 ==>
            st'.store[i].1 == task.1.(status := NextStatus(task.1.status), updated := Some(now)))
      && st'.selectedIndex == st.selectedIndex && st'.scrollOffset == st.scrollOffset
  {
    TasksOfValid(st);
    var tasks := Tasks(st);
    assert tasks[st.selectedIndex] in multiset(st.store);
    SpaceWith(st, tasks, now, height, rule);
  }

  lemma SpaceWith(st: TuiState, tasks: seq<Entry>, now: string, height: int, rule: DownRule)
    requires UniqueKeys(st.store) && st.selectedIndex < |tasks|
    requires tasks[st.selectedIndex] in st.store
    ensures var task := tasks[st.selectedIndex];
      var st' := StepWith(st, tasks, Event(height, KeySpace, now), rule);
      && |st'.store| == |st.store|
      && (forall i :: 0 <= i < |st.store| && st.store[i].0 != task.0 ==> st'.store[i] == st.store[i])
      && (forall i :: 0 <= i < |st.store| && st.store[i].0 == task.0 ==>
            st'.store[i].1 == task.1.(status := NextStatus(task.1.status), updated := Some(now)))
      && st'.selectedIndex == st.selectedIndex && st'.scrollOffset == st.scrollOffset
  {
    var task := tasks[st.selectedIndex];
    var k :| 0 <= k < |st.store| && st.store[k] == task;
    forall i | 0 <= i < |st.store| && st.store[i].0 == task.0 ensures st.store[i] == task {
      assert i == k;
    }
  }

  /** The filter key clears the three filters and goes back to the first row. */
  lemma FilterKeyResets(st: TuiState, now: string, height: int, rule: DownRule)
    ensures var st' := Step(st, Event(height, KeyFilter, now), rule);
      && st'.filterStatus == None && st'.filterPriority == None && st'.filterMilestone == None
      && st'.selectedIndex == 0 && st'.scrollOffset == 0
      && st'.store == st.store && st'.viewMode == st.viewMode
  {
  }

  /** The view key twice restores the view and changes nothing else. */
  lemma ViewKeyTwice(st: TuiState, ev: Event, rule: DownRule)
    requires Valid(st) && ev.key == KeyView
    ensures Step(Step(st, ev, rule), ev, rule) == st
  {
    ToggleViewTwice(st.viewMode);
  }

  /** `Valid` holds after any run of events, under either DOWN rule. */
  lemma {:induction false} RunValid(st: TuiState, events: seq<Event>, rule: DownRule)
    requires Valid(st)
    ensures Valid(RunEvents(st, events, rule))
    decreases |events|
  {
    if |events| > 0 && events[0].key != KeyQuit {
      StepValid(st, events[0], rule);
      RunValid(Step(st, events[0], rule), events[1..], rule);
    }
  }

  /**
   * In a terminal whose height stays `height`, the selection stays within
   * the rows of the DOWN rule however many keys are pressed; with the
   * corrected rule those are the drawn rows.
   */
  lemma {:induction false} RunKeepsSelectionInView(st: TuiState, events: seq<Event>, height: int, rule: DownRule)
    requires height >= 8
    requires forall i :: 0 <= i < |events| ==> events[i].height == height
    requires InView(rule, st.selectedIndex, st.scrollOffset, height - 4)
    ensures InView(rule, RunEvents(st, events, rule).selectedIndex, RunEvents(st, events, rule).scrollOffset, height - 4)
    decreases |events|
  {
    if |events| > 0 && events[0].key != KeyQuit {
      StepKeepsSelectionInView(st, events[0], rule);
      assert forall i :: 0 <= i < |events[1..]| ==> events[1..][i].height == height by {
        forall i | 0 <= i < |events[1..]| ensures events[1..][i].height == height {
          assert events[1..][i] == events[i + 1];
        }
      }
      RunKeepsSelectionInView(Step(st, events[0], rule), events[1..], height, rule);
    }
  }

  /** The status bar's filtered count never exceeds the number of tasks. */
  lemma StatusBarCounts(st: TuiState)
    ensures |Tasks(st)| <= |st.store|
  {
    FilteredTasksProperties(st.store, st.filterStatus, st.filterPriority, st.filterMilestone);
  }

  // ---------------------------------------------------------------------------
  // The interface object
  // ---------------------------------------------------------------------------

  /** The interface's fields; its key handling follows the DOWN rule as the source writes it. */
  class Tui {
    var store: seq<Entry>
    var selectedIndex: nat
    var scrollOffset: nat
    var filterStatus: Option<string>
    var filterPriority: Option<string>
    var filterMilestone: Option<string>
    var viewMode: string

    function State(): TuiState
      reads this
    {
      TuiState(store, selectedIndex, scrollOffset, filterStatus, filterPriority, filterMilestone, viewMode)
    }

    constructor (tasks: seq<Entry>)
      ensures State() == Initial(tasks)
    {
      store := tasks;
      selectedIndex := 0;
      scrollOffset := 0;
      filterStatus := None;
      filterPriority := None;
      filterMilestone := None;
      viewMode := "split";
    }

    /**
     * `get_filtered_tasks`: the tasks that pass the active filters, each as
     * often as in the store, and only those, sorted by (priority rank, milestone, id).
     */
    function FilteredTasks(): (r: seq<Entry>)
      reads this
      ensures forall x :: multiset(r)[x] == if MatchesFilters(x.1, filterStatus, filterPriority, filterMilestone) then multiset(store)[x] else 0
      ensures SortedBy(r, TaskLe)
      ensures forall e :: e in r <==> e in store && MatchesFilters(e.1, filterStatus, filterPriority, filterMilestone)
      ensures |r| <= |store|
    {
      FilteredTasksProperties(store, filterStatus, filterPriority, filterMilestone);
      EnhancedTasks.FilteredTasks(store, filterStatus, filterPriority, filterMilestone)
    }

    /** `draw_status_bar`'s text; in a `Valid` state it shows every task as shown. */
    function StatusBarText(): (r: string)
      reads this
      ensures StartsWith(r, StatusTitle + NatToString(|FilteredTasks()|) + "/" + NatToString(|store|))
      ensures Valid(State()) ==> r == StatusTitle + NatToString(|store|) + "/" + NatToString(|store|)
    {
      StatusBarOf(State())
    }

    /** The key handling of one round; `quit` is the `break` of the `q` key. */
    method HandleKey(ev: Event) returns (quit: bool)
      modifies this
      ensures quit <==> ev.key == KeyQuit
      ensures State() == if quit then old(State()) else Step(old(State()), ev, AsWritten)
    {
      var tasks := FilteredTasks();
      quit := ApplyKey(tasks, ev);
    }

    /** The branches on the key, with `tasks` the list of this round. */
    method ApplyKey(tasks: seq<Entry>, ev: Event) returns (quit: bool)
      modifies this
      ensures quit <==> ev.key == KeyQuit
      ensures State() == if quit then old(State()) else StepWith(old(State()), tasks, ev, AsWritten)
    {
      var contentHeight := ev.height - 4;
      quit := false;
      if ev.key == KeyQuit {
        quit := true;
      } else if ev.key == KeyUp {
        if selectedIndex > 0 {
          selectedIndex := selectedIndex - 1;
          if selectedIndex < scrollOffset {
            scrollOffset := selectedIndex;
          }
        }
      } else if ev.key == KeyDown {
        if selectedIndex < |tasks| - 1 {
          selectedIndex := selectedIndex + 1;
          if selectedIndex >= scrollOffset + contentHeight - 2 {
            scrollOffset := selectedIndex - contentHeight + 3;
          }
        }
      } else if ev.key == KeyView {
        viewMode := if viewMode == "split" then "list" else "split";
      } else if ev.key == KeySpace {
        if |tasks| > 0 && selectedIndex < |tasks| {
          var task := tasks[selectedIndex];
          store := SetStatus(store, task.0, NextStatus(task.1.status), ev.now);
        }
      } else if ev.key == KeyFilter {
        filterStatus := None;
        filterPriority := None;
        filterMilestone := None;
        selectedIndex := 0;
        scrollOffset := 0;
      }
    }

    /** `run`'s loop over the rounds `events`, until `q`. */
    method Run(events: seq<Event>)
      modifies this
      ensures State() == RunEvents(old(State()), events, AsWritten)
    {
      var i := 0;
      while i < |events|
        invariant i <= |events|
        invariant RunEvents(old(State()), events, AsWritten) == RunEvents(State(), events[i..], AsWritten)
      {
        assert events[i..][1..] == events[i + 1..];
        var quit := HandleKey(events[i]);
        if quit {
          return;
        }
        i := i + 1;
      }
    }
  }
}
