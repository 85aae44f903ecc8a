/**
 * The task records of the modern viewer and the pure rules it applies to them:
 * the icon and colour lookups, the status and priority filters, keyword search,
 * the numbered menu choices and the command-line dispatch.
 *
 * `tasks.json` is a JSON object from task id to record; Python keeps its keys
 * in file order, so the store is a sequence of (id, record) pairs. A field the
 * record does not have is `None`, since the viewer reads every field with
 * `task.get(...)` and treats a missing one differently from any string.
 */
module Tasks {
  import opened Wrappers
  import opened Text
  import opened Seqs
  import Priority

  datatype Task = Task(
    title: Option<string>,
    status: Option<string>,
    priority: Option<string>,
    milestone: Option<string>,
    description: Option<string>,
    details: Option<string>)

  type Entry = (string, Task)
  type Store = seq<Entry>

  /** A JSON object has each key once. */
  predicate UniqueIds(ts: Store) {
    forall i, j :: 0 <= i < j < |ts| ==> ts[i].0 != ts[j].0
  }

  // ---------------------------------------------------------------------------
  // Icons and colours (`get_status_icon`, `get_status_color`, `get_priority_icon`)
  // ---------------------------------------------------------------------------

  /** The known statuses, in the order the status menu lists them. */
  const Statuses: seq<string> := ["todo", "in_progress", "done", "blocked"]

  /** `Icons.TODO`, `Icons.IN_PROGRESS`, `Icons.DONE`, `Icons.BLOCKED`. */
  const StatusIcons: seq<string> := ["\U{25CB}", "\U{25D0}", "\U{25CF}", "\U{2297}"]

  /** `Colors.BRIGHT_BLUE`, `BRIGHT_YELLOW`, `BRIGHT_GREEN`, `BRIGHT_RED`. */
  const StatusColors: seq<string> := ["\U{1b}[94m", "\U{1b}[93m", "\U{1b}[92m", "\U{1b}[91m"]

  /** `Colors.WHITE`, the colour of a status the viewer does not know. */
  const White: string := "\U{1b}[37m"

  /** `Icons.CRITICAL`, `HIGH`, `MEDIUM`, `LOW`, aligned with `Priority.Ranked`. */
  const PriorityIcons: seq<string> := ["\U{1F534}", "\U{1F7E0}", "\U{1F7E1}", "\U{1F7E2}"]

  /** The icon of a status; an unknown status shows as TODO. */
  function StatusIcon(status: string): (r: string)
    ensures forall i :: 0 <= i < |Statuses| ==> status == Statuses[i] ==> r == StatusIcons[i]
    ensures status !in Statuses ==> r == StatusIcons[0]
  {
    if status == "todo" then "\U{25CB}"
    else if status == "in_progress" then "\U{25D0}"
    else if status == "done" then "\U{25CF}"
    else if status == "blocked" then "\U{2297}"
    else "\U{25CB}"
  }

  /** The colour of a status; an unknown status, and only an unknown one, gets WHITE. */
  function StatusColor(status: string): (r: string)
    ensures forall i :: 0 <= i < |Statuses| ==> status == Statuses[i] ==> r == StatusColors[i]
    ensures r == White <==> status !in Statuses
  {
    if status == "todo" then "\U{1b}[94m"
    else if status == "in_progress" then "\U{1b}[93m"
    else if status == "done" then "\U{1b}[92m"
    else if status == "blocked" then "\U{1b}[91m"
    else "\U{1b}[37m"
  }

  /** The icon of a priority; an unknown priority shows as LOW. */
  function PriorityIcon(priority: string): (r: string)
    ensures forall i :: 0 <= i < |Priority.Ranked| ==> priority == Priority.Ranked[i] ==> r == PriorityIcons[i]
    ensures priority !in Priority.Ranked ==> r == PriorityIcons[3]
  {
    if priority == "critical" then "\U{1F534}"
    else if priority == "high" then "\U{1F7E0}"
    else if priority == "medium" then "\U{1F7E1}"
    else if priority == "low" then "\U{1F7E2}"
    else "\U{1F7E2}"
  }

  /** The four known statuses show four different icons and four different colours, and so do the four priorities. */
  lemma KnownValuesDistinct()
    ensures NoDuplicates(StatusIcons) && NoDuplicates(StatusColors) && NoDuplicates(PriorityIcons)
    ensures forall s, t :: s in Statuses && t in Statuses && StatusIcon(s) == StatusIcon(t) ==> s == t
    ensures forall s, t :: s in Statuses && t in Statuses && StatusColor(s) == StatusColor(t) ==> s == t
    ensures forall p, q :: p in Priority.Ranked && q in Priority.Ranked && PriorityIcon(p) == PriorityIcon(q) ==> p == q
  {
    assert NoDuplicates(StatusIcons) && NoDuplicates(StatusColors) && NoDuplicates(PriorityIcons);
  }

  // ---------------------------------------------------------------------------
  // Filters
  // ---------------------------------------------------------------------------

  /** `task.get('status') == status`: a record without a status never matches. */
  function HasStatus(status: string): Entry -> bool {
    (e: Entry) => e.1.status == Some(status)
  }

  /** `task.get('priority') == priority`. */
  function HasPriority(priority: string): Entry -> bool {
    (e: Entry) => e.1.priority == Some(priority)
  }

  /** The tasks with the given status, in store order. */
  function FilterByStatus(ts: Store, status: string): (r: Store)
    ensures forall e :: e in r <==> e in ts && e.1.status == Some(status)
    ensures IsSubsequence(r, ts)
  {
    Filter(ts, HasStatus(status))
  }

  /** The tasks with the given priority, in store order. */
  function FilterByPriority(ts: Store, priority: string): (r: Store)
    ensures forall e :: e in r <==> e in ts && e.1.priority == Some(priority)
    ensures IsSubsequence(r, ts)
  {
    Filter(ts, HasPriority(priority))
  }

  /**
   * A numbered menu answer (`choice.isdigit() and 1 <= int(choice) <= count`)
   * as the 0-based index of the chosen entry; anything else chooses nothing.
   */
  function MenuIndex(raw: string, count: nat): (r: Option<nat>)
    ensures r.Some? <==> IsDigits(Strip(raw)) && 1 <= DigitsValue(Strip(raw)) <= count
    ensures r.Some? ==> r.value < count && DigitsValue(Strip(raw)) == r.value + 1
  {
    var choice := Strip(raw);
    if IsDigits(choice) && 1 <= DigitsValue(choice) <= count then Some(DigitsValue(choice) - 1) else None
  }

  /** Typing the number `[k]` printed beside the k-th entry chooses that entry. */
  lemma MenuIndexOfLabel(k: nat, count: nat)
    requires 1 <= k <= count
    ensures MenuIndex(NatToString(k), count) == Some(k - 1)
  {
    var s := NatToString(k);
    DigitsValueOfNatToString(k);
    StripDigits(s);
  }

  /** `filter_by_status`: the chosen status and the tasks that have it, or nothing for an answer outside the menu. */
  function StatusMenu(ts: Store, raw: string): (r: Option<(string, Store)>)
    ensures r.Some? <==> MenuIndex(raw, |Statuses|).Some?
    ensures r.Some? ==> r.value.0 == Statuses[MenuIndex(raw, |Statuses|).value]
    ensures r.Some? ==> r.value.1 == FilterByStatus(ts, r.value.0)
  {
    match MenuIndex(raw, |Statuses|)
    case Some(i) => Some((Statuses[i], FilterByStatus(ts, Statuses[i])))
    case None => None
  }

  /** `filter_by_priority`: the chosen priority and the tasks that have it. */
  function PriorityMenu(ts: Store, raw: string): (r: Option<(string, Store)>)
    ensures r.Some? <==> MenuIndex(raw, |Priority.Ranked|).Some?
    ensures r.Some? ==> r.value.0 == Priority.Ranked[MenuIndex(raw, |Priority.Ranked|).value]
    ensures r.Some? ==> r.value.1 == FilterByPriority(ts, r.value.0)
  {
    match MenuIndex(raw, |Priority.Ranked|)
    case Some(i) => Some((Priority.Ranked[i], FilterByPriority(ts, Priority.Ranked[i])))
    case None => None
  }

  /** The number printed beside each status selects it: `[1]` todo up to `[4]` blocked. */
  lemma StatusMenuOfLabel(ts: Store, k: nat)
    requires 1 <= k <= |Statuses|
    ensures StatusMenu(ts, NatToString(k)) == Some((Statuses[k - 1], FilterByStatus(ts, Statuses[k - 1])))
  {
    MenuIndexOfLabel(k, |Statuses|);
  }

  /** The number printed beside each priority selects it: `[1]` critical up to `[4]` low. */
  lemma PriorityMenuOfLabel(ts: Store, k: nat)
    requires 1 <= k <= |Priority.Ranked|
    ensures PriorityMenu(ts, NatToString(k)) == Some((Priority.Ranked[k - 1], FilterByPriority(ts, Priority.Ranked[k - 1])))
  {
    MenuIndexOfLabel(k, |Priority.Ranked|);
  }

  // ---------------------------------------------------------------------------
  // Search
  // ---------------------------------------------------------------------------

  /** `task.get(field, '')`, lowercased, contains the keyword. */
  predicate Mentions(field: Option<string>, keyword: string) {
    Contains(Lower(field.GetOr("")), keyword)
  }

  predicate MatchesKeyword(t: Task, keyword: string) {
    Mentions(t.title, keyword) || Mentions(t.description, keyword) || Mentions(t.details, keyword)
  }

  function Matching(keyword: string): Entry -> bool {
    (e: Entry) => MatchesKeyword(e.1, keyword)
  }

  /** The search term as the viewer uses it: stripped and lowercased. */
  function Keyword(raw: string): string {
    Lower(Strip(raw))
  }

  /**
   * `search_tasks`: nothing for an empty search term, otherwise the tasks, in
   * store order, whose title, description or details mention the term.
   */
  function SearchTasks(ts: Store, raw: string): (r: Option<Store>)
    ensures r.None? <==> Keyword(raw) == ""
    ensures r.Some? ==> forall e :: e in r.value <==> e in ts && MatchesKeyword(e.1, Keyword(raw))
    ensures r.Some? ==> IsSubsequence(r.value, ts)
  {
    var keyword := Keyword(raw);
    if keyword == "" then None else Some(Filter(ts, Matching(keyword)))
  }

  ghost predicate OccursIn(field: Option<string>, keyword: string) {
    exists i :: OccursAt(Lower(field.GetOr("")), keyword, i)
  }

  /** A task is found exactly when the term occurs at some position of one of its lowercased fields. */
  lemma SearchFindsOccurrences(ts: Store, raw: string, e: Entry)
    requires Keyword(raw) != ""
    ensures var k := Keyword(raw);
      e in SearchTasks(ts, raw).value <==>
        e in ts && (OccursIn(e.1.title, k) || OccursIn(e.1.description, k) || OccursIn(e.1.details, k))
  {
    var k := Keyword(raw);
    ContainsIff(Lower(e.1.title.GetOr("")), k);
    ContainsIff(Lower(e.1.description.GetOr("")), k);
    ContainsIff(Lower(e.1.details.GetOr("")), k);
  }

  // ---------------------------------------------------------------------------
  // Command line and menu choices
  // ---------------------------------------------------------------------------

  /** An argparse option that was given a non-empty value (Python truthiness). */
  predicate Given(arg: Option<string>) {
    arg.Some? && arg.value != ""
  }

  /** `--status` then `--priority`, each applied only when given. */
  function CliFilter(ts: Store, status: Option<string>, priority: Option<string>): (r: Store)
    ensures forall e :: e in r <==>
      e in ts && (!Given(status) || e.1.status == status) && (!Given(priority) || e.1.priority == priority)
  {
    var byStatus := if Given(status) then FilterByStatus(ts, status.value) else ts;
    if Given(priority) then FilterByPriority(byStatus, priority.value) else byStatus
  }

  /** What the two options together ask of a task: each given option must match its field. */
  function CliMatch(status: Option<string>, priority: Option<string>): Entry -> bool {
    (e: Entry) => (!Given(status) || e.1.status == status) && (!Given(priority) || e.1.priority == priority)
  }

  /** Filtering by status and then by priority keeps exactly the tasks that satisfy both given options. */
  lemma {:induction false} CliFilterConjunction(ts: Store, status: Option<string>, priority: Option<string>)
    ensures CliFilter(ts, status, priority) == Filter(ts, CliMatch(status, priority))
  {
    var both := CliMatch(status, priority);
    if Given(status) && Given(priority) {
      FilterFilter(ts, HasStatus(status.value), HasPriority(priority.value), both);
    } else if Given(status) {
      FilterCongruent(ts, HasStatus(status.value), both);
    } else if Given(priority) {
      FilterCongruent(ts, HasPriority(priority.value), both);
    } else {
      FilterAll(ts, both);
    }
  }

  /** The mode `main` runs in. */
  datatype Command = ListByMilestone | ShowTask(id: string) | FilterTasks(status: Option<string>, priority: Option<string>) | InteractiveMenu

  /** `main`: `--list` wins over `--task`, which wins over the filters; with none of them the menu runs. */
  function Dispatch(list: bool, task: Option<string>, status: Option<string>, priority: Option<string>): (c: Command)
    ensures list <==> c == ListByMilestone
    ensures c.ShowTask? <==> !list && Given(task)
    ensures c.ShowTask? ==> c.id == Upper(task.value)
    ensures c.FilterTasks? <==> !list && !Given(task) && (Given(status) || Given(priority))
    ensures c.FilterTasks? ==> c.status == status && c.priority == priority
  {
    if list then ListByMilestone
    else if Given(task) then ShowTask(Upper(task.value))
    else if Given(status) || Given(priority) then FilterTasks(status, priority)
    else InteractiveMenu
  }

  /** The entries of the main menu. */
  datatype MenuAction = ViewByMilestone | ViewTaskDetails | StatusFilter | PriorityFilter | Search | Quit | Redisplay

  const MenuKeys: seq<string> := ["1", "2", "3", "4", "5", "q"]
  const MenuActions: seq<MenuAction> := [ViewByMilestone, ViewTaskDetails, StatusFilter, PriorityFilter, Search, Quit]

  /** The main menu's answer, stripped and lowercased, picks the entry with that key; any other answer redraws the menu. */
  function MenuChoice(raw: string): (r: MenuAction)
    ensures forall i :: 0 <= i < |MenuKeys| ==> (Lower(Strip(raw)) == MenuKeys[i] <==> r == MenuActions[i])
    ensures r == Redisplay <==> Lower(Strip(raw)) !in MenuKeys
  {
    MenuEntry(Lower(Strip(raw)))
  }

  /** The branches on the normalised answer `choice`. */
  function MenuEntry(choice: string): (r: MenuAction)
    ensures forall i :: 0 <= i < |MenuKeys| ==> (choice == MenuKeys[i] <==> r == MenuActions[i])
    ensures r == Redisplay <==> choice !in MenuKeys
  {
    if choice == "1" then ViewByMilestone
    else if choice == "2" then ViewTaskDetails
    else if choice == "3" then StatusFilter
    else if choice == "4" then PriorityFilter
    else if choice == "5" then Search
    else if choice == "q" then Quit
    else Redisplay
  }

  /** What the answer to "Select task:" after a listing leads to. */
  datatype Selection = ShowDetail(id: string) | InvalidSelection | NoSelection

  /** An empty answer returns, a key of the map shows that task, anything else is an invalid selection. */
  function SelectFromListing(taskMap: map<string, string>, raw: string): (r: Selection)
    ensures r == NoSelection <==> Strip(raw) == ""
    ensures r.ShowDetail? <==> Strip(raw) in taskMap && Strip(raw) != ""
    ensures r.ShowDetail? ==> r.id == taskMap[Strip(raw)]
  {
    var selection := Strip(raw);
    if selection != "" && selection in taskMap then ShowDetail(taskMap[selection])
    else if selection != "" then InvalidSelection
    else NoSelection
  }
}
