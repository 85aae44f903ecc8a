/**
 * The task records of the curses interface and the pure rules it applies to
 * them:
 * - `EnhancedTask.from_dict` and the extended part of `to_dict`;
 * - `get_filtered_tasks`;
 * - the column layout and title truncation of `draw_task_list`;
 * - the text of `draw_status_bar`;
 * - the status cycle and the view toggle of the key loop.
 *
 * The tool's task dictionary is a sequence of (key, task) pairs in file order.
 */
module EnhancedTasks {
  import opened Wrappers
  import opened Text
  import opened Seqs
  import Priority

  // ---------------------------------------------------------------------------
  // Records
  // ---------------------------------------------------------------------------

  /** A JSON value as `json.load` produces it (numbers: integers only). */
  datatype Json =
    | JNull
    | JBool(b: bool)
    | JNum(n: int)
    | JStr(s: string)
    | JList(items: seq<Json>)
    | JObj(fields: map<string, Json>)

  /** Python truthiness of a JSON value. */
  predicate Truthy(v: Json) {
    match v
    case JNull => false
    case JBool(b) => b
    case JNum(n) => n != 0
    case JStr(s) => s != ""
    case JList(items) => items != []
    case JObj(fields) => fields != map[]
  }

  /** `value or []`: a truthy value is kept, and a falsy one gives way to the empty list. */
  function OrEmptyList(v: Json): (r: Json)
    ensures Truthy(r) <==> Truthy(v)
    ensures Truthy(r) ==> r == v
    ensures !Truthy(r) ==> r == JList([])
  {
    if Truthy(v) then v else JList([])
  }

  /** Applying `or []` again changes nothing, so a task saved and loaded again keeps its lists. */
  lemma OrEmptyListIdempotent(v: Json)
    ensures OrEmptyList(OrEmptyList(v)) == OrEmptyList(v)
  {
  }

  /**
   * An `EnhancedTask`. The base fields are those of the constructor's
   * signature; `details`, `links` and `subtasks` are kept as the JSON values
   * they were loaded as.
   */
  datatype EnhancedTask = EnhancedTask(
    id: string,
    title: string,
    status: string,
    priority: string,
    project: string,
    description: string,
    milestone: string,
    created: Option<string>,
    updated: Option<string>,
    details: Json,
    links: Json,
    subtasks: Json)

  type Entry = (string, EnhancedTask)

  /** A JSON object has each key once. */
  predicate UniqueKeys(store: seq<Entry>) {
    forall i, j :: 0 <= i < j < |store| ==> store[i].0 != store[j].0
  }

  /** Why `from_dict` fails. */
  datatype LoadError =
    | KeyError(key: string)    // `pop` of a missing key
    | TypeError                // the constructor call: an unknown keyword, or no title
    | WrongType(field: string) // a base field that is not a string

  /** The keyword arguments the constructor takes besides the id and the three extended fields. */
  const BaseFields: set<string> :=
    {"title", "status", "priority", "project", "description", "milestone", "created", "updated"}

  /** The fields `to_dict` adds to the base record. */
  const ExtendedKeys: set<string> := {"details", "links", "subtasks"}

  /** A string argument with its default from the constructor's signature. */
  function StrArg(args: map<string, Json>, name: string, default: string): (r: Result<string, LoadError>)
    ensures name !in args ==> r == Ok(default)
    ensures name in args ==> (r.Ok? <==> args[name].JStr?)
    ensures r.Ok? && name in args ==> args[name] == JStr(r.value)
    ensures r.Err? ==> r.error == WrongType(name)
  {
    if name !in args then Ok(default)
    else match args[name]
      case JStr(s) => Ok(s)
      case _ => Err(WrongType(name))
  }

  /** An optional string argument (`created`, `updated`): absent or `null` is `None`, a string is kept. */
  function OptArg(args: map<string, Json>, name: string): (r: Result<Option<string>, LoadError>)
    ensures name !in args ==> r == Ok(None)
    ensures name in args && args[name] == JNull ==> r == Ok(None)
    ensures name in args && args[name].JStr? ==> r == Ok(Some(args[name].s))
    ensures r.Ok? <==> name !in args || args[name] == JNull || args[name].JStr?
    ensures r.Err? ==> r.error == WrongType(name)
  {
    if name !in args then Ok(None)
    else match args[name]
      case JNull => Ok(None)
      case JStr(s) => Ok(Some(s))
      case _ => Err(WrongType(name))
  }

  /** The field `name` is absent or a string. */
  predicate StrOrAbsent(data: map<string, Json>, name: string) {
    name !in data || data[name].JStr?
  }

  /** The field `name` is absent, `null` or a string. */
  predicate OptOrAbsent(data: map<string, Json>, name: string) {
    name !in data || data[name] == JNull || data[name].JStr?
  }

  /** The base fields the model accepts: the six string fields are strings, `created` and `updated` also `null`. */
  predicate BaseTyped(data: map<string, Json>) {
    && StrOrAbsent(data, "title") && StrOrAbsent(data, "status") && StrOrAbsent(data, "priority")
    && StrOrAbsent(data, "project") && StrOrAbsent(data, "description") && StrOrAbsent(data, "milestone")
    && OptOrAbsent(data, "created") && OptOrAbsent(data, "updated")
  }

  /** The string stored under `name`, or the constructor's default for it. */
  function StrField(data: map<string, Json>, name: string, default: string): string {
    if name in data && data[name].JStr? then data[name].s else default
  }

  /** The optional string stored under `name`; absent or `null` is `None`. */
  function OptField(data: map<string, Json>, name: string): Option<string> {
    if name in data && data[name].JStr? then Some(data[name].s) else None
  }

  /** The base fields, once the arguments are known to be acceptable. */
  function BaseTask(id: string, args: map<string, Json>, details: Json, links: Json, subtasks: Json)
    : (r: Result<EnhancedTask, LoadError>)
    ensures r.Ok? <==> BaseTyped(args)
    ensures r.Ok? ==> r.value == EnhancedTask(
      id, StrField(args, "title", ""), StrField(args, "status", "todo"), StrField(args, "priority", "medium"),
      StrField(args, "project", "workspace"), StrField(args, "description", ""), StrField(args, "milestone", ""),
      OptField(args, "created"), OptField(args, "updated"), details, OrEmptyList(links), OrEmptyList(subtasks))
  {
    match StrArg(args, "title", "")
    case Err(e) => Err(e)
    case Ok(title) =>
      match StrArg(args, "status", "todo")
      case Err(e) => Err(e)
      case Ok(status) =>
        match StrArg(args, "priority", "medium")
        case Err(e) => Err(e)
        case Ok(priority) =>
          match StrArg(args, "project", "workspace")
          case Err(e) => Err(e)
          case Ok(project) =>
            match StrArg(args, "description", "")
            case Err(e) => Err(e)
            case Ok(description) =>
              match StrArg(args, "milestone", "")
              case Err(e) => Err(e)
              case Ok(milestone) =>
                match OptArg(args, "created")
                case Err(e) => Err(e)
                case Ok(created) =>
                  match OptArg(args, "updated")
                  case Err(e) => Err(e)
                  case Ok(updated) =>
                    Ok(EnhancedTask(id, title, status, priority, project, description, milestone,
                                    created, updated, details, OrEmptyList(links), OrEmptyList(subtasks)))
  }

  /** A record `from_dict` loads: a string id, a title, only known keys, and base fields of the accepted types. */
  predicate Loadable(data: map<string, Json>) {
    && "id" in data && data["id"].JStr? && "title" in data
    && data.Keys <= BaseFields + ExtendedKeys + {"id"}
    && BaseTyped(data)
  }

  /**
   * `EnhancedTask.from_dict(data)`: pop the id and the three extended fields
   * (with defaults `''`, `[]`, `[]`) from a copy of the record and pass the
   * rest to the constructor as keyword arguments.
   */
  function FromDict(data: map<string, Json>): (r: Result<EnhancedTask, LoadError>)
    ensures "id" !in data ==> r == Err(KeyError("id"))
    ensures "id" in data && (!(data.Keys <= BaseFields + ExtendedKeys + {"id"}) || "title" !in data)
      ==> r == Err(TypeError)
    ensures r.Ok? <==> Loadable(data)
    ensures r.Ok? ==> r.value == EnhancedTask(
      data["id"].s, data["title"].s, StrField(data, "status", "todo"), StrField(data, "priority", "medium"),
      StrField(data, "project", "workspace"), StrField(data, "description", ""), StrField(data, "milestone", ""),
      OptField(data, "created"), OptField(data, "updated"),
      if "details" in data then data["details"] else JStr(""),
      OrEmptyList(if "links" in data then data["links"] else JList([])),
      OrEmptyList(if "subtasks" in data then data["subtasks"] else JList([])))
    ensures r.Ok? ==> r.value.links == if "links" in data && Truthy(data["links"]) then data["links"] else JList([])
    ensures r.Ok? ==>
      r.value.subtasks == if "subtasks" in data && Truthy(data["subtasks"]) then data["subtasks"] else JList([])
  {
    if "id" !in data then Err(KeyError("id"))
    else
      var taskId := data["id"];
      var taskData := data - {"id"};
      var details := if "details" in taskData then taskData["details"] else JStr("");
      var links := if "links" in taskData then taskData["links"] else JList([]);
      var subtasks := if "subtasks" in taskData then taskData["subtasks"] else JList([]);
      var args := taskData - ExtendedKeys;
      if !(args.Keys <= BaseFields) || "title" !in args then
        assert !(args.Keys <= BaseFields) <==> !(data.Keys <= BaseFields + ExtendedKeys + {"id"});
        Err(TypeError)
      else if !taskId.JStr? then
        Err(WrongType("id"))
      else
        BaseAgree(args, data);
        BaseTask(taskId.s, args, details, links, subtasks)
  }

  /** Two records that agree on every base field give the constructor the same base arguments. */
  lemma BaseAgree(a: map<string, Json>, b: map<string, Json>)
    requires forall k :: k in BaseFields ==> (k in a <==> k in b) && (k in a ==> a[k] == b[k])
    ensures BaseTyped(a) <==> BaseTyped(b)
    ensures StrField(a, "title", "") == StrField(b, "title", "")
    ensures StrField(a, "status", "todo") == StrField(b, "status", "todo")
    ensures StrField(a, "priority", "medium") == StrField(b, "priority", "medium")
    ensures StrField(a, "project", "workspace") == StrField(b, "project", "workspace")
    ensures StrField(a, "description", "") == StrField(b, "description", "")
    ensures StrField(a, "milestone", "") == StrField(b, "milestone", "")
    ensures OptField(a, "created") == OptField(b, "created")
    ensures OptField(a, "updated") == OptField(b, "updated")
  {
  }

  /** The three fields `to_dict` writes on top of the base record. */
  function ExtendedFields(t: EnhancedTask): (r: map<string, Json>)
    ensures r.Keys == ExtendedKeys
  {
    map["details" := t.details, "links" := t.links, "subtasks" := t.subtasks]
  }

  /** Writing the three extended fields over a loadable record keeps it loadable, with the same id and base fields. */
  lemma OverExtended(data: map<string, Json>, ext: map<string, Json>)
    requires Loadable(data) && ext.Keys == ExtendedKeys
    ensures Loadable(data + ext) && (data + ext)["id"] == data["id"]
    ensures forall k :: k in BaseFields ==> (k in data + ext <==> k in data) && (k in data ==> (data + ext)[k] == data[k])
  {
    assert forall k :: k in BaseFields + {"id"} ==> k !in ExtendedKeys;
    BaseAgree(data + ext, data);
  }

  /**
   * Writing the extended fields back over the record they were loaded from
   * and loading it again gives the same task: `to_dict` writes `details`,
   * `links` and `subtasks` back unchanged.
   */
  lemma ExtendedRoundTrip(data: map<string, Json>)
    requires FromDict(data).Ok?
    ensures FromDict(data + ExtendedFields(FromDict(data).value)) == FromDict(data)
  {
    var t := FromDict(data).value;
    var data' := data + ExtendedFields(t);
    OverExtended(data, ExtendedFields(t));
    BaseAgree(data', data);
    var links := if "links" in data then data["links"] else JList([]);
    var subtasks := if "subtasks" in data then data["subtasks"] else JList([]);
    OrEmptyListIdempotent(links);
    OrEmptyListIdempotent(subtasks);
    assert FromDict(data').value == t;
  }

  // ---------------------------------------------------------------------------
  // `get_filtered_tasks`
  // ---------------------------------------------------------------------------

  /** A filter field that is set: `if self.filter_status:` is false for `None` and for `''`. */
  predicate Active(f: Option<string>) {
    f.Some? && f.value != ""
  }

  function StatusIs(s: string): Entry -> bool {
    (e: Entry) => e.1.status == s
  }

  function PriorityIs(p: string): Entry -> bool {
    (e: Entry) => e.1.priority == p
  }

  function MilestoneIs(m: string): Entry -> bool {
    (e: Entry) => e.1.milestone == m
  }

  /** The task passes every filter that is set. */
  predicate MatchesFilters(t: EnhancedTask, fs: Option<string>, fp: Option<string>, fm: Option<string>) {
    && (Active(fs) ==> t.status == fs.value)
    && (Active(fp) ==> t.priority == fp.value)
    && (Active(fm) ==> t.milestone == fm.value)
  }

  /** The sort key `(priority_order.get(t.priority, 4), t.milestone, t.id)`, compared as a tuple. */
  predicate TaskLe(a: Entry, b: Entry) {
    var ra, rb := Priority.Rank(a.1.priority), Priority.Rank(b.1.priority);
    || ra < rb
    || (ra == rb && LexLt(a.1.milestone, b.1.milestone))
    || (ra == rb && a.1.milestone == b.1.milestone && LexLe(a.1.id, b.1.id))
  }

  lemma TaskLeTotalPreorder()
    ensures TotalPreorder(TaskLe)
  {
    forall a, b ensures TaskLe(a, b) || TaskLe(b, a) {
      LexLeTotal(a.1.milestone, b.1.milestone);
      LexLeTotal(a.1.id, b.1.id);
    }
    forall a, b, c | TaskLe(a, b) && TaskLe(b, c) ensures TaskLe(a, c) {
      var ma, mb, mc := a.1.milestone, b.1.milestone, c.1.milestone;
      if Priority.Rank(a.1.priority) == Priority.Rank(b.1.priority) == Priority.Rank(c.1.priority) {
        LexLeOfLt(ma, mb);
        LexLeOfLt(mb, mc);
        LexLeTransitive(ma, mb, mc);
        if ma == mc {
          LexLeAntisymmetric(ma, mb);
          LexLeTransitive(a.1.id, b.1.id, c.1.id);
        }
      }
    }
  }

  /** `tasks.sort(key=...)`: a sorted rearrangement (the stability of Python's sort is not stated). */
  function SortTasks(ts: seq<Entry>): (r: seq<Entry>)
    ensures multiset(r) == multiset(ts)
    ensures SortedBy(r, TaskLe)
  {
    TaskLeTotalPreorder();
    InsertionSort(ts, TaskLe)
  }

  /**
   * `get_filtered_tasks`: the tasks passing every filter that is set, sorted
   * by priority rank, then milestone, then id.
   */
  function FilteredTasks(store: seq<Entry>, fs: Option<string>, fp: Option<string>, fm: Option<string>)
    : (r: seq<Entry>)
    ensures forall x :: multiset(r)[x] == if MatchesFilters(x.1, fs, fp, fm) then multiset(store)[x] else 0
    ensures SortedBy(r, TaskLe)
  {
    var a := if Active(fs) then Filter(store, StatusIs(fs.value)) else store;
    var b := if Active(fp) then Filter(a, PriorityIs(fp.value)) else a;
    var c := if Active(fm) then Filter(b, MilestoneIs(fm.value)) else b;
    SortTasks(c)
  }

  /**
   * The filtered list holds exactly the tasks passing the filters. Without
   * filters it is a rearrangement of all tasks, and it is never longer than
   * the store.
   */
  lemma FilteredTasksProperties(store: seq<Entry>, fs: Option<string>, fp: Option<string>, fm: Option<string>)
    ensures var r := FilteredTasks(store, fs, fp, fm);
      && (forall e :: e in r <==> e in store && MatchesFilters(e.1, fs, fp, fm))
      && (!Active(fs) && !Active(fp) && !Active(fm) ==> multiset(r) == multiset(store))
      && |r| <= |store|
  {
    var r := FilteredTasks(store, fs, fp, fm);
    forall e ensures e in r <==> e in store && MatchesFilters(e.1, fs, fp, fm) {
      assert e in r <==> multiset(r)[e] > 0;
      assert e in store <==> multiset(store)[e] > 0;
    }
    assert multiset(r) <= multiset(store) by {
      forall x ensures multiset(r)[x] <= multiset(store)[x] {
      }
    }
    assert |multiset(r)| <= |multiset(store)| by {
      MultisetSizeMonotone(multiset(r), multiset(store));
    }
  }

  lemma MultisetSizeMonotone<T>(a: multiset<T>, b: multiset<T>)
    requires a <= b
    ensures |a| <= |b|
  {
    assert b == a + (b - a);
  }

  // ---------------------------------------------------------------------------
  // `draw_task_list`: column widths, title truncation, the priority marker
  // ---------------------------------------------------------------------------

  datatype Widths = Widths(id: int, status: int, pri: int, m: int, title: int)

  function Min(a: int, b: int): int { if a <= b then a else b }
  function Max(a: int, b: int): int { if a >= b then a else b }

  /** The column widths for a list `listWidth` wide; a list narrower than 30 is not drawn. */
  function ColumnWidths(listWidth: int): (r: Option<Widths>)
    ensures r.None? <==> listWidth < 30
    ensures r.Some? ==> r.value.id <= 6 && r.value.status <= 8 && r.value.title >= 10
    ensures r.Some? ==> r.value.pri == 2 && r.value.m == 2
  {
    if listWidth < 30 then None
    else
      var idWidth := Min(6, listWidth / 5);
      var statusWidth := Min(8, listWidth / 4);
      var priWidth := 2;
      var mWidth := 2;
      Some(Widths(idWidth, statusWidth, priWidth, mWidth,
                  Max(10, listWidth - idWidth - statusWidth - priWidth - mWidth - 5)))
  }

  /** `f"{s:<w}"`: pads with spaces to `w`, never cuts. */
  function PadRight(s: string, w: int): (r: string)
    ensures |r| == Max(|s|, w)
    ensures r[..|s|] == s
    ensures forall i :: |s| <= i < |r| ==> r[i] == ' '
    decreases w - |s|
  {
    if |s| >= w then s else PadRight(s + " ", w)
  }

  /** The header row of the list. */
  function Header(w: Widths): (r: string)
    ensures |r| == Max(2, w.id) + Max(6, w.status) + Max(1, w.pri) + Max(1, w.m) + Max(5, w.title) + 4
    ensures r[..2] == "ID"
  {
    PadRight("ID", w.id) + " " + PadRight("Status", w.status) + " " + PadRight("P", w.pri) + " "
      + PadRight("M", w.m) + " " + PadRight("Title", w.title)
  }

  /**
   * From width 33 on, the columns and their four separators fill exactly
   * `listWidth - 1` characters, so `header[:min(list_width-1, len(header))]`
   * keeps the header whole. Between 30 and 32 the header is longer and is cut.
   */
  lemma HeaderWidth(listWidth: int)
    requires listWidth >= 30
    ensures var h := Header(ColumnWidths(listWidth).value);
      && (listWidth >= 33 ==> |h| == listWidth - 1)
      && (listWidth < 33 ==> |h| > listWidth - 1)
  {
  }

  /** `pri_map.get(task.priority, '-')`. */
  function PriorityMarker(p: string): (r: string)
    ensures |r| == Max(1, 3 - Priority.Rank(p))
    ensures r == "-" <==> p != "critical" && p != "high" && p != "medium"
    ensures r != "-" ==> forall i :: 0 <= i < |r| ==> r[i] == '!'
  {
    if p == "critical" then "!!!"
    else if p == "high" then "!!"
    else if p == "medium" then "!"
    else "-"
  }

  /** `task.title[:title_width-3] + '...'` when the title is longer than its column; the column is at least 10 wide. */
  function TruncateTitle(title: string, titleWidth: int): (r: string)
    requires titleWidth >= 3
    ensures |r| <= titleWidth
    ensures |title| <= titleWidth ==> r == title
    ensures |title| > titleWidth ==> |r| == titleWidth && r == title[..titleWidth - 3] + "..."
  {
    if |title| <= titleWidth then title else title[..titleWidth - 3] + "..."
  }

  /** `task.milestone or '-'`. */
  function MilestoneShown(m: string): string {
    if m == "" then "-" else m
  }

  /** One row of the list (the line drawn for the selected task). */
  function Row(t: EnhancedTask, w: Widths): (r: string)
    requires w.title >= 3
    ensures |r| == Max(|t.id|, w.id) + Max(|t.status|, w.status) + Max(|PriorityMarker(t.priority)|, w.pri)
      + Max(|MilestoneShown(t.milestone)|, w.m) + w.title + 4
    ensures r[..|t.id|] == t.id
  {
    PadRight(t.id, w.id) + " " + PadRight(t.status, w.status) + " " + PadRight(PriorityMarker(t.priority), w.pri)
      + " " + PadRight(MilestoneShown(t.milestone), w.m) + " " + PadRight(TruncateTitle(t.title, w.title), w.title)
  }

  /**
   * A row whose id, status and milestone fit their columns is as wide as
   * the header, except for a critical task: its marker `!!!` is one wider
   * than the two-character priority column, and so is the row.
   */
  lemma RowWidth(t: EnhancedTask, listWidth: int)
    requires listWidth >= 30
    requires var w := ColumnWidths(listWidth).value;
      |t.id| <= w.id && |t.status| <= w.status && |MilestoneShown(t.milestone)| <= w.m
    ensures var w := ColumnWidths(listWidth).value;
      |Row(t, w)| == |Header(w)| + (if t.priority == "critical" then 1 else 0)
  {
  }

  // ---------------------------------------------------------------------------
  // `draw_status_bar`
  // ---------------------------------------------------------------------------

  /** The labels of the filters that are set, in the order status, priority, milestone. */
  function FilterLabels(fs: Option<string>, fp: Option<string>, fm: Option<string>): (r: seq<string>)
    ensures |r| == (if Active(fs) then 1 else 0) + (if Active(fp) then 1 else 0) + (if Active(fm) then 1 else 0)
    ensures Active(fs) ==> r[0] == "Status:" + fs.value
    ensures Active(fm) ==> r[|r| - 1] == "Milestone:" + fm.value
    ensures Active(fp) ==> r[if Active(fs) then 1 else 0] == "Priority:" + fp.value
  {
    (if Active(fs) then ["Status:" + fs.value] else [])
      + (if Active(fp) then ["Priority:" + fp.value] else [])
      + (if Active(fm) then ["Milestone:" + fm.value] else [])
  }

  const StatusTitle: string := "AppFlowy Studios Roadmap \U{2502} Tasks: "

  /** The status bar: the counts, then the active filters joined by `", "`. */
  function StatusBar(filtered: nat, total: nat, labels: seq<string>): (r: string)
    ensures StartsWith(r, StatusTitle + NatToString(filtered) + "/" + NatToString(total))
    ensures labels == [] ==> r == StatusTitle + NatToString(filtered) + "/" + NatToString(total)
    ensures labels != [] ==>
      r == StatusTitle + NatToString(filtered) + "/" + NatToString(total) + " \U{2502} Filters: " + Join(", ", labels)
  {
    var status := StatusTitle + NatToString(filtered) + "/" + NatToString(total);
    if labels != [] then status + " \U{2502} Filters: " + Join(", ", labels) else status
  }

  /** Every label of a set filter appears in the bar. */
  lemma StatusBarShowsLabel(filtered: nat, total: nat, labels: seq<string>, k: nat)
    requires k < |labels|
    ensures exists i :: OccursAt(StatusBar(filtered, total, labels), labels[k], i)
  {
    var pre := StatusTitle + NatToString(filtered) + "/" + NatToString(total) + " \U{2502} Filters: ";
    var joined := Join(", ", labels);
    assert StatusBar(filtered, total, labels) == pre + joined;
    JoinSliceOccurs(", ", labels, k, k + 1);
    assert Join(", ", labels[k..k + 1]) == labels[k];
    var i :| OccursAt(joined, labels[k], i);
    assert (pre + joined)[|pre| + i..|pre| + i + |labels[k]|] == joined[i..i + |labels[k]|];
    assert OccursAt(pre + joined, labels[k], |pre| + i);
  }

  // ---------------------------------------------------------------------------
  // The key loop's pure rules
  // ---------------------------------------------------------------------------

  /** `['todo', 'in_progress', 'done', 'todo']`. */
  const StatusCycle: seq<string> := ["todo", "in_progress", "done", "todo"]

  /** The status after the space key: the next entry of the cycle, from its first occurrence. */
  function NextStatus(status: string): (r: string)
    ensures status == "todo" ==> r == "in_progress"
    ensures status == "in_progress" ==> r == "done"
    ensures status == "done" ==> r == "todo"
    ensures status !in StatusCycle ==> r == "in_progress"
  {
    var currentIdx := if status in StatusCycle then IndexOf(StatusCycle, status) else 0;
    StatusCycle[currentIdx + 1]
  }

  /** Three presses bring a task of the cycle back to its status; any other status joins the cycle. */
  lemma NextStatusCycle(status: string)
    ensures NextStatus(status) in {"todo", "in_progress", "done"}
    ensures status in {"todo", "in_progress", "done"} ==> NextStatus(NextStatus(NextStatus(status))) == status
  {
    if status !in StatusCycle {
    }
  }

  /** The `v` key: `'list' if self.view_mode == 'split' else 'split'`. */
  function ToggleView(mode: string): (r: string)
    ensures r in {"split", "list"}
    ensures mode in {"split", "list"} ==> r != mode
  {
    if mode == "split" then "list" else "split"
  }

  /** Pressing `v` twice restores the view. */
  lemma ToggleViewTwice(mode: string)
    requires mode in {"split", "list"}
    ensures ToggleView(ToggleView(mode)) == mode
  {
  }
}
