/**
 * `list_tasks_by_milestone` of the modern viewer: the tasks are grouped by
 * milestone, the milestones are printed in ascending order, the tasks of a
 * milestone by priority rank and then id, and in interactive mode each printed
 * card gets the next number, recorded in a map from that number to the task id.
 */
module MilestoneListing {
  import opened Wrappers
  import opened Text
  import opened Seqs
  import opened Tasks
  import Priority

  /** `task.get('milestone', 'Unassigned')`. */
  function MilestoneOf(t: Task): string {
    t.milestone.GetOr("Unassigned")
  }

  /** `priority_order.get(task.get('priority', 'low'), 4)`. */
  function RankOf(t: Task): nat {
    Priority.Rank(t.priority.GetOr("low"))
  }

  /** The key `(rank, task_id)` of the sort within one milestone, compared as a tuple. */
  predicate GroupLe(a: Entry, b: Entry) {
    RankOf(a.1) < RankOf(b.1) || (RankOf(a.1) == RankOf(b.1) && LexLe(a.0, b.0))
  }

  /** The order in which the cards are printed: by milestone, then by the key within the milestone. */
  predicate DisplayLe(a: Entry, b: Entry) {
    LexLt(MilestoneOf(a.1), MilestoneOf(b.1)) || (MilestoneOf(a.1) == MilestoneOf(b.1) && GroupLe(a, b))
  }

  lemma LexLeTotalPreorder()
    ensures TotalPreorder(LexLe)
  {
    forall a, b ensures LexLe(a, b) || LexLe(b, a) {
      LexLeTotal(a, b);
    }
    forall a, b, c | LexLe(a, b) && LexLe(b, c) ensures LexLe(a, c) {
      LexLeTransitive(a, b, c);
    }
  }

  lemma GroupLeTotalPreorder()
    ensures TotalPreorder(GroupLe)
  {
    forall a, b ensures GroupLe(a, b) || GroupLe(b, a) {
      LexLeTotal(a.0, b.0);
    }
    forall a, b, c | GroupLe(a, b) && GroupLe(b, c) ensures GroupLe(a, c) {
      if RankOf(a.1) == RankOf(b.1) == RankOf(c.1) {
        LexLeTransitive(a.0, b.0, c.0);
      }
    }
  }

  lemma DisplayLeMilestones(a: Entry, b: Entry)
    requires DisplayLe(a, b)
    ensures LexLe(MilestoneOf(a.1), MilestoneOf(b.1))
  {
    LexLeOfLt(MilestoneOf(a.1), MilestoneOf(b.1));
  }

  lemma DisplayLeTotalPreorder()
    ensures TotalPreorder(DisplayLe)
  {
    forall a, b ensures DisplayLe(a, b) || DisplayLe(b, a) {
      LexLeTotal(MilestoneOf(a.1), MilestoneOf(b.1));
      LexLeTotal(a.0, b.0);
    }
    forall a, b, c | DisplayLe(a, b) && DisplayLe(b, c) ensures DisplayLe(a, c) {
      var ma, mb, mc := MilestoneOf(a.1), MilestoneOf(b.1), MilestoneOf(c.1);
      DisplayLeMilestones(a, b);
      DisplayLeMilestones(b, c);
      LexLeTransitive(ma, mb, mc);
      if ma == mc {
        LexLeAntisymmetric(ma, mb);
        GroupLeTotalPreorder();
      }
    }
  }

  /** Two entries that each sort no later than the other have the same task id. */
  lemma DisplayLeAntisymmetric(a: Entry, b: Entry)
    requires DisplayLe(a, b) && DisplayLe(b, a)
    ensures a.0 == b.0
  {
    DisplayLeMilestones(a, b);
    DisplayLeMilestones(b, a);
    LexLeAntisymmetric(MilestoneOf(a.1), MilestoneOf(b.1));
    LexLeAntisymmetric(a.0, b.0);
  }

  // ---------------------------------------------------------------------------
  // The specification of the listing
  // ---------------------------------------------------------------------------

  function InMilestone(m: string): Entry -> bool {
    (e: Entry) => MilestoneOf(e.1) == m
  }

  /** `milestones[m]`: the tasks of milestone `m`, in store order. */
  function Group(ts: Store, m: string): (r: Store)
    ensures forall e :: e in r <==> e in ts && MilestoneOf(e.1) == m
    ensures forall x :: multiset(r)[x] == if MilestoneOf(x.1) == m then multiset(ts)[x] else 0
  {
    Filter(ts, InMilestone(m))
  }

  /** `sorted(tasks, key=lambda t: (priority rank, task id))`. */
  function SortGroup(g: Store): (r: Store)
    ensures multiset(r) == multiset(g)
    ensures SortedBy(r, GroupLe)
  {
    GroupLeTotalPreorder();
    InsertionSort(g, GroupLe)
  }

  /** `sorted(milestones[m], key=...)`: the printed group of milestone `m`. */
  function SortedGroup(ts: Store, m: string): (r: Store)
    ensures multiset(r) == multiset(Group(ts, m))
    ensures SortedBy(r, GroupLe)
  {
    SortGroup(Group(ts, m))
  }

  /** `milestones.keys()`: every milestone of the store once, in order of first appearance. */
  function MilestoneKeys(ts: Store): (ks: seq<string>)
    ensures NoDuplicates(ks)
    ensures forall m :: m in ks <==> exists e :: e in ts && MilestoneOf(e.1) == m
    decreases |ts|
  {
    if |ts| == 0 then []
    else
      var init, last := ts[..|ts| - 1], ts[|ts| - 1];
      assert ts == init + [last];
      var ks := MilestoneKeys(init);
      var m := MilestoneOf(last.1);
      if m in ks then ks else ks + [m]
  }

  /** Python's `sorted` on a list of strings. */
  function SortStrings(ks: seq<string>): (r: seq<string>)
    ensures multiset(r) == multiset(ks)
    ensures SortedBy(r, LexLe)
  {
    LexLeTotalPreorder();
    InsertionSort(ks, LexLe)
  }

  /** `sorted(milestones.keys())`. */
  function SortedMilestones(ts: Store): (ms: seq<string>)
    ensures multiset(ms) == multiset(MilestoneKeys(ts))
    ensures SortedBy(ms, LexLe)
    ensures NoDuplicates(ms)
  {
    var ks := MilestoneKeys(ts);
    NoDuplicatesPermutation(ks, SortStrings(ks));
    SortStrings(ks)
  }

  /** The cards printed for the milestones `ms`, one sorted group after another. */
  function Cards(ts: Store, ms: seq<string>): Store
    decreases |ms|
  {
    if |ms| == 0 then [] else Cards(ts, ms[..|ms| - 1]) + SortedGroup(ts, ms[|ms| - 1])
  }

  lemma CardsSnoc(ts: Store, ms: seq<string>, j: nat)
    requires j < |ms|
    ensures Cards(ts, ms[..j + 1]) == Cards(ts, ms[..j]) + SortedGroup(ts, ms[j])
  {
    assert ms[..j + 1][..j] == ms[..j];
  }

  /**
   * All cards of the listing, in the order they are printed: every task
   * exactly once, in display order.
   */
  function DisplayOrder(ts: Store): (r: Store)
    ensures multiset(r) == multiset(ts)
    ensures SortedBy(r, DisplayLe)
  {
    var ms := SortedMilestones(ts);
    CardsOfAllMilestones(ts);
    CardsSorted(ts, ms);
    Cards(ts, ms)
  }

  lemma NoDuplicatesInit<T>(s: seq<T>)
    requires |s| > 0 && NoDuplicates(s)
    ensures NoDuplicates(s[..|s| - 1]) && s[|s| - 1] !in s[..|s| - 1]
  {
  }

  /** The cards of distinct milestones hold each task of those milestones as often as the store does. */
  lemma {:induction false} CardsCount(ts: Store, ms: seq<string>)
    requires NoDuplicates(ms)
    ensures forall x :: multiset(Cards(ts, ms))[x] == if MilestoneOf(x.1) in ms then multiset(ts)[x] else 0
    decreases |ms|
  {
    if |ms| > 0 {
      var init, m := ms[..|ms| - 1], ms[|ms| - 1];
      NoDuplicatesInit(ms);
      CardsCount(ts, init);
      assert ms == init + [m];
      var block := SortedGroup(ts, m);
      assert multiset(Cards(ts, ms)) == multiset(Cards(ts, init)) + multiset(block);
    }
  }

  /** The cards of all milestones of the store hold every task exactly once. */
  lemma CardsOfAllMilestones(ts: Store)
    ensures multiset(Cards(ts, SortedMilestones(ts))) == multiset(ts)
  {
    var ms := SortedMilestones(ts);
    CardsCount(ts, ms);
    forall x ensures multiset(Cards(ts, ms))[x] == multiset(ts)[x] {
      if x in ts {
        MilestoneListed(ts, x);
      }
    }
    assert multiset(Cards(ts, ms)) == multiset(ts);
  }

  /** The milestone of every task is among the sorted milestones. */
  lemma MilestoneListed(ts: Store, x: Entry)
    requires x in ts
    ensures MilestoneOf(x.1) in SortedMilestones(ts)
  {
    var m := MilestoneOf(x.1);
    assert m in MilestoneKeys(ts);
    assert m in multiset(SortedMilestones(ts));
  }

  lemma SortedInit<T>(s: seq<T>, le: (T, T) -> bool)
    requires |s| > 0 && SortedBy(s, le)
    ensures SortedBy(s[..|s| - 1], le)
  {
  }

  /** A sorted group holds tasks of its milestone only, in display order. */
  lemma SortedGroupFacts(ts: Store, m: string)
    ensures forall e :: e in SortedGroup(ts, m) ==> e in ts && MilestoneOf(e.1) == m
    ensures SortedBy(SortedGroup(ts, m), DisplayLe)
  {
    var block := SortedGroup(ts, m);
    forall e | e in block ensures e in ts && MilestoneOf(e.1) == m {
      assert e in multiset(block);
    }
    forall i, j | 0 <= i < j < |block| ensures DisplayLe(block[i], block[j]) {
      assert block[i] in block && block[j] in block;
      assert GroupLe(block[i], block[j]);
    }
  }

  /** The cards of ascending milestones are in display order, and only those milestones appear. */
  lemma {:induction false} CardsSorted(ts: Store, ms: seq<string>)
    requires NoDuplicates(ms) && SortedBy(ms, LexLe)
    ensures SortedBy(Cards(ts, ms), DisplayLe)
    ensures forall e :: e in Cards(ts, ms) ==> e in ts && MilestoneOf(e.1) in ms
    decreases |ms|
  {
    if |ms| > 0 {
      var init, m := ms[..|ms| - 1], ms[|ms| - 1];
      NoDuplicatesInit(ms);
      SortedInit(ms, LexLe);
      CardsSorted(ts, init);
      var prefix, block := Cards(ts, init), SortedGroup(ts, m);
      SortedGroupFacts(ts, m);
      forall x, y | x in prefix && y in block ensures DisplayLe(x, y) {
        var k :| 0 <= k < |init| && init[k] == MilestoneOf(x.1);
        assert LexLe(ms[k], ms[|ms| - 1]) && ms[k] != ms[|ms| - 1];
      }
      SortedConcat(prefix, block, DisplayLe);
      assert Cards(ts, ms) == prefix + block;
      forall e | e in Cards(ts, ms) ensures e in ts && MilestoneOf(e.1) in ms {
        if e in prefix {
          assert MilestoneOf(e.1) in init;
        }
      }
    }
  }

  /** In a store with distinct ids, an id names one entry. */
  lemma SameIdSameEntry(ts: Store, x: Entry, y: Entry)
    requires UniqueIds(ts) && x in ts && y in ts && x.0 == y.0
    ensures x == y
  {
    var i :| 0 <= i < |ts| && ts[i] == x;
    var j :| 0 <= j < |ts| && ts[j] == y;
    assert i == j;
  }

  /** On the entries of a store with distinct ids, the display order leaves no ties. */
  lemma DisplayLeStrictOn(ts: Store, a: Store)
    requires UniqueIds(ts) && multiset(a) == multiset(ts)
    ensures forall x, y :: x in a && y in a && DisplayLe(x, y) && DisplayLe(y, x) ==> x == y
  {
    forall x, y | x in a && y in a && DisplayLe(x, y) && DisplayLe(y, x) ensures x == y {
      DisplayLeAntisymmetric(x, y);
      assert x in multiset(ts) && y in multiset(ts);
      SameIdSameEntry(ts, x, y);
    }
  }

  /** One sort of the whole store by (milestone, priority rank, task id). */
  function SortedByDisplay(ts: Store): (r: Store)
    ensures multiset(r) == multiset(ts)
    ensures SortedBy(r, DisplayLe)
  {
    DisplayLeTotalPreorder();
    InsertionSort(ts, DisplayLe)
  }

  /**
   * The grouped listing is the same as one sort of the whole store by
   * (milestone, priority rank, task id), since the ids of a store are distinct.
   */
  lemma DisplayOrderIsSort(ts: Store)
    requires UniqueIds(ts)
    ensures DisplayOrder(ts) == SortedByDisplay(ts)
  {
    DisplayLeTotalPreorder();
    var a := DisplayOrder(ts);
    DisplayLeStrictOn(ts, a);
    SortedIsSort(a, ts, DisplayLe);
  }

  // ---------------------------------------------------------------------------
  // The numbering
  // ---------------------------------------------------------------------------

  /** `task_map` after the cards `cards` have been numbered: "1" up to "n", "k" naming the k-th card's id. */
  predicate Numbered(taskMap: map<string, string>, cards: Store) {
    && (forall key :: key in taskMap ==> exists k :: 1 <= k <= |cards| && key == NatToString(k))
    && (forall k :: 1 <= k <= |cards| ==> NatToString(k) in taskMap && taskMap[NatToString(k)] == cards[k - 1].0)
  }

  lemma NumberedExtend(taskMap: map<string, string>, cards: Store, e: Entry)
    requires Numbered(taskMap, cards)
    ensures Numbered(taskMap[NatToString(|cards| + 1) := e.0], cards + [e])
  {
    var n := |cards| + 1;
    var tm, cs := taskMap[NatToString(n) := e.0], cards + [e];
    forall key | key in tm ensures exists k :: 1 <= k <= |cs| && key == NatToString(k) {
      if key != NatToString(n) {
        var k :| 1 <= k <= |cards| && key == NatToString(k);
        assert 1 <= k <= |cs|;
      }
    }
    forall k | 1 <= k <= |cs| ensures NatToString(k) in tm && tm[NatToString(k)] == cs[k - 1].0 {
      if k < n {
        if NatToString(k) == NatToString(n) {
          NatToStringInjective(k, n);
        }
        assert cs[k - 1] == cards[k - 1];
      }
    }
  }

  /** The `milestones` dict after the grouping loop has consumed `ts`. */
  function GroupMap(ts: Store): map<string, Store>
    decreases |ts|
  {
    if |ts| == 0 then map[]
    else
      var g := GroupMap(ts[..|ts| - 1]);
      var e := ts[|ts| - 1];
      var m := MilestoneOf(e.1);
      g[m := (if m in g then g[m] else []) + [e]]
  }

  /** The grouping loop creates a list for each milestone key and no other. */
  lemma {:induction false} GroupMapKeys(ts: Store)
    ensures forall m :: m in GroupMap(ts) <==> m in MilestoneKeys(ts)
    decreases |ts|
  {
    if |ts| > 0 {
      GroupMapKeys(ts[..|ts| - 1]);
    }
  }

  /** The grouping loop files every task under its milestone, in store order, and under no other. */
  lemma {:induction false} GroupMapGroups(ts: Store)
    ensures forall m :: Group(ts, m) == if m in GroupMap(ts) then GroupMap(ts)[m] else []
    decreases |ts|
  {
    if |ts| > 0 {
      GroupMapGroups(ts[..|ts| - 1]);
      forall m ensures Group(ts, m) == if m in GroupMap(ts) then GroupMap(ts)[m] else [] {
        GroupMapStep(ts, m);
      }
    }
  }

  /** One task more: the grouping loop's list for `m` grows exactly as `Group(ts, m)` does. */
  lemma GroupMapStep(ts: Store, m: string)
    requires |ts| > 0
    requires var init := ts[..|ts| - 1];
      Group(init, m) == if m in GroupMap(init) then GroupMap(init)[m] else []
    ensures Group(ts, m) == if m in GroupMap(ts) then GroupMap(ts)[m] else []
  {
    GroupLast(ts, m);
  }

  /** The tasks of `m` in a store are those of all but its last task, then the last one if it is of `m`. */
  lemma GroupLast(ts: Store, m: string)
    requires |ts| > 0
    ensures var e := ts[|ts| - 1];
      Group(ts, m) == Group(ts[..|ts| - 1], m) + if MilestoneOf(e.1) == m then [e] else []
  {
    FilterInitLast(ts, InMilestone(m));
  }

  /**
   * The first loop of `list_tasks_by_milestone`: `milestones[m]` lists the
   * tasks of milestone `m` in store order, and `keys` is `milestones.keys()`.
   */
  method GroupByMilestone(ts: Store) returns (groups: map<string, Store>, keys: seq<string>)
    ensures keys == MilestoneKeys(ts)
    ensures forall m :: m in groups <==> m in keys
    ensures forall m :: m in groups ==> groups[m] == Group(ts, m)
  {
    groups := map[];
    keys := [];
    for i := 0 to |ts|
      invariant groups == GroupMap(ts[..i])
      invariant keys == MilestoneKeys(ts[..i])
      invariant forall m :: m in groups <==> m in keys
    {
      var m := MilestoneOf(ts[i].1);
      assert ts[..i + 1][..i] == ts[..i];
      if m !in groups {
        groups := groups[m := []];
        keys := keys + [m];
      }
      groups := groups[m := groups[m] + [ts[i]]];
    }
    assert ts[..|ts|] == ts;
    GroupMapKeys(ts);
    GroupMapGroups(ts);
  }

  /**
   * The inner loop of `list_tasks_by_milestone`: print the cards of one sorted
   * group, in interactive mode giving each the next number.
   */
  method NumberGroup(block: Store, cards: Store, taskMap: map<string, string>, taskNumber: nat, interactive: bool)
    returns (cards': Store, taskMap': map<string, string>, taskNumber': nat)
    requires taskNumber == if interactive then |cards| + 1 else 1
    requires interactive ==> Numbered(taskMap, cards)
    ensures cards' == cards + block
    ensures taskNumber' == if interactive then |cards'| + 1 else 1
    ensures interactive ==> Numbered(taskMap', cards')
  {
    cards', taskMap', taskNumber' := cards, taskMap, taskNumber;
    for q := 0 to |block|
      invariant cards' == cards + block[..q]
      invariant taskNumber' == if interactive then |cards'| + 1 else 1
      invariant interactive ==> Numbered(taskMap', cards')
    {
      if interactive {
        NumberedExtend(taskMap', cards', block[q]);
        taskMap' := taskMap'[NatToString(taskNumber') := block[q].0];
        taskNumber' := taskNumber' + 1;
      }
      TakeSnoc(block, q);
      cards' := cards' + [block[q]];
    }
    assert block[..|block|] == block;
  }

  /**
   * `list_tasks_by_milestone(interactive)`: `cards` are the task cards in the
   * order printed; the map is returned in interactive mode only.
   */
  method ListTasksByMilestone(ts: Store, interactive: bool) returns (cards: Store, taskMap: Option<map<string, string>>)
    ensures cards == DisplayOrder(ts)
    ensures multiset(cards) == multiset(ts)
    ensures SortedBy(cards, DisplayLe)
    ensures taskMap.Some? <==> interactive
    ensures taskMap.Some? ==> Numbered(taskMap.value, cards)
  {
    var groups, keys := GroupByMilestone(ts);
    var ms := SortStrings(keys);

    cards := [];
    var taskNumber := 1;
    var tm: map<string, string> := map[];
    for j := 0 to |ms|
      invariant cards == Cards(ts, ms[..j])
      invariant taskNumber == if interactive then |cards| + 1 else 1
      invariant interactive ==> Numbered(tm, cards)
    {
      assert ms[j] in multiset(keys);
      assert groups[ms[j]] == Group(ts, ms[j]);
      var block := SortGroup(groups[ms[j]]);
      assert block == SortedGroup(ts, ms[j]);
      CardsSnoc(ts, ms, j);
      cards, tm, taskNumber := NumberGroup(block, cards, tm, taskNumber, interactive);
    }
    assert ms[..|ms|] == ms;
    assert ms == SortedMilestones(ts);
    taskMap := if interactive then Some(tm) else None;
  }

  /** Typing the number printed above the k-th card selects that card's task. */
  lemma SelectNumberedCard(taskMap: map<string, string>, cards: Store, k: nat)
    requires Numbered(taskMap, cards) && 1 <= k <= |cards|
    ensures SelectFromListing(taskMap, NatToString(k)) == ShowDetail(cards[k - 1].0)
  {
    StripDigits(NatToString(k));
  }

  /**
   * Numbering a rearrangement of a store with distinct ids: the map has one
   * entry per task, distinct numbers name distinct tasks, and every task has a number.
   */
  lemma NumberedBijection(taskMap: map<string, string>, cards: Store, ts: Store)
    requires Numbered(taskMap, cards) && multiset(cards) == multiset(ts) && UniqueIds(ts)
    ensures forall a, b :: a in taskMap && b in taskMap && taskMap[a] == taskMap[b] ==> a == b
    ensures forall e :: e in ts ==> exists key :: key in taskMap && taskMap[key] == e.0
    ensures forall key :: key in taskMap ==> exists e :: e in ts && e.0 == taskMap[key]
  {
    assert NoDuplicates(ts);
    NoDuplicatesPermutation(ts, cards);
    forall a, b | a in taskMap && b in taskMap && taskMap[a] == taskMap[b] ensures a == b {
      var ka :| 1 <= ka <= |cards| && a == NatToString(ka);
      var kb :| 1 <= kb <= |cards| && b == NatToString(kb);
      var x, y := cards[ka - 1], cards[kb - 1];
      assert x in multiset(ts) && y in multiset(ts);
      var i :| 0 <= i < |ts| && ts[i] == x;
      var j :| 0 <= j < |ts| && ts[j] == y;
      assert i == j;
    }
    forall e | e in ts ensures exists key :: key in taskMap && taskMap[key] == e.0 {
      assert e in multiset(cards);
      var i :| 0 <= i < |cards| && cards[i] == e;
      assert taskMap[NatToString(i + 1)] == e.0;
    }
    forall key | key in taskMap ensures exists e :: e in ts && e.0 == taskMap[key] {
      var k :| 1 <= k <= |cards| && key == NatToString(k);
      assert cards[k - 1] in multiset(ts);
    }
  }
}
