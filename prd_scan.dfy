/**
 * Extraction of one task's section from the product requirements document
 * (`load_prd_content` of the modern viewer).
 *
 * The file is split into lines. The first line carrying the task's tag opens
 * the section. A tagged header line sets the section level to the length of
 * its first space-separated word, e.g. 2 for `## ...`. Capture then stops
 * before the first untagged header whose level is at most the section level
 * (when that level is positive) and which does not mention the task id.
 *
 * The two regular-expression searches are parameters:
 * - `isTrigger(line)` is the tag search, `[task-id: ID]` ignoring case;
 * - `mentionsId(line)` is the search for the id itself.
 */
module PrdScan {
  import opened Text

  predicate IsHeader(line: string) {
    |line| > 0 && line[0] == '#'
  }

  /** `len(line.split(' ')[0])`. */
  function HeaderLevel(line: string): nat {
    |Split(line, ' ')[0]|
  }

  /**
   * The section level in force when line `k` is reached: the level of the
   * last tagged header before it, or 0 when there is none.
   */
  function LevelAt(lines: seq<string>, k: nat, isTrigger: string -> bool): nat
    requires k <= |lines|
  {
    if k == 0 then 0
    else if isTrigger(lines[k - 1]) && IsHeader(lines[k - 1]) then HeaderLevel(lines[k - 1])
    else LevelAt(lines, k - 1, isTrigger)
  }

  /** Line `k` ends a section that is being captured. */
  predicate StopsAt(lines: seq<string>, k: nat, isTrigger: string -> bool, mentionsId: string -> bool)
    requires k < |lines|
  {
    var line := lines[k];
    var level := LevelAt(lines, k, isTrigger);
    && !isTrigger(line)
    && IsHeader(line)
    && HeaderLevel(line) <= level
    && level > 0
    && !mentionsId(line)
  }

  /** The first tagged line at or after `from`, or `|lines|` when there is none. */
  function FirstTrigger(lines: seq<string>, isTrigger: string -> bool, from: nat): (f: nat)
    requires from <= |lines|
    ensures from <= f <= |lines|
    ensures f < |lines| ==> isTrigger(lines[f])
    ensures forall k :: from <= k < f ==> !isTrigger(lines[k])
    decreases |lines| - from
  {
    if from == |lines| then from
    else if isTrigger(lines[from]) then from
    else FirstTrigger(lines, isTrigger, from + 1)
  }

  /** The first line at or after `k` that ends the section, or `|lines|` when there is none. */
  function NextStop(lines: seq<string>, k: nat, isTrigger: string -> bool, mentionsId: string -> bool): (e: nat)
    requires k <= |lines|
    ensures k <= e <= |lines|
    ensures e < |lines| ==> StopsAt(lines, e, isTrigger, mentionsId)
    ensures forall j :: k <= j < e ==> !StopsAt(lines, j, isTrigger, mentionsId)
    decreases |lines| - k
  {
    if k == |lines| then k
    else if StopsAt(lines, k, isTrigger, mentionsId) then k
    else NextStop(lines, k + 1, isTrigger, mentionsId)
  }

  /**
   * The captured lines: from the first tagged line up to the first line that
   * ends the section, or to the end of the file.
   */
  function Section(lines: seq<string>, isTrigger: string -> bool, mentionsId: string -> bool): (r: seq<string>)
    ensures |r| <= |lines|
    ensures r != [] ==> isTrigger(r[0])
  {
    var f := FirstTrigger(lines, isTrigger, 0);
    if f == |lines| then [] else lines[f..NextStop(lines, f + 1, isTrigger, mentionsId)]
  }

  lemma LevelStep(lines: seq<string>, i: nat, isTrigger: string -> bool)
    requires i < |lines|
    ensures LevelAt(lines, i + 1, isTrigger) ==
      if isTrigger(lines[i]) && IsHeader(lines[i]) then HeaderLevel(lines[i]) else LevelAt(lines, i, isTrigger)
  {
  }

  lemma SliceSnoc(lines: seq<string>, f: nat, i: nat)
    requires f <= i < |lines|
    ensures lines[f..i + 1] == lines[f..i] + [lines[i]]
  {
  }

  /** The task's section of the document `content`. */
  method LoadPrdContent(content: string, isTrigger: string -> bool, mentionsId: string -> bool)
    returns (r: string)
    ensures r == Join("\n", Section(Split(content, '\n'), isTrigger, mentionsId))
  {
    var lines := Split(content, '\n');
    var taskContent := CaptureSection(lines, isTrigger, mentionsId);
    r := if taskContent != [] then Join("\n", taskContent) else "";
  }

  /** The loop over the lines, with its `capturing` flag and `section_level`. */
  method CaptureSection(lines: seq<string>, isTrigger: string -> bool, mentionsId: string -> bool)
    returns (taskContent: seq<string>)
    ensures taskContent == Section(lines, isTrigger, mentionsId)
  {
    taskContent := [];
    var capturing := false;
    var sectionLevel: nat := 0;
    ghost var f := FirstTrigger(lines, isTrigger, 0);
    ghost var e := if f < |lines| then NextStop(lines, f + 1, isTrigger, mentionsId) else |lines|;
    for i := 0 to |lines|
      invariant sectionLevel == LevelAt(lines, i, isTrigger)
      invariant capturing <==> f < i
      invariant !capturing ==> taskContent == []
      invariant capturing ==> i <= e
      invariant capturing ==> taskContent == lines[f..i]
    {
      var line := lines[i];
      LevelStep(lines, i, isTrigger);
      if isTrigger(line) {
        if !capturing {
          assert f == i;
        }
        assert i < e by {
          assert !StopsAt(lines, i, isTrigger, mentionsId);
        }
        SliceSnoc(lines, f, i);
        capturing := true;
        if IsHeader(line) {
          sectionLevel := HeaderLevel(line);
        }
        taskContent := taskContent + [line];
      } else if capturing {
        if IsHeader(line) {
          var currentLevel := HeaderLevel(line);
          if currentLevel <= sectionLevel && sectionLevel > 0 {
            if !mentionsId(line) {
              assert StopsAt(lines, i, isTrigger, mentionsId);
              break;
            }
          }
        }
        assert i < e by {
          assert !StopsAt(lines, i, isTrigger, mentionsId);
        }
        SliceSnoc(lines, f, i);
        taskContent := taskContent + [line];
      }
    }
    SectionIs(lines, f, e, isTrigger, mentionsId);
  }

  lemma SectionIs(lines: seq<string>, f: nat, e: nat, isTrigger: string -> bool, mentionsId: string -> bool)
    requires f == FirstTrigger(lines, isTrigger, 0)
    requires e == if f < |lines| then NextStop(lines, f + 1, isTrigger, mentionsId) else |lines|
    ensures Section(lines, isTrigger, mentionsId) == if f < |lines| then lines[f..e] else []
  {
  }

  // ---------------------------------------------------------------------------
  // Properties of the extracted section
  // ---------------------------------------------------------------------------

  /** The section is empty exactly when no line of the document carries the tag. */
  lemma SectionEmptyIff(lines: seq<string>, isTrigger: string -> bool, mentionsId: string -> bool)
    ensures Section(lines, isTrigger, mentionsId) == [] <==>
      forall k :: 0 <= k < |lines| ==> !isTrigger(lines[k])
  {
    var f := FirstTrigger(lines, isTrigger, 0);
    if f < |lines| {
      assert Section(lines, isTrigger, mentionsId)[0] == lines[f];
    }
  }

  /**
   * A non-empty section is a run of consecutive lines. It starts at the first
   * tagged line. Every untagged header inside it that is not deeper than the
   * level in force mentions the task id. The line just after it, if any,
   * ends the section.
   */
  lemma SectionShape(lines: seq<string>, isTrigger: string -> bool, mentionsId: string -> bool)
    requires Section(lines, isTrigger, mentionsId) != []
    ensures exists f, e ::
      && 0 <= f < e <= |lines|
      && Section(lines, isTrigger, mentionsId) == lines[f..e]
      && isTrigger(lines[f])
      && (forall k :: 0 <= k < f ==> !isTrigger(lines[k]))
      && (forall j :: f < j < e && !isTrigger(lines[j]) && IsHeader(lines[j])
            && 0 < LevelAt(lines, j, isTrigger) && HeaderLevel(lines[j]) <= LevelAt(lines, j, isTrigger)
            ==> mentionsId(lines[j]))
      && (e < |lines| ==> StopsAt(lines, e, isTrigger, mentionsId))
  {
    var f := FirstTrigger(lines, isTrigger, 0);
    var e := NextStop(lines, f + 1, isTrigger, mentionsId);
    forall j | f < j < e && !isTrigger(lines[j]) && IsHeader(lines[j])
      && 0 < LevelAt(lines, j, isTrigger) && HeaderLevel(lines[j]) <= LevelAt(lines, j, isTrigger)
      ensures mentionsId(lines[j])
    {
      assert !StopsAt(lines, j, isTrigger, mentionsId);
    }
  }

  /** Without a tagged header the section level stays 0. */
  lemma {:induction false} LevelZero(lines: seq<string>, k: nat, isTrigger: string -> bool)
    requires k <= |lines|
    requires forall j :: 0 <= j < |lines| && isTrigger(lines[j]) ==> !IsHeader(lines[j])
    ensures LevelAt(lines, k, isTrigger) == 0
    decreases k
  {
    if k > 0 {
      LevelZero(lines, k - 1, isTrigger);
    }
  }

  /** When no tagged line is a header, capture runs from the first tagged line to the end. */
  lemma SectionWithoutHeader(lines: seq<string>, isTrigger: string -> bool, mentionsId: string -> bool)
    requires forall j :: 0 <= j < |lines| && isTrigger(lines[j]) ==> !IsHeader(lines[j])
    ensures Section(lines, isTrigger, mentionsId) == lines[FirstTrigger(lines, isTrigger, 0)..]
  {
    var f := FirstTrigger(lines, isTrigger, 0);
    if f < |lines| {
      LevelZero(lines, NextStop(lines, f + 1, isTrigger, mentionsId), isTrigger);
    }
  }

  /** The text returned is a verbatim piece of the document. */
  lemma SectionOccursInDocument(content: string, isTrigger: string -> bool, mentionsId: string -> bool)
    ensures exists i :: OccursAt(content, Join("\n", Section(Split(content, '\n'), isTrigger, mentionsId)), i)
  {
    var lines := Split(content, '\n');
    var f := FirstTrigger(lines, isTrigger, 0);
    JoinSplit(content, '\n');
    assert Join("\n", lines) == content;
    if f == |lines| {
      assert Join("\n", Section(lines, isTrigger, mentionsId)) == "";
      assert OccursAt(content, "", 0);
    } else {
      var e := NextStop(lines, f + 1, isTrigger, mentionsId);
      assert Section(lines, isTrigger, mentionsId) == lines[f..e];
      JoinSliceOccurs("\n", lines, f, e);
    }
  }
}
