/**
 * Greedy word wrap: `format_text` of the modern viewer and `_wrap_text` of the
 * curses interface, which are the same loop over `text.split()` keeping a line
 * buffer and a running length.
 */
module WordWrap {
  import opened Text
  import Seqs

  /** The loop's variables: finished lines, the words of the open line, its running length. */
  datatype WrapState = WrapState(lines: seq<string>, current: seq<string>, length: int)

  const Start := WrapState([], [], 0)

  /** One iteration: the word joins the open line if the running length allows, else opens a new line. */
  function Step(st: WrapState, word: string, width: int): WrapState {
    if st.length + |word| + 1 <= width then
      WrapState(st.lines, st.current + [word], st.length + |word| + 1)
    else
      WrapState(if st.current != [] then st.lines + [JoinWords(st.current)] else st.lines, [word], |word|)
  }

  /** The state after the loop has consumed `words`, one iteration per word. */
  function Run(words: seq<string>, width: int): WrapState
    decreases |words|
  {
    if |words| == 0 then Start else Step(Run(words[..|words| - 1], width), words[|words| - 1], width)
  }

  /** After the loop: close the open line; no lines at all gives one empty line. */
  function Finish(st: WrapState): seq<string> {
    var lines := if st.current != [] then st.lines + [JoinWords(st.current)] else st.lines;
    if lines == [] then [""] else lines
  }

  /** The wrapped lines of `text` at `width`, as the loop computes them. */
  function Wrap(text: string, width: int): seq<string> {
    Finish(Run(Words(text), width))
  }

  /** The words of a list of lines, line after line. */
  function WordsOfLines(lines: seq<string>): seq<string>
    decreases |lines|
  {
    if |lines| == 0 then [] else WordsOfLines(lines[..|lines| - 1]) + Words(lines[|lines| - 1])
  }

  lemma WordsOfLinesAppend(lines: seq<string>, line: string)
    ensures WordsOfLines(lines + [line]) == WordsOfLines(lines) + Words(line)
  {
    assert (lines + [line])[..|lines|] == lines;
  }

  /** What holds of the loop's state after it has consumed `ws`. */
  ghost predicate Good(st: WrapState, ws: seq<string>, width: int) {
    && WordsOfLines(st.lines) + st.current == ws
    && (forall j :: 0 <= j < |st.current| ==> IsWord(st.current[j]))
    && (forall i :: 0 <= i < |st.lines| ==> |Words(st.lines[i])| >= 1)
    && (forall i :: 0 <= i < |st.lines| ==> |Words(st.lines[i])| >= 2 ==> |st.lines[i]| <= width)
    && (|st.current| >= 2 ==> |JoinWords(st.current)| <= width)
    && (st.current == [] ==> st.lines == [] && st.length == 0)
    && (st.current != [] ==>
          st.length == |JoinWords(st.current)| || st.length == |JoinWords(st.current)| + 1)
  }

  lemma CloseLine(st: WrapState, ws: seq<string>, width: int)
    requires Good(st, ws, width) && st.current != []
    ensures var lines := st.lines + [JoinWords(st.current)];
      && WordsOfLines(lines) == ws
      && (forall i :: 0 <= i < |lines| ==> |Words(lines[i])| >= 1)
      && (forall i :: 0 <= i < |lines| ==> |Words(lines[i])| >= 2 ==> |lines[i]| <= width)
  {
    var line := JoinWords(st.current);
    var lines := st.lines + [line];
    WordsOfJoinWords(st.current);
    WordsOfLinesAppend(st.lines, line);
    forall i | 0 <= i < |lines|
      ensures |Words(lines[i])| >= 1 && (|Words(lines[i])| >= 2 ==> |lines[i]| <= width)
    {
      if i < |st.lines| {
        assert lines[i] == st.lines[i];
      } else {
        assert lines[i] == line;
      }
    }
  }

  lemma StepGood(st: WrapState, ws: seq<string>, word: string, width: int)
    requires Good(st, ws, width) && IsWord(word)
    ensures Good(Step(st, word, width), ws + [word], width)
  {
    if st.length + |word| + 1 <= width {
      StepGoodFits(st, ws, word, width);
    } else {
      StepGoodBreaks(st, ws, word, width);
    }
  }

  /** The word joins the open line. */
  lemma StepGoodFits(st: WrapState, ws: seq<string>, word: string, width: int)
    requires Good(st, ws, width) && IsWord(word) && st.length + |word| + 1 <= width
    ensures Good(WrapState(st.lines, st.current + [word], st.length + |word| + 1), ws + [word], width)
  {
    Seqs.AppendAssoc(WordsOfLines(st.lines), st.current, [word]);
    if st.current != [] {
      JoinAppend(" ", st.current, word);
    } else {
      assert st.current + [word] == [word];
    }
    forall j | 0 <= j < |st.current + [word]| ensures IsWord((st.current + [word])[j]) {
      if j < |st.current| {
        assert (st.current + [word])[j] == st.current[j];
      }
    }
  }

  /** The word opens a new line; the open line, if any, is closed. */
  lemma StepGoodBreaks(st: WrapState, ws: seq<string>, word: string, width: int)
    requires Good(st, ws, width) && IsWord(word)
    ensures var lines := if st.current != [] then st.lines + [JoinWords(st.current)] else st.lines;
      Good(WrapState(lines, [word], |word|), ws + [word], width)
  {
    if st.current != [] {
      CloseLine(st, ws, width);
    }
  }

  ghost predicate AllWords(ws: seq<string>) {
    forall i :: 0 <= i < |ws| ==> IsWord(ws[i])
  }

  lemma AllWordsInit(ws: seq<string>)
    requires |ws| > 0 && AllWords(ws)
    ensures AllWords(ws[..|ws| - 1]) && IsWord(ws[|ws| - 1])
  {
    var init := ws[..|ws| - 1];
    forall i | 0 <= i < |init| ensures IsWord(init[i]) {
      assert init[i] == ws[i];
    }
  }

  lemma {:induction false} RunGood(ws: seq<string>, width: int)
    requires AllWords(ws)
    ensures Good(Run(ws, width), ws, width)
    decreases |ws|
  {
    if |ws| > 0 {
      var init, last := ws[..|ws| - 1], ws[|ws| - 1];
      AllWordsInit(ws);
      RunGood(init, width);
      StepGood(Run(init, width), init, last, width);
      Seqs.InitLast(ws);
    }
  }

  /** What the lines after the loop are, from what holds of its final state. */
  ghost predicate Finished(r: seq<string>, ws: seq<string>, width: int) {
    && |r| >= 1
    && WordsOfLines(r) == ws
    && (r == [""] <==> ws == [])
    && (forall i :: 0 <= i < |r| ==> |Words(r[i])| >= 2 ==> |r[i]| <= width)
    && (ws != [] ==> forall i :: 0 <= i < |r| ==> |r[i]| > width ==> |Words(r[i])| == 1)
  }

  lemma FinishGood(st: WrapState, ws: seq<string>, width: int)
    requires Good(st, ws, width)
    ensures Finished(Finish(st), ws, width)
  {
    if st.current != [] {
      FinishOpen(st, ws, width);
    } else {
      assert Finish(st) == [""];
      assert WordsOfLines([""]) == [];
    }
  }

  lemma FinishOpen(st: WrapState, ws: seq<string>, width: int)
    requires Good(st, ws, width) && st.current != []
    ensures Finished(Finish(st), ws, width)
  {
    var r := st.lines + [JoinWords(st.current)];
    CloseLine(st, ws, width);
    assert Finish(st) == r;
    assert |Words(r[0])| >= 1;
    assert Words("") == [];
    assert |ws| > 0 by {
      assert ws == WordsOfLines(st.lines) + st.current;
    }
  }

  /**
   * The properties of the wrapped lines: the words come out in order and
   * unchanged, only a text without words gives `['']`, a line of two or more
   * words fits the width, and so a line longer than the width is a single word.
   */
  lemma WrapProperties(text: string, width: int)
    ensures var r := Wrap(text, width);
      && |r| >= 1
      && WordsOfLines(r) == Words(text)
      && (r == [""] <==> Words(text) == [])
      && (forall i :: 0 <= i < |r| ==> |Words(r[i])| >= 2 ==> |r[i]| <= width)
      && (Words(text) != [] ==> forall i :: 0 <= i < |r| ==> |r[i]| > width ==> |Words(r[i])| == 1)
  {
    var ws := Words(text);
    WordsAreWords(text);
    RunGood(ws, width);
    FinishGood(Run(ws, width), ws, width);
  }

  /** `format_text(text, width)` / `_wrap_text(text, width)`. */
  method FormatText(text: string, width: int) returns (lines: seq<string>)
    ensures lines == Wrap(text, width)
    ensures WordsOfLines(lines) == Words(text)
    ensures lines == [""] <==> Words(text) == []
    ensures forall i :: 0 <= i < |lines| ==> |Words(lines[i])| >= 2 ==> |lines[i]| <= width
  {
    var words := Words(text);
    lines := [];
    var currentLine: seq<string> := [];
    var currentLength := 0;
    for i := 0 to |words|
      invariant WrapState(lines, currentLine, currentLength) == Run(words[..i], width)
    {
      var word := words[i];
      assert words[..i + 1][..i] == words[..i];
      if currentLength + |word| + 1 <= width {
        currentLine := currentLine + [word];
        currentLength := currentLength + |word| + 1;
      } else {
        if currentLine != [] {
          lines := lines + [JoinWords(currentLine)];
        }
        currentLine := [word];
        currentLength := |word|;
      }
    }
    assert words[..|words|] == words;
    if currentLine != [] {
      lines := lines + [JoinWords(currentLine)];
    }
    if lines == [] {
      lines := [""];
    }
    WrapProperties(text, width);
  }
}
