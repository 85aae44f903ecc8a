# Roadmap viewers: a Dafny model

The repository has two terminal viewers for the roadmap file `tasks.json`:

- `tools/roadmap-modern.py` is a coloured console viewer: a main menu, a listing by milestone, filters, search and a task view that pulls the task's section out of the product requirements document (PRD);
- `tools/roadmap-enhanced.py` is a curses interface: a task list with a detail pane, a status bar and a key loop.

This project models the rules inside both viewers, with printing and curses left out, and proves what those rules promise.

- **Word wrap** (`WordWrap`): `format_text` and `_wrap_text` are the same greedy loop. `FormatText` is that loop, proved against the function `Wrap`. In the result:
  - the words come out unchanged and in order;
  - a text without words gives `['']`;
  - every line of two or more words fits the width;
  - a line longer than the width is a single word.
- **The modern viewer's tasks** (`Tasks`): `tasks.json` is an ordered sequence of (id, record) pairs, because Python dicts keep insertion order. Each record field is optional, because the viewer reads every field with `task.get`; a present field is a string (see Left out). This module covers:
  - the icon and colour lookups with their defaults;
  - the status and priority filters;
  - keyword search;
  - the numbered menu answers;
  - `main`'s choice between `--list`, `--task`, the filters and the menu.
- **Listing by milestone** (`MilestoneListing`): `ListTasksByMilestone` keeps the source's loops, which fill the `milestones` dict, sort each group and number the cards. It is proved against `DisplayOrder`. The cards are:
  - a permutation of the store;
  - ordered by milestone, then by priority rank, then by id;
  - numbered `"1"`..`"n"` in a map that is a bijection onto the task ids.
- **PRD section scan** (`PrdScan`): `LoadPrdContent` splits the document into lines and joins the captured ones; `CaptureSection` is the line loop with its `capturing` flag and `section_level`, proved against `Section`. The two regular-expression searches are parameters. The result:
  - is empty exactly when no line carries the tag;
  - is otherwise a run of consecutive lines that starts at the first tagged line;
  - stops only at an untagged header of the section's level or higher that does not mention the id;
  - is a verbatim piece of the document.
- **Enhanced tasks** (`EnhancedTasks`): this module covers:
  - `EnhancedTask.from_dict` over JSON values, with its error cases, and the fields `to_dict` adds;
  - `get_filtered_tasks`, as filters followed by a sort;
  - the column widths, header, row and title truncation of `draw_task_list`;
  - the status-bar text;
  - the status cycle and the view toggle.
- **The key loop** (`EnhancedTui`): `Step` is one round of `run`. It takes the DOWN rule as a parameter: `AsWritten` is the source's threshold, `Corrected` the one that matches the drawing (see Findings). The class `Tui` holds the interface's fields; its `HandleKey` and `Run` methods run the source's rule and are proved against `Step` and `RunEvents` with `AsWritten`. The lemmas hold for both rules:
  - every round keeps the state valid;
  - the space key changes only the selected task;
  - the selection stays within the rows the rule allows for.

  Under `Corrected` those rows are exactly the drawn rows. Under `AsWritten` they include one row that is never drawn.

Inputs the program reads from the outside are parameters:

- the task store, the PRD text, and the menu and prompt answers as strings;
- the terminal height, the key pressed and the clock's reading, one `Event` per round of the key loop.

Quirks of the code that the model follows:

- **The PRD header pattern never matches.** It is built with an f-string, so `{1,3}` becomes the tuple `(1, 3)`, and it ends in `\n`, which no line from `split('\n')` contains. So only the `[task-id: …]` tag starts a section, and the model has one trigger predicate.
- **A critical row is one character too wide.** `pri_map` gives `'!!!'` for critical, but the priority column is 2 wide, so that row is one character wider than the header (`RowWidth`).
- **The header is cut on narrow lists.** For lists 30 to 32 characters wide, the header is longer than `list_width - 1` and is cut (`HeaderWidth`).
- **The first wrapped line can be one short.** The running length starts at 0 and the first word adds `len(word) + 1`, so on the first line it counts one space too many. A first line of two or more words is therefore at most `width - 1` long, while later lines can fill the width. The model states the bound the code keeps for every line, `width`.

## Model

| member | source | states |
|---|---|---|
| WordWrap.FormatText | tools/roadmap-modern.py:223-243 | the loop's lines are `Wrap(text, width)`: their words, line after line, are `text.split()`; the result is `['']` exactly when there are no words; a line of two or more words is at most `width` long |
| WordWrap.WrapProperties | tools/roadmap-enhanced.py:309-329 | of `_wrap_text` (the same loop): at least one line; words preserved in order; `['']` iff no words; a line of two or more words fits the width, so a line longer than the width is one word |
| WordWrap.RunGood | tools/roadmap-modern.py:228-238 | after the loop has consumed any list of words, the finished lines and the open line hold those words in order; every finished line of two or more words, and the open line when it has two or more words, is at most `width` long; the running length is the open line's length or one more |
| WordWrap.StepGood | tools/roadmap-modern.py:229-238 | one iteration keeps that invariant, whether the word joins the open line or starts a new one |
| WordWrap.WordsOfLinesAppend | tools/roadmap-modern.py:240-241 | appending a line to the output appends that line's words to the output's words |
| Text.WordsOfJoinWords | tools/roadmap-modern.py:235 | `' '.join(words).split()` gives back `words` when each is a non-empty word without whitespace |
| Text.WordsAreWords | tools/roadmap-modern.py:225 | every piece of `text.split()` is non-empty and contains no whitespace |
| Text.Words | tools/roadmap-modern.py:225 | `text.split()` is empty exactly when every character of the text is whitespace |
| Text.JoinLength | tools/roadmap-modern.py:236 | `sep.join(parts)` of a non-empty list is as long as its parts together plus one separator between each two neighbours |
| Text.Lower | tools/roadmap-modern.py:539 | `lower()`: the same length, each character lowered (ASCII letters only) |
| Text.Upper | tools/roadmap-modern.py:558 | `upper()`: the same length, each character raised (ASCII letters only) |
| Text.Strip | tools/roadmap-modern.py:539 | `strip()`: the result neither starts nor ends with a whitespace character |
| Text.LeadingSpaces | tools/roadmap-modern.py:539 | the whitespace `strip()` removes at the front ends at the first non-whitespace character |
| Text.TrailingSpaces | tools/roadmap-modern.py:539 | the whitespace `strip()` removes at the back ends at the last non-whitespace character |
| Text.StripLeftSpaces | tools/roadmap-modern.py:539 | the front part `strip()` removes is all whitespace, and the rest of the string is kept |
| Text.StripRightSpaces | tools/roadmap-modern.py:539 | the back part `strip()` removes is all whitespace, and the start of the string is kept |
| Text.StripTrims | tools/roadmap-modern.py:539 | `strip()` gives a slice `s[i:j]` of the string with only whitespace before `i` and from `j` on; with `Strip`'s own contract this fixes the result |
| Tasks.StatusIcon | tools/roadmap-modern.py:196-203 | each known status gets its own icon; an unknown status gets the TODO icon |
| Tasks.StatusColor | tools/roadmap-modern.py:205-212 | each known status gets its own colour; the colour is WHITE exactly when the status is unknown |
| Tasks.PriorityIcon | tools/roadmap-modern.py:214-221 | each known priority gets its own icon; an unknown priority gets the LOW icon |
| Tasks.KnownValuesDistinct | tools/roadmap-modern.py:196-221 | the four statuses map to four different icons and four different colours; the four priorities map to four different icons |
| Priority.Rank | tools/roadmap-modern.py:333-335 | `priority_order.get(p, 4)`: critical, high, medium and low rank 0 to 3 in that order; any other value, and only those, ranks 4 |
| Tasks.FilterByStatus | tools/roadmap-modern.py:591-592 | the result holds exactly the tasks whose status equals the chosen one, as a subsequence of the store, so store order is kept |
| Tasks.FilterByPriority | tools/roadmap-modern.py:621-622 | the result holds exactly the tasks whose priority equals the chosen one, as a subsequence of the store |
| Tasks.MenuIndex | tools/roadmap-modern.py:588-591 | a menu answer is accepted exactly when, stripped, it is a digit string whose value is 1..count; the index is that value minus one |
| Tasks.MenuIndexOfLabel | tools/roadmap-modern.py:582-584 | typing the number printed beside the k-th entry chooses entry k |
| Tasks.StatusMenu | tools/roadmap-modern.py:575-604 | an answer gives a result exactly when `MenuIndex` accepts it; the result is the status at that index of todo, in_progress, done, blocked, with the store filtered by it |
| Tasks.PriorityMenu | tools/roadmap-modern.py:606-634 | an answer gives a result exactly when `MenuIndex` accepts it; the result is the priority at that index of critical, high, medium, low, with the store filtered by it |
| Tasks.StatusMenuOfLabel | tools/roadmap-modern.py:582-592 | the answers "1" to "4" select todo, in_progress, done and blocked |
| Tasks.PriorityMenuOfLabel | tools/roadmap-modern.py:613-622 | the answers "1" to "4" select critical, high, medium and low |
| Tasks.SearchTasks | tools/roadmap-modern.py:643-658 | an empty stripped keyword gives no search; otherwise the result holds exactly the tasks whose lowercased title, description or details contain the keyword, in store order |
| Tasks.SearchFindsOccurrences | tools/roadmap-modern.py:650-656 | a task is found exactly when the keyword occurs at some position of one of those lowercased fields |
| Tasks.CliFilter | tools/roadmap-modern.py:705-711 | the result holds exactly the tasks that match `--status` when it is given and `--priority` when it is given |
| Tasks.CliFilterConjunction | tools/roadmap-modern.py:705-711 | filtering by status and then by priority is one filter by the conjunction of the given options |
| Tasks.Dispatch | tools/roadmap-modern.py:684-718 | `--list` wins; otherwise a non-empty `--task` shows that id uppercased; otherwise a non-empty `--status` or `--priority` filters; otherwise the menu runs |
| Tasks.MenuChoice | tools/roadmap-modern.py:539-573 | the stripped, lowercased answer equal to one of "1".."5", "q" picks that entry's action; every other answer redraws the menu |
| Tasks.MenuEntry | tools/roadmap-modern.py:541-573 | each of the answers "1".."5", "q" selects its own action; every other answer, and only those, redraws the menu |
| Tasks.SelectFromListing | tools/roadmap-modern.py:549-555 | an empty answer returns; an answer that is a key of the task map shows the task it names; any other answer is an invalid selection |
| MilestoneListing.Group | tools/roadmap-modern.py:315-319 | a milestone's group holds each task of that milestone as often as the store does, and no other task |
| MilestoneListing.MilestoneKeys | tools/roadmap-modern.py:315-319 | `milestones.keys()` lists every milestone of the store exactly once |
| MilestoneListing.SortedMilestones | tools/roadmap-modern.py:322 | the milestones in ascending order, each once |
| MilestoneListing.SortedGroup | tools/roadmap-modern.py:333-335 | a permutation of the group, ordered by priority rank (missing is low, unknown is 4) and then by id |
| MilestoneListing.GroupByMilestone | tools/roadmap-modern.py:312-319 | the loop's dict has a list for each milestone key and no other; the list of milestone `m` is the store's tasks of `m` in store order |
| MilestoneListing.GroupMapKeys | tools/roadmap-modern.py:315-318 | the keys the grouping loop creates are the milestones of the store |
| MilestoneListing.GroupMapGroups | tools/roadmap-modern.py:315-319 | the grouping loop files every task under its milestone, in store order |
| MilestoneListing.NumberGroup | tools/roadmap-modern.py:337-345 | one group's cards are appended; in interactive mode each card gets the next number, so the map names card k by "k" |
| MilestoneListing.ListTasksByMilestone | tools/roadmap-modern.py:309-349 | the cards are a permutation of the store, sorted by (milestone, rank, id); a map is returned exactly in interactive mode, numbering the cards "1".."n" |
| MilestoneListing.CardsCount | tools/roadmap-modern.py:327-345 | the cards of distinct milestones hold each task of those milestones exactly as often as the store does |
| MilestoneListing.DisplayOrder | tools/roadmap-modern.py:322-345 | every task is printed exactly once, and the printed cards are in (milestone, rank, id) order |
| MilestoneListing.CardsSorted | tools/roadmap-modern.py:322-335 | the cards of ascending milestones are in display order and come from those milestones only |
| MilestoneListing.DisplayOrderIsSort | tools/roadmap-modern.py:316-335 | with distinct ids, the grouped listing equals one sort of the whole store by (milestone, rank, id) |
| MilestoneListing.DisplayLeAntisymmetric | tools/roadmap-modern.py:335 | two cards that each sort no later than the other have the same id |
| MilestoneListing.NumberedExtend | tools/roadmap-modern.py:340-342 | recording the next number for the next card keeps the numbering |
| MilestoneListing.SelectNumberedCard | tools/roadmap-modern.py:549-552 | typing the number printed above the k-th card shows that card's task |
| MilestoneListing.NumberedBijection | tools/roadmap-modern.py:324-349 | with distinct ids, the task map is a bijection from its keys onto the task ids |
| PrdScan.FirstTrigger | tools/roadmap-modern.py:379-381 | the first tagged line at or after `from`; no line before it is tagged |
| PrdScan.NextStop | tools/roadmap-modern.py:387-393 | the first line at or after `k` that ends the section; no line before it does |
| PrdScan.Section | tools/roadmap-modern.py:379-397 | the section is never longer than the document, and a non-empty section starts with a tagged line |
| PrdScan.LoadPrdContent | tools/roadmap-modern.py:376-399 | the result is the section's lines joined by newlines (or "" when there are none) |
| PrdScan.CaptureSection | tools/roadmap-modern.py:379-397 | the loop's captured lines are exactly the section: from the first tagged line up to the first line that ends it |
| PrdScan.SectionEmptyIff | tools/roadmap-modern.py:379-399 | the section is empty exactly when no line carries the tag |
| PrdScan.SectionShape | tools/roadmap-modern.py:379-397 | a non-empty section is `lines[f..e]`: it starts at the first tagged line; every untagged header inside it of the current level or higher mentions the id; line `e`, if there is one, ends it |
| PrdScan.LevelZero | tools/roadmap-modern.py:382-383 | when no tagged line is a header, the section level stays 0 |
| PrdScan.SectionWithoutHeader | tools/roadmap-modern.py:382-393 | when no tagged line is a header, capture runs from the first tagged line to the end of the document |
| PrdScan.SectionOccursInDocument | tools/roadmap-modern.py:376-399 | the returned text occurs verbatim in the document |
| Text.JoinSplit | tools/roadmap-modern.py:376 | joining `content.split('\n')` with newlines gives back `content` |
| Text.Split | tools/roadmap-modern.py:376 | `content.split(c)` has at least one piece, and no piece contains `c` |
| Text.SplitCount | tools/roadmap-modern.py:376 | `content.split(c)` has one piece more than `content` has occurrences of `c` |
| EnhancedTasks.OrEmptyList | tools/roadmap-enhanced.py:32-33 | `value or []`: the result is truthy exactly when the value is; a truthy value is kept; a falsy one becomes `[]` |
| EnhancedTasks.OrEmptyListIdempotent | tools/roadmap-enhanced.py:32-33 | applying `or []` twice is the same as once |
| EnhancedTasks.StrArg | tools/roadmap-enhanced.py:23-25 | a missing string argument takes its default; a present one must be a string, which the task then holds |
| EnhancedTasks.OptArg | tools/roadmap-enhanced.py:26 | a missing or `null` `created`/`updated` is `None`; a present string is kept; loading succeeds exactly in those cases, and any other value is rejected as of the wrong type |
| EnhancedTasks.BaseTask | tools/roadmap-enhanced.py:22-30 | the constructor succeeds exactly when every given base field has the expected type; the task then holds each given field and the constructor's default for each missing one, with `links`/`subtasks` passed through `or []` |
| EnhancedTasks.FromDict | tools/roadmap-enhanced.py:43-55 | a missing id raises `KeyError`; an unknown key or a missing title raises `TypeError`; loading succeeds exactly when the id is a string, the title is present, every key is known and every base field has the expected type; the task then holds the id, the title and each given base field, with the constructor's defaults for the missing ones; `details` defaults to `''`, and `links`/`subtasks` default to `[]` (falsy values too) |
| EnhancedTasks.ExtendedFields | tools/roadmap-enhanced.py:35-40 | `to_dict` writes exactly the keys `details`, `links`, `subtasks` on top of the base record |
| EnhancedTasks.ExtendedRoundTrip | tools/roadmap-enhanced.py:35-55 | writing the extended fields back over a record and loading it again gives the same task |
| EnhancedTasks.TaskLeTotalPreorder | tools/roadmap-enhanced.py:103-108 | the sort key (rank with unknown 4, milestone, id), compared as a tuple, is a total preorder |
| EnhancedTasks.SortTasks | tools/roadmap-enhanced.py:104-108 | `tasks.sort`: a permutation, ordered by the key |
| EnhancedTasks.FilteredTasks | tools/roadmap-enhanced.py:90-110 | each task occurs as often as in the store when it passes every set filter (`None` and `''` are not set), and not at all otherwise; the list is ordered by the key |
| EnhancedTasks.FilteredTasksProperties | tools/roadmap-enhanced.py:92-100 | membership iff the task is stored and passes every set filter; without filters a permutation of all tasks; never longer than the store |
| EnhancedTasks.ColumnWidths | tools/roadmap-enhanced.py:115-124 | nothing is drawn below 30 columns; otherwise the id column is ≤ 6, status ≤ 8, priority and milestone 2, and title ≥ 10 |
| EnhancedTasks.PadRight | tools/roadmap-enhanced.py:127 | `f"{s:<w}"`: the string followed by spaces up to `w`, never cut |
| EnhancedTasks.Header | tools/roadmap-enhanced.py:127 | the header is as wide as its five columns, each widened to fit its label, plus four separating spaces, and starts with `ID` |
| EnhancedTasks.Row | tools/roadmap-enhanced.py:161 | a row is as wide as its five columns, each widened to fit its field, plus four separating spaces, and starts with the task id |
| EnhancedTasks.HeaderWidth | tools/roadmap-enhanced.py:124-129 | from 33 columns on the header is exactly `list_width - 1` long; between 30 and 32 it is longer and is cut |
| EnhancedTasks.PriorityMarker | tools/roadmap-enhanced.py:154-155 | critical, high and medium give three, two and one `!`; any other priority gives `-`; a marker other than `-` is made of `!` only |
| EnhancedTasks.TruncateTitle | tools/roadmap-enhanced.py:158 | never longer than the title column; a title that fits is kept; a longer one becomes its first `title_width - 3` characters plus `...` and fills the column |
| EnhancedTasks.RowWidth | tools/roadmap-enhanced.py:154-161 | a row whose fields fit their columns is as wide as the header, except a critical one, which is one wider |
| EnhancedTasks.FilterLabels | tools/roadmap-enhanced.py:345-351 | one label per set filter, in the order Status, Priority, Milestone |
| EnhancedTasks.StatusBar | tools/roadmap-enhanced.py:339-354 | the bar starts with the title and `filtered/total`; with no labels that is all of it; otherwise ` │ Filters: ` and the labels joined by `", "` follow |
| EnhancedTasks.StatusBarShowsLabel | tools/roadmap-enhanced.py:345-354 | every active filter's label appears in the bar |
| EnhancedTasks.NextStatus | tools/roadmap-enhanced.py:446-448 | todo → in_progress → done → todo; any status outside the cycle becomes in_progress |
| EnhancedTasks.NextStatusCycle | tools/roadmap-enhanced.py:446-448 | the result is always in the cycle, and three presses bring a status of the cycle back |
| EnhancedTasks.ToggleView | tools/roadmap-enhanced.py:439-441 | the result is `split` or `list`, and differs from a mode that is one of them |
| EnhancedTasks.ToggleViewTwice | tools/roadmap-enhanced.py:439-441 | pressing `v` twice restores the view |
| EnhancedTui.SelectedTask | tools/roadmap-enhanced.py:409 | there is a selected task exactly when the index is within the list; it is the list's task at the index, and a stored task |
| EnhancedTui.StatusBarOf | tools/roadmap-enhanced.py:337-354 | the bar starts with the title and `filtered/total`; in a valid state (no filters) it is exactly the title and `n/n` for the `n` stored tasks |
| EnhancedTui.MoveUp | tools/roadmap-enhanced.py:429-433 | UP moves one row up when it can; the scroll offset is then at most the selection |
| EnhancedTui.MoveDownAsWritten | tools/roadmap-enhanced.py:434-438 | DOWN as written moves one row down when it can and keeps `selected_index < scroll_offset + content_height - 2` |
| EnhancedTui.MoveDownAsWrittenLeavesView | tools/roadmap-enhanced.py:135-163 | from the last drawn row, DOWN as written selects a row the list does not draw |
| EnhancedTui.MoveDownAsWrittenExample | tools/roadmap-enhanced.py:434-438 | eight tasks, height 14: row 6 is drawn, DOWN gives (7, 0), and row 7 is not drawn |
| EnhancedTui.MoveDown | tools/roadmap-enhanced.py:434-438 | corrected DOWN: moves one row down when it can and keeps a drawn selection drawn |
| EnhancedTui.MoveDownBy | tools/roadmap-enhanced.py:434-438 | DOWN under either rule moves one row down when it can, and keeps the selection within the rule's rows |
| EnhancedTui.MoveUpKeepsInView | tools/roadmap-enhanced.py:429-433 | UP keeps the selection within the rows of either rule |
| EnhancedTui.SetStatus | tools/roadmap-enhanced.py:448-449 | the task stored under the key gets the new status and the timestamp; every other entry is unchanged |
| EnhancedTui.Step | tools/roadmap-enhanced.py:427-457 | one round keeps the number of tasks and their keys; only the space key changes the tasks |
| EnhancedTui.StepWith | tools/roadmap-enhanced.py:427-457 | the key branches keep the number of tasks and their keys; only the space key changes the tasks, and only the filter key changes the filters |
| EnhancedTui.RunEvents | tools/roadmap-enhanced.py:371-457 | any run of keys keeps the number of tasks and their keys; a run without the space key leaves the tasks unchanged |
| EnhancedTui.InitialValid | tools/roadmap-enhanced.py:81-88 | the state `__init__` sets up is valid: distinct keys, no filters, the split view, the selection a row of the list |
| EnhancedTui.InitialInView | tools/roadmap-enhanced.py:81-88 | for every content height of at least 4 rows, the first selection of `__init__` is in view under either DOWN rule |
| EnhancedTui.TasksOfValid | tools/roadmap-enhanced.py:92-100 | with no filters set, the list is a permutation of all tasks |
| EnhancedTui.StepValid | tools/roadmap-enhanced.py:427-457 | under either DOWN rule, every round keeps the key set, the cleared filters, a view of `split` or `list`, and the selection within the list |
| EnhancedTui.StepKeepsSelectionInView | tools/roadmap-enhanced.py:427-457 | with room for at least one row, every round keeps the selection within the rule's rows; under the corrected rule these are the drawn rows |
| EnhancedTui.SpaceTogglesSelected | tools/roadmap-enhanced.py:442-450 | space advances the selected task's status along the cycle and stamps it; every other task is unchanged; the list keeps its length |
| EnhancedTui.FilterKeyResets | tools/roadmap-enhanced.py:451-457 | `f` clears the three filters and resets the selection and the scroll offset to 0 |
| EnhancedTui.ViewKeyTwice | tools/roadmap-enhanced.py:439-441 | `v` twice gives back the same state |
| EnhancedTui.RunValid | tools/roadmap-enhanced.py:371-457 | under either DOWN rule, any run of keys keeps the state valid |
| EnhancedTui.RunKeepsSelectionInView | tools/roadmap-enhanced.py:371-457 | in a terminal of fixed height, the selection stays within the rule's rows however many keys are pressed; under the corrected rule it stays drawn |
| EnhancedTui.StatusBarCounts | tools/roadmap-enhanced.py:339-342 | the filtered count never exceeds the total |
| EnhancedTui.Tui.constructor | tools/roadmap-enhanced.py:81-88 | the new interface has the initial state: first row, no scroll, no filters, split view |
| EnhancedTui.Tui.FilteredTasks | tools/roadmap-enhanced.py:90-110 | `get_filtered_tasks`: each task passing the set filters is listed as often as it is stored and no other task is; the list is sorted by (priority rank, milestone, id); never more tasks than stored |
| EnhancedTui.Tui.StatusBarText | tools/roadmap-enhanced.py:337-354 | the bar starts with the title and `filtered/total`; in a valid state it is exactly the title and `n/n` |
| EnhancedTui.Tui.HandleKey | tools/roadmap-enhanced.py:425-457 | `q` quits and changes nothing; any other key gives the state `Step` describes with the DOWN rule as written |
| EnhancedTui.Tui.ApplyKey | tools/roadmap-enhanced.py:427-457 | the branches on the key, with the source's DOWN threshold, update the fields as `StepWith` describes for this round's list |
| EnhancedTui.Tui.Run | tools/roadmap-enhanced.py:371-457 | the loop ends in the state `RunEvents` describes with the DOWN rule as written, stopping at `q` |

## Left out

- Printing and curses are not modelled. This covers every `print`, ANSI colour, box character, `addstr` and colour pair, `clear_screen`, `print_header`, `print_task_card`, `draw_help`, and the y-layout of `draw_task_details`. They are output only.
- `input()` and `getch()` are not modelled; their answers are parameters. The `interactive_menu` loop is modelled only as `MenuChoice` and the answers it leads to.
- The file system is not modelled:
  - `load_tasks`/`save_tasks` JSON reading and writing, and the save after the space key;
  - PRD path resolution with its `'../'` strip, the "PRD file not found" message and the exception handler;
  - `mkdir`.
  The task store and the PRD text are parameters.
- `LoadPrdContent` does not model the regular-expression engine. The `[task-id: …]` search is the parameter `isTrigger` and the id search is `mentionsId`. The header pattern can never match a split line, so it adds no trigger.
- `print_stats`' percentage and progress bar are not modelled. They use floating point and only affect output.
- `datetime.now().isoformat()` is not modelled: the reading is `Event.now`.
- The base `Task` class of the `roadmap` module is not part of this model. `BaseTask` follows the constructor signature shown in `EnhancedTask.__init__`, with base fields stored as strings.
- `Tasks.Task` holds only string fields, with `None` meaning the key is missing. A `null` or non-string value in the modern viewer's `tasks.json` is not modelled. Python would behave differently on such values:
  - a `null` priority ranks 4 in the milestone listing (`priority_order.get(None, 4)`), where the model's missing priority ranks as `'low'`, 3;
  - a `null` milestone is grouped under `None`, and `sorted` then raises `TypeError` when string milestones are present too, where the model's missing milestone is `'Unassigned'`;
  - a `null` title, description or details makes `field.lower()` raise `AttributeError` in search, where the model reads `''`.
- `EnhancedTasks.FromDict` rejects an `id`, or a base field, that is not a JSON string (`WrongType`); `created`/`updated` may also be `null`. This is a restriction of the model: the Python constructor would store any value.
- `show_task_detail` is not modelled: its PRD-ordering heuristic and "not found" comparison depend on external files and messages.
- Unicode-aware `lower`, `upper` and `isdigit` are not modelled: `Text` lowers and raises ASCII letters only and reads the digits 0–9 only. Whitespace for `strip()` and `split()` is the full set of characters for which Python's `str.isspace()` holds (`IsSpace`).
- `EnhancedTasks.SortTasks`: `get_filtered_tasks` sorts its list in place with `tasks.sort`. The model sorts a fresh sequence with an insertion sort, so the in-place update is not modelled. The contract states a sorted permutation; the stability of Python's sort is not stated.
- The interface of `EnhancedTui.Step` does not model `width`-dependent drawing: whether the split view falls back to the list view, and the detail pane's layout, do not change the state.
- The shared `task` object is not modelled: `run` mutates the filtered list's task object, which is the object stored in the tool's dict. The model updates the store entry with that key (`SetStatus`), which has the same effect because every key is loaded into its own object.
- `TruncateTitle` requires `titleWidth >= 3`. For a smaller column, Python's negative slice would keep a different prefix; `ColumnWidths` never gives a column under 10.

## Findings

| source | as written | input that shows it | evidently intended | confidence | as-written member | corrected member |
|---|---|---|---|---|---|---|
| tools/roadmap-enhanced.py:437-438 | DOWN scrolls only once `selected_index >= scroll_offset + content_height - 2`, but `draw_task_list` draws only `tasks[scroll_offset:scroll_offset + content_height - 3]` | 8 tasks, terminal height 14 (`content_height` 10), row 6 selected, scroll 0: DOWN selects row 7 without scrolling, and only rows 0–6 are drawn, so the highlighted row is off the list | scroll once the selection reaches `scroll_offset + content_height - 3`, to `selected_index - content_height + 4`, so the selection stays drawn | not executed | EnhancedTui.MoveDownAsWritten (with EnhancedTui.MoveDownAsWrittenLeavesView, EnhancedTui.MoveDownAsWrittenExample; the `Tui` class runs this rule) | EnhancedTui.MoveDown (with EnhancedTui.StepKeepsSelectionInView and EnhancedTui.RunKeepsSelectionInView for the rule `Corrected`) |
