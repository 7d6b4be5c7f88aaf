# UiListening in Dafny

UiListening is a desktop watcher. The user points at a control on screen
with the UI selector, which captures a *locator* for it: the control's
automation id, name, class, control type, owning process, and a root-first
path of ancestors. The user then adds a *monitor item*. Each item has:

- a condition (`>`, `<`, `=`, `>=`, `<=`, `!=`, `包含` "contains",
  `不包含` "does not contain");
- a target value;
- an extraction mode;
- an alarm sound.

On every poll the monitor does the following for each enabled item:

1. re-locates the control from its locator;
2. reads its current value;
3. transforms the value with the extraction mode;
4. compares the result with the target;
5. updates the item's row in the table and plays the alarm if the
   condition holds.

This project models that pipeline. The accessibility tree is an immutable
value: a `Node` carries its property reads and its ordered children. A
property read that raises is `None`. The modules are:

| module | file | models |
|---|---|---|
| `Wrappers` | wrappers.dfy | `Option`, and "non-empty string" |
| `Text` | text.dfy | substring search, `", ".join`, `str.replace(x, "")`, ASCII digits and decimal numerals |
| `Transform` | transform.dfy | `extract_value`: its three regular expressions become leftmost-longest scanners |
| `Condition` | condition.dfy | `check_condition`: numeric comparison first, then the string fallback |
| `Tree` | tree.dfy | the accessibility tree, element addresses, and the library's descendant search |
| `Descriptor` | descriptor.dfy | the records the selector produces: path segment, locator, element info |
| `Resolver` | resolver.dfy | `MonitorManager._find_element` and its three strategies |
| `Extractor` | extractor.dfy | the two value chains (`_get_value` and the selector's `_get_element_value`), and `get_element_value` |
| `Monitor` | monitor_app.dfy | one poll cycle, the row table, adding and removing items (`MonitorApp`) |
| `Selector` | selector.dfy | `_build_locator`, `_get_element_info`, the highlight state and the key-poll decisions (`UISelector`) |

Where the source is a loop, the model is a `method` with a `while` loop.
Each loop is proved equal to a recursive specification function. The
source's promises are then proved about that function. These loops are:

- the path walk;
- the scan over a process's windows;
- the locator's parent walk;
- the poll cycle over the items.

Floating-point parsing (`float()`) is a parameter `parse`. The lemmas that
need concrete numbers use `Condition.DecimalParse`, a decimal grammar over
reals. The library's table from control-type names to numeric control types
is also a parameter.

When an element can no longer be found, its value is `None`, and
`extract_value` turns that into `""`. `check_condition` then compares `""`
as the number 0. The item is therefore evaluated, not reported as
unavailable, and a condition such as `< 5` fires the alarm. The model
follows the code here, and `Monitor.MissingElementReadsAsZero` states it.

## Model

| member | source | states |
|---|---|---|
| `Transform.ExtractValue` | main.py:338-381 | `None` gives `""`; `原始值` and any unrecognised mode return the input unchanged; `取长度` gives a decimal numeral whose value is the input's length |
| `Transform.LeftmostMatch` | main.py:350-373 | the match found starts at the leftmost position where the pattern matches, and is the longest match there; when there is none, no substring is in the pattern's language |
| `Transform.FindFirst` | main.py:350-373 | the scan returns the first start position, from `i` on, where the pattern matches, and no earlier position matches |
| `Transform.MatchAtIsLongestMatch` | main.py:350-373 | the matcher at one position returns the longest end whose substring is in the pattern's language (greedy `\d+`, `\.?`, `\d*`) |
| `Transform.NumericModeEmptyIffNoDigit` | main.py:350-373 | in the three numeric modes the result is `""` exactly when the input has no ASCII digit |
| `Transform.NumberModeVersionExample` | main.py:350-355 | `提取数字` on "v1.2.3" gives "1.2" |
| `Transform.NumberModeTrailingDotExample` | main.py:350-355 | `提取数字` keeps the trailing dot of "12." |
| `Transform.IntegerModeProgressExample` | main.py:357-362 | `提取整数` on "Progress: 57%" gives "57" |
| `Transform.IntegerModeLowProgressExample` | main.py:357-362 | `提取整数` on "Progress: 12%" gives "12" |
| `Transform.IntegerModeNegativeExample` | main.py:357-362 | `提取整数` on "-3.14" gives "-3" |
| `Transform.DecimalModePrefersDecimalExample` | main.py:364-369 | `提取小数` prefers a later `d.d` match over an earlier integer: "1 and 2.5" gives "2.5" |
| `Transform.DecimalModeFallbackExample` | main.py:364-373 | `提取小数` with no decimal in the input falls back to the first integer: "7 items" gives "7" |
| `Transform.StripWhitespace` | main.py:375-376 | `去除空格` leaves no space, tab or newline, and keeps every other character with its multiplicity |
| `Transform.StripKeepsOrder` | main.py:375-376 | the stripped string is the input's other characters in their original order |
| `Transform.StripAppend` | main.py:375-376 | stripping distributes over concatenation |
| `Transform.StripModeExample` | main.py:375-376 | "a b\tc\r\n" gives "abc\r": the carriage return is kept |
| `Transform.LengthModeExample` | main.py:378-379 | `取长度` of "hello world" gives "11" |
| `Condition.NumberOf` | main.py:387-388 | the empty string counts as the number 0 |
| `Condition.CheckCondition` | main.py:383-418 | a true ordering comparison means both sides parsed as numbers; an unknown operator is false |
| `Condition.NumbersCompareNumerically` | main.py:385-401 | when both sides parse, the six comparison operators give the numeric comparison |
| `Condition.NonNumbersCompareAsStrings` | main.py:403-418 | when either side does not parse, `=` and `!=` are string (in)equality, and the four orderings are false |
| `Condition.TextOperatorsIgnoreNumbers` | main.py:413-416 | `包含` and `不包含` are the substring test and its negation, whatever the number parser says |
| `Condition.NotEqualNegatesEqual` | main.py:385-412 | `!=` is always the negation of `=` |
| `Condition.EqualIsReflexive` | main.py:385-410 | under a parser whose results are reals (no NaN), every value equals itself |
| `Condition.DecimalParseReadsNaturals` | main.py:387-388 | the reference parser reads every decimal numeral as its value |
| `Condition.NumericEqualityExamples` | main.py:385-401 | "42" = "42.0" and "" = "0" hold; "42" = "42.5" does not |
| `Condition.TextOperatorExamples` | main.py:413-416 | "Error: disk full" contains "disk"; "ready" does not |
| `Text.IsSubstring` | main.py:414 | true exactly when the target occurs in the value at some position |
| `Text.Join` | monitor.py:235 | joining no parts gives `""`, one part gives that part, and any non-empty part gives a non-empty result |
| `Text.RemoveAll` | monitor.py:160 | removing a pattern never lengthens a string, and leaves a string without the pattern unchanged |
| `Text.RemoveAllTrailing` | monitor.py:160 | removing a pattern that only occurs at the end drops it |
| `Text.NatToDecimal` | main.py:379 | the numeral of `n` is all digits, has no leading zero, and denotes `n` |
| `Tree.FirstSatisfying` | monitor.py:67 | the result satisfies the filter and comes from the searched nodes; when there is none, no node satisfies it |
| `Tree.SearchTree` | monitor.py:67 | the recursive search equals the first match in the pre-order listing of the subtree |
| `Tree.FirstDescendant` | monitor.py:67 | a descendant search is the first match among the node's descendants in pre-order |
| `Tree.FirstSatisfyingAppend` | monitor.py:67 | the search takes the first part of a listing before the rest |
| `Tree.ChildDescendantsAreDescendants` | monitor.py:62-67 | a descendant of a child is a descendant of its parent |
| `Resolver.FirstMatchFrom` | monitor.py:98-122 | the index found is the first, from `i` on, whose child matches; no earlier child matches |
| `Resolver.ChildFor` | monitor.py:98-139 | a path step takes the first strict match; only when there is none does it take the first relaxed match; it fails exactly when neither exists |
| `Resolver.StepToChild` | monitor.py:95-139 | the two child loops of one path step compute `ChildFor` |
| `Resolver.FindByPath` | monitor.py:83-146 | the path walk computes `ResolvePath`: `None` for an empty path, segment 0 skipped, and no partial result |
| `Resolver.WalkPathFollowsSegments` | monitor.py:94-141 | a successful walk reaches a node along child indices whose children matched the segments one by one |
| `Resolver.WalkPathCompose` | monitor.py:94-141 | walking `a + b` is walking `a` and then `b` |
| `Resolver.OneSegmentResolvesToRoot` | monitor.py:91-94 | a one-segment path resolves to the root itself |
| `Resolver.EmptySegmentTakesFirstChild` | monitor.py:103-122 | a segment with every field empty matches the first child |
| `Resolver.StrictBeatsEarlierRelaxed` | monitor.py:98-136 | an earlier child that matches only loosely loses to a later strict match |
| `Resolver.ScopedSearch` | monitor.py:61-71 | a result satisfies the filter and lies in a top-level window of the process; with no such window there is no result |
| `Resolver.ScopedSearchIsComplete` | monitor.py:61-71 | a match below some window of the process is always found |
| `Resolver.ScopedSearchTakesFirstWindow` | monitor.py:61-71 | the result is the first match of the first window of the process that holds a match |
| `Resolver.SearchProcessWindows` | monitor.py:61-71 | the window loop computes `ScopedSearch` |
| `Resolver.SearchScopedThenGlobal` | monitor.py:61-76 | the method computes `ScopedThenGlobal`; its scoped-first order, fallback and completeness are the three lemmas below |
| `Resolver.ScopedThenGlobalIsSound` | monitor.py:61-76 | whatever the two-stage search returns satisfies the filter and is a descendant of the root |
| `Resolver.ScopedThenGlobalIsComplete` | monitor.py:61-76 | when some descendant of the root matches, the two-stage search finds one |
| `Resolver.ScopedThenGlobalPrefersProcess` | monitor.py:61-71 | with a process id and a match below a window of that process, the result is the scoped one and lies in such a window, even if an earlier node elsewhere matches |
| `Resolver.ScopedThenGlobalFallsBack` | monitor.py:61-76 | with process id 0, or no match below the process's windows, the result is the tree-wide search |
| `Resolver.ByAutomationId` | monitor.py:51-81 | `None` for an empty id; a result carries exactly the locator's automation id and lies inside the desktop; an element with that id is always found, and one inside a window of the locator's process is preferred |
| `Resolver.FindByAutomationId` | monitor.py:51-81 | the method computes `ByAutomationId` |
| `Resolver.PropertyFilter` | monitor.py:150-169 | the filter is absent exactly when control type, class and name are all empty; each present field comes from the matching non-empty locator field |
| `Resolver.ByProperties` | monitor.py:148-191 | `None` without criteria; a result satisfies the criteria and lies inside the desktop; a matching element is always found, and one inside a window of the locator's process is preferred |
| `Resolver.FindByProperties` | monitor.py:148-191 | the method computes `ByProperties` |
| `Resolver.ControlTypeKeyExample` | monitor.py:160 | "ButtonControl" becomes the key "Button" |
| `Resolver.UnknownControlTypeNeverFound` | monitor.py:160 | a control type whose key is not in the table makes the property search fail |
| `Resolver.FindElement` | monitor.py:28-49 | the method computes `Resolve`: id first (only when non-empty), then path (only when non-empty), then properties |
| `Resolver.NodeAtIsInTree` | monitor.py:83-141 | an address leads to the root or to one of its descendants |
| `Resolver.ResolveIsSound` | monitor.py:28-49 | a found element is the root or a descendant, and carries the id, path or properties that found it |
| `Resolver.EmptyLocatorFindsNothing` | monitor.py:28-49 | an all-empty locator finds nothing |
| `Resolver.StaleIdFallsBackToPath` | monitor.py:33-42 | an id that no longer occurs falls through to the path |
| `Resolver.IdMatchTakesPriority` | monitor.py:33-36 | when the id still occurs, the element found carries it |
| `Extractor.FirstNonEmptyIsEarliest` | monitor.py:193-255 | the chain yields `""` exactly when every step is empty; otherwise it yields the earliest non-empty step |
| `Extractor.NonEmptyNames` | monitor.py:233 | keeps exactly the non-empty selected names, and all of them when none is empty |
| `Extractor.NonEmptyNamesOne` | monitor.py:233 | one name is kept exactly when it is not empty |
| `Extractor.NonEmptyNamesAppend` | monitor.py:233 | filtering distributes over concatenation, so the kept names stay in order and keep their multiplicity |
| `Extractor.SelectionText` | monitor.py:227-237 | the selection step yields a value exactly when some selected name is non-empty, and that value is non-empty |
| `Extractor.MonitorValue` | monitor.py:193-255 | the monitor's read is `""` exactly when value, text, range, selection and name are all empty and there is no toggle pattern |
| `Extractor.MonitorValueIsFirstNonEmpty` | monitor.py:193-255 | the monitor's read is the first non-empty of value, text, range, selection, toggle, name |
| `Extractor.SelectorValue` | ui_selector.py:182-219 | the selector's read is `""` exactly when value, text, range and name are all empty |
| `Extractor.SelectorValueIsFirstNonEmpty` | ui_selector.py:182-219 | the selector's read is the first non-empty of value, text, range, name |
| `Extractor.ToggleIsUnconditional` | monitor.py:239-246 | a present toggle pattern decides the value ("0", "1" or "2") before the name is consulted |
| `Extractor.ChainsAgreeWithoutSelectionOrToggle` | monitor.py:193-255 | without selection and toggle the two chains agree |
| `Extractor.CheckBoxChainsDiffer` | ui_selector.py:182-219 | on a named, checked check box the selector reads the name while the monitor reads "1" |
| `Extractor.SelectionJoinExample` | monitor.py:233-235 | a selection of "Red", "", "Blue" reads "Red, Blue" |
| `Extractor.ElementValue` | monitor.py:14-26 | `None` exactly when the element cannot be re-located; otherwise the monitor chain's read of the element found |
| `Extractor.GetElementValue` | monitor.py:14-26 | the method computes `ElementValue` |
| `Monitor.SetCell` | main.py:314-336 | only one cell of one row changes; an out-of-range row or column leaves the table unchanged |
| `Monitor.ItemOutcome` | main.py:289-310 | the status is 已触发 exactly when the condition holds, no sound plays and a sound is set; it is left untouched exactly when the condition holds while a sound plays; it is 监控中 when the condition is false; it is 错误 when a required key is missing |
| `Monitor.ItemStep` | main.py:285-310 | one item changes only its own row, never stops a playing sound, and plays at most its own sound |
| `Monitor.RunSplit` | main.py:285 | the cycle over items `lo..hi` is the cycle over `lo..mid` followed by `mid..hi` |
| `Monitor.RunFrame` | main.py:285-310 | the cycle keeps every row's length and leaves rows outside the items visited unchanged |
| `Monitor.RunPlaysAtMostOnce` | main.py:303-305 | over any stretch of items at most one sound starts, and none starts while one plays |
| `Monitor.CyclePlaysAtMostOnce` | main.py:284-310 | one poll cycle starts at most one sound, appended to the earlier ones, and none when a sound already plays |
| `Monitor.RowDecidedByItsItem` | main.py:285-310 | each row after the cycle depends only on its own item and on whether a sound was playing when that item was reached |
| `Monitor.FailureOnlyMarksItsRow` | main.py:309-310 | a failing item marks its own status 错误, plays nothing, and does not stop the cycle |
| `Monitor.PlayingOnlySuppressesTheTrigger` | main.py:301-307 | a playing sound only suppresses the status and sound of an item whose condition holds |
| `Monitor.ProgressLabelIsFound` | monitor.py:51-76 | a label with automation id "progress" in a window of process 7 is re-located by id and read |
| `Monitor.ThresholdExamples` | main.py:385-401 | "57" >= "50" holds, and "12" >= "50" does not |
| `Monitor.ProgressAlarmEndToEnd` | main.py:289-307 | at "Progress: 57%" with target `>= 50` the item triggers its sound, or keeps its status while a sound plays; at "Progress: 12%" it stays 监控中 |
| `Monitor.MissingElementReadsAsZero` | main.py:291-301 | an element that cannot be found shows `""`, which is compared as 0, so `< 5` holds |
| `Monitor.DisplayName` | main.py:235 | the row's name is the element's name, else its automation id, else 未命名, and is never empty |
| `Monitor.AfterLastSeparator` | main.py:241 | the result is the path's longest suffix without a separator: it is the whole string or is preceded by a separator |
| `Monitor.BaseName` | main.py:241 | the sound column shows everything after the drive prefix and the last separator of the sound file path |
| `Monitor.RowFor` | main.py:234-244 | a row exists exactly when the item has element info, condition, target and sound; it has six columns, starts 监控中, and shows the display name and the captured value |
| `Monitor.MonitorApp.constructor` | main.py:229-231 | a new application has no items, no rows and no sound playing |
| `Monitor.MonitorApp.UpdateTreeItem` | main.py:314-324 | rewrites only column 5 of row `index`; an out-of-range index changes nothing |
| `Monitor.MonitorApp.UpdateTreeStatus` | main.py:326-336 | rewrites only column 4 of row `index`; an out-of-range index changes nothing |
| `Monitor.MonitorApp.PlaySound` | sound_player.py:36-56 | a sound starts only when none plays and its file exists |
| `Monitor.MonitorApp.StopSound` | main.py:263-265 | the sound stops; nothing else changes |
| `Monitor.MonitorApp.AddMonitorItem` | main.py:229-246 | the item is appended; a row is appended when every key it shows is present |
| `Monitor.MonitorApp.RemoveSelected` | main.py:248-261 | the selected row is deleted; the item at the same index is deleted only when `0 <= index < len(items)` |
| `Monitor.MonitorApp.PollCycle` | main.py:284-310 | the loop over the items computes `Cycle` from the previous rows and sound state |
| `Selector.SegmentOf` | ui_selector.py:249-254 | a path entry is recorded exactly when all four reads succeed |
| `Selector.SegmentMatchesItsElement` | ui_selector.py:249-254 | an element strictly matches its own recorded segment |
| `Selector.CaptureAccIsCaptureUp` | ui_selector.py:241-265 | the insert-at-front loop's accumulator form equals the root-first capture |
| `Selector.CapturePath` | ui_selector.py:241-265 | the path has at most 20 entries, and its last entry describes the element itself |
| `Selector.CaptureUpShape` | ui_selector.py:241-265 | the capture has at most `20 - depth` entries, and its last entry is the current node's |
| `Selector.BuildPath` | ui_selector.py:241-265 | the parent walk computes `CapturePath` |
| `Selector.LocatorHeader` | ui_selector.py:223-239 | each field holds its read when that read and every earlier one succeeded, and its default otherwise; a failed id read leaves the empty locator |
| `Selector.BuildLocator` | ui_selector.py:221-269 | the method computes `LocatorOf` |
| `Selector.TopDownSnoc` | ui_selector.py:247-261 | the root-first path of an address is its parent's path followed by its own entry |
| `Selector.CaptureUpIsTopDown` | ui_selector.py:241-265 | below the depth cap, the captured path lists every ancestor root-first |
| `Selector.WalkTopDown` | monitor.py:94-141 | walking a root-first path, whose steps are all first strict matches, leads back to the element |
| `Selector.CapturedPathLeadsBack` | ui_selector.py:241-265 | round trip: the captured path has one entry per level and re-resolves to the captured element |
| `Selector.TopDownLength` | ui_selector.py:241-265 | a root-first path has one entry per tree level |
| `Selector.DeepPathIsTruncated` | ui_selector.py:245-247 | an element 20 or more levels deep gets exactly 20 entries |
| `Selector.DeepCaptureIsFull` | ui_selector.py:245-261 | when the depth cap is reached before the root, the capture fills every remaining slot |
| `Selector.ElementInfoOf` | ui_selector.py:118-180 | the info always carries the locator and the selector chain's value |
| `Selector.GetElementInfo` | ui_selector.py:118-180 | the method computes `ElementInfoOf` |
| `Selector.VanishedElementInfo` | ui_selector.py:120-130 | an element whose reads all fail keeps every default and the empty locator |
| `Selector.InfoAgreesWithLocator` | ui_selector.py:132-178 | when every read succeeds, the info's fields and the locator's header agree |
| `Selector.FailedIdReadEmptiesLocator` | ui_selector.py:232-239 | a failing id read leaves the locator header empty even though the name read alone succeeds |
| `Selector.Decide` | ui_selector.py:62-78 | ESC cancels even with Ctrl and the button down; confirmation needs both keys down and not already down on the previous poll |
| `Selector.SelectionEndsAtFirstChord` | ui_selector.py:60-78 | starting from "not pressed", a run of key samples ends at the first ESC or Ctrl+click; the edge flag is never set before that |
| `Selector.UISelector.constructor` | ui_selector.py:14-25 | the selector starts stopped, with no hovered element and no highlight |
| `Selector.UISelector.Start` | ui_selector.py:27-33 | sets `running` and resets the edge flag |
| `Selector.UISelector.ClearHighlight` | ui_selector.py:309-320 | does nothing without a highlight; otherwise invalidates the rectangle grown by 5 and forgets it |
| `Selector.UISelector.ShowHighlight` | ui_selector.py:271-284 | acts only on a rectangle with positive width and height that differs from the last one; it then clears, draws and remembers it |
| `Selector.UISelector.Stop` | ui_selector.py:35-39 | clears `running`, then clears the highlight |
| `Selector.UISelector.CancelSelection` | ui_selector.py:108-111 | stops, erasing the highlight, then delivers `None` |
| `Selector.UISelector.ConfirmSelection` | ui_selector.py:96-106 | stops, erasing the highlight, then delivers the info of the last hovered element, or `None` when there was none |
| `Selector.UISelector.PollOnce` | ui_selector.py:62-89 | one key sample cancels, confirms or keeps going; when it stops, the highlight is erased; when it keeps going it records the element under the cursor and highlights it exactly as `ShowHighlight` does |

## Left out

- The Tk window, dialogs and widgets (`main.py` lines 46-227, `start_selection`, `on_element_selected`). The table is a `seq` of six-column rows.
- `save_config` and `load_config` (JSON file I/O). The model has no persistence.
- The item's `interval` field. The poll loop never reads it.
- Threads, COM initialisation and the sleeps of both loops. The model takes one poll cycle, or one key sample, at a time.
- The marshalling of the selector's callback onto the main thread. Delivered results are appended to `results` in order.
- sound_player.py's playback and its mouse-move silencing. `Monitor.MonitorApp.PlaySound` models only its two guards and records the file; `StopSound` models only the flag.
- The uiautomation library. `GetChildren` is the node's child sequence. A descendant search is a pre-order walk over descendants, excluding the node itself, which is an assumed order. `Exists(0, 0)` is "the search found something".
- The library's table from `ControlType` attribute names to numeric types is not visible. It is the parameter `ControlTypeTable`.
- A `GetChildren` call that raises is not modelled; a child whose property read raises is modelled (it is skipped).
- Python `float()` (whitespace, exponents, inf/nan, rounding) and `str()` of the range value's double. Both are abstract: `parse` is a parameter, and a range value is the string the pattern yields.
- `Condition.EqualIsReflexive`: holds only for parsers that return reals. With Python's `float`, "nan" parses to NaN, and `check_condition("nan", "=", "nan")` is false at main.py:395.
- Unicode digits matched by `\d`. Only ASCII digits are modelled.
- GDI drawing, `InvalidateRect`, `GetAsyncKeyState` and `GetCursorPos`. Drawn and invalidated rectangles are recorded in sequences; key states and the element under the cursor are inputs.
- `Selector.BuildPath`: does not model the `parent == current` stop. In a tree value a node is never its own parent.
- Keys missing inside `element_info`, inside the locator or inside a path entry, and JSON values that are not strings. The records have every field; only an item's top-level keys are optional.
- `element_cache`. It is created and never read or written.
- `Monitor.BaseName`: does not model UNC paths (`\\server\share`) or other `os.path.splitdrive` forms. It drops only a two-character drive prefix, then everything up to the last `\` or `/`.
