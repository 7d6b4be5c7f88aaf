/** The monitoring window's bookkeeping (main.py): the list of monitored
    items, the table that shows one row per item, the item-adding and
    removing commands, and one pass of the polling loop. */
module Monitor {
  import opened Wrappers
  import opened Text
  import opened Tree
  import opened Descriptor
  import opened Resolver
  import opened Extractor
  import opened Transform
  import opened Condition

  // ---------------------------------------------------------------------
  // Items, rows and the world a poll reads
  // ---------------------------------------------------------------------

  /** A monitored item as stored in the configuration. Every key may be
      missing; `enabled` and `extractMode` have defaults when missing, the
      others raise a key error where they are used. */
  datatype MonitorItem = MonitorItem(
    elementInfo: Option<ElementInfo>,
    condition: Option<string>,
    targetValue: Option<string>,
    extractMode: Option<string>,
    soundFile: Option<string>,
    enabled: Option<bool>)

  /** The table's columns: name, condition, target, sound, status, current value. */
  const Columns: nat := 6
  const StatusColumn: nat := 4
  const ValueColumn: nat := 5

  const StatusMonitoring := "监控中"
  const StatusTriggered := "已触发"
  const StatusError := "错误"
  const Unnamed := "未命名"
  const RawMode := "原始值"

  /** What one poll reads from outside: the desktop tree, the library's
      control-type table, Python's float parse, and which sound files exist. */
  datatype World = World(
    root: Node,
    controlTypes: ControlTypeTable,
    parse: string -> Option<real>,
    soundFiles: set<string>)

  // ---------------------------------------------------------------------
  // The table helpers
  // ---------------------------------------------------------------------

  /** Overwrite one cell; an index or column out of range changes nothing. */
  function SetCell(rows: seq<seq<string>>, index: int, column: nat, v: string): (r: seq<seq<string>>)
    ensures |r| == |rows|
    ensures forall j :: 0 <= j < |rows| && j != index ==> r[j] == rows[j]
    ensures 0 <= index < |rows| && column < |rows[index]| ==>
      |r[index]| == |rows[index]| && r[index][column] == v &&
      forall c :: 0 <= c < |rows[index]| && c != column ==> r[index][c] == rows[index][c]
    ensures !(0 <= index < |rows| && column < |rows[index]|) ==> r == rows
  {
    if 0 <= index < |rows| && column < |rows[index]| then rows[index := rows[index][column := v]] else rows
  }

  // ---------------------------------------------------------------------
  // One item of the poll
  // ---------------------------------------------------------------------

  /** The value shown for an item: the element's value, re-located and
      transformed by the item's extraction mode (raw when none is set). */
  function ShownValue(info: ElementInfo, item: MonitorItem, w: World): string {
    ExtractValue(ElementValue(w.root, info.locator, w.controlTypes), item.extractMode.GetOr(RawMode))
  }

  /** The item has every key the condition needs and the condition holds on
      the shown value. */
  predicate Holds(item: MonitorItem, w: World) {
    item.elementInfo.Some? && item.condition.Some? && item.targetValue.Some? &&
    CheckCondition(ShownValue(item.elementInfo.value, item, w), item.condition.value, item.targetValue.value, w.parse)
  }

  /** What the poll does for one enabled item: the value written to the
      current-value cell, the status written, and the sound passed to the
      player (each `None` when not done). */
  datatype Outcome = Outcome(shown: Option<string>, status: Option<string>, sound: Option<string>)

  function ItemOutcome(item: MonitorItem, w: World, playing: bool): (o: Outcome)
    ensures o.shown.Some? <==> item.elementInfo.Some?
    ensures o.shown.Some? ==> o.shown.value == ShownValue(item.elementInfo.value, item, w)
    ensures o.sound.Some? <==> Holds(item, w) && !playing && item.soundFile.Some?
    ensures o.sound.Some? ==> o.sound == item.soundFile
    ensures o.status == Some(StatusTriggered) <==> o.sound.Some?
    ensures o.status == Some(StatusMonitoring) <==>
      item.elementInfo.Some? && item.condition.Some? && item.targetValue.Some? && !Holds(item, w)
    ensures o.status.None? <==> Holds(item, w) && playing
    ensures o.status == Some(StatusError) <==>
      item.elementInfo.None? || item.condition.None? || item.targetValue.None? ||
      (Holds(item, w) && !playing && item.soundFile.None?)
  {
    match item.elementInfo
    case None => Outcome(None, Some(StatusError), None)
    case Some(info) =>
      var shown := ShownValue(info, item, w);
      if item.condition.None? || item.targetValue.None? then Outcome(Some(shown), Some(StatusError), None)
      else if !CheckCondition(shown, item.condition.value, item.targetValue.value, w.parse) then
        Outcome(Some(shown), Some(StatusMonitoring), None)
      else if playing then Outcome(Some(shown), None, None)
      else if item.soundFile.None? then Outcome(Some(shown), Some(StatusError), None)
      else Outcome(Some(shown), Some(StatusTriggered), item.soundFile)
  }

  /** The table and the player as one poll sees them: the rows, whether a
      sound is playing, and the sounds started so far. */
  datatype Display = Display(rows: seq<seq<string>>, playing: bool, played: seq<string>)

  /** The player's `play`: ignored while a sound plays or when the file does
      not exist; otherwise the sound starts. */
  function Play(d: Display, file: string, files: set<string>): Display {
    if d.playing || file !in files then d
    else d.(playing := true, played := d.played + [file])
  }

  function ApplyOutcome(d: Display, i: nat, o: Outcome, files: set<string>): Display {
    var rows := if o.shown.Some? then SetCell(d.rows, i, ValueColumn, o.shown.value) else d.rows;
    var rows' := if o.status.Some? then SetCell(rows, i, StatusColumn, o.status.value) else rows;
    var d' := d.(rows := rows');
    if o.sound.Some? then Play(d', o.sound.value, files) else d'
  }

  predicate Enabled(item: MonitorItem) {
    item.enabled.GetOr(true)
  }

  /** One iteration of the poll loop, for item `i`. */
  function ItemStep(d: Display, i: nat, item: MonitorItem, w: World): (r: Display)
    ensures |r.rows| == |d.rows|
    ensures forall j :: 0 <= j < |d.rows| ==> |r.rows[j]| == |d.rows[j]|
    ensures forall j :: 0 <= j < |d.rows| && j != i ==> r.rows[j] == d.rows[j]
    ensures d.playing ==> r.playing && r.played == d.played
    ensures r.played == d.played || (!d.playing && r.playing && item.soundFile.Some? && r.played == d.played + [item.soundFile.value])
  {
    if !Enabled(item) then d
    else ApplyOutcome(d, i, ItemOutcome(item, w, d.playing), w.soundFiles)
  }

  /** Items `lo` to `hi - 1` processed in list order. */
  function Run(d: Display, items: seq<MonitorItem>, w: World, lo: nat, hi: nat): (r: Display)
    requires lo <= hi <= |items|
    ensures |r.rows| == |d.rows|
    decreases hi
  {
    if lo == hi then d else ItemStep(Run(d, items, w, lo, hi - 1), hi - 1, items[hi - 1], w)
  }

  /** One pass of the polling loop over every item. */
  function Cycle(d: Display, items: seq<MonitorItem>, w: World): Display {
    Run(d, items, w, 0, |items|)
  }

  // ---------------------------------------------------------------------
  // What a pass guarantees
  // ---------------------------------------------------------------------

  lemma {:induction false} RunSplit(d: Display, items: seq<MonitorItem>, w: World, lo: nat, mid: nat, hi: nat)
    requires lo <= mid <= hi <= |items|
    ensures Run(d, items, w, lo, hi) == Run(Run(d, items, w, lo, mid), items, w, mid, hi)
    decreases hi
  {
    if mid < hi {
      RunSplit(d, items, w, lo, mid, hi - 1);
    }
  }

  /** A pass keeps the table's shape and writes row `i` only while visiting
      item `i`. */
  lemma {:induction false} RunFrame(d: Display, items: seq<MonitorItem>, w: World, lo: nat, hi: nat)
    requires lo <= hi <= |items|
    ensures |Run(d, items, w, lo, hi).rows| == |d.rows|
    ensures forall j :: 0 <= j < |d.rows| ==> |Run(d, items, w, lo, hi).rows[j]| == |d.rows[j]|
    ensures forall j :: 0 <= j < |d.rows| && (j < lo || hi <= j) ==> Run(d, items, w, lo, hi).rows[j] == d.rows[j]
    decreases hi
  {
    if lo < hi {
      RunFrame(d, items, w, lo, hi - 1);
    }
  }

  /** A pass starts at most one sound, and none while one is already
      playing; the sounds started before are kept. */
  lemma {:induction false} RunPlaysAtMostOnce(d: Display, items: seq<MonitorItem>, w: World, lo: nat, hi: nat)
    requires lo <= hi <= |items|
    ensures var r := Run(d, items, w, lo, hi);
      && |d.played| <= |r.played| <= |d.played| + 1
      && r.played[..|d.played|] == d.played
      && (|r.played| > |d.played| ==> r.playing)
      && (d.playing ==> r.played == d.played && r.playing)
    decreases hi
  {
    if lo < hi {
      RunPlaysAtMostOnce(d, items, w, lo, hi - 1);
      var s := Run(d, items, w, lo, hi - 1);
      var r := ItemStep(s, hi - 1, items[hi - 1], w);
      if r.played != s.played {
        assert r.played[..|d.played|] == s.played[..|d.played|];
      }
    }
  }

  lemma CyclePlaysAtMostOnce(d: Display, items: seq<MonitorItem>, w: World)
    ensures |d.played| <= |Cycle(d, items, w).played| <= |d.played| + 1
    ensures Cycle(d, items, w).played[..|d.played|] == d.played
    ensures d.playing ==> Cycle(d, items, w).played == d.played
  {
    RunPlaysAtMostOnce(d, items, w, 0, |items|);
  }

  /** The row an enabled item's outcome leaves behind. */
  function RowAfter(row: seq<string>, item: MonitorItem, w: World, playing: bool): seq<string> {
    if !Enabled(item) then row
    else
      var o := ItemOutcome(item, w, playing);
      var row' := if o.shown.Some? && ValueColumn < |row| then row[ValueColumn := o.shown.value] else row;
      if o.status.Some? && StatusColumn < |row'| then row'[StatusColumn := o.status.value] else row'
  }

  /** Row `i` after a pass is decided by item `i` alone and by whether a
      sound was playing when the pass reached it; no other item, failing or
      not, writes to it. */
  lemma RowDecidedByItsItem(d: Display, items: seq<MonitorItem>, w: World, i: nat)
    requires i < |items| && i < |d.rows|
    ensures Cycle(d, items, w).rows[i] == RowAfter(d.rows[i], items[i], w, Run(d, items, w, 0, i).playing)
  {
    RunSplit(d, items, w, 0, i + 1, |items|);
    var s := Run(d, items, w, 0, i);
    RunFrame(d, items, w, 0, i);
    var t := Run(d, items, w, 0, i + 1);
    assert t == ItemStep(s, i, items[i], w);
    ItemStepRow(s, i, items[i], w);
    RunFrame(t, items, w, i + 1, |items|);
  }

  /** The row an item step leaves behind. */
  lemma ItemStepRow(d: Display, i: nat, item: MonitorItem, w: World)
    requires i < |d.rows|
    ensures ItemStep(d, i, item, w).rows[i] == RowAfter(d.rows[i], item, w, d.playing)
  {
  }

  /** A failing item leaves the player alone, so the items after it are
      processed exactly as if it had been skipped. */
  lemma FailureOnlyMarksItsRow(d: Display, i: nat, item: MonitorItem, w: World)
    requires Enabled(item)
    requires ItemOutcome(item, w, d.playing).status == Some(StatusError)
    ensures ItemStep(d, i, item, w).playing == d.playing
    ensures ItemStep(d, i, item, w).played == d.played
    ensures 0 <= i < |d.rows| && StatusColumn < |d.rows[i]| ==> ItemStep(d, i, item, w).rows[i][StatusColumn] == StatusError
  {
  }

  /** While a sound plays the status of a firing item is left as it was; a
      playing sound changes nothing else about the outcome. */
  lemma PlayingOnlySuppressesTheTrigger(item: MonitorItem, w: World)
    ensures !Holds(item, w) ==> ItemOutcome(item, w, true) == ItemOutcome(item, w, false)
    ensures Holds(item, w) ==> ItemOutcome(item, w, true) == Outcome(ItemOutcome(item, w, false).shown, None, None)
  {
  }

  // ---------------------------------------------------------------------
  // An item end to end
  // ---------------------------------------------------------------------

  /** A progress label showing `text`, inside a window of process 7. */
  function ProgressDesktop(text: string): Node {
    var bar := StaleNode.(automationId := Some("progress"), patterns := NoPatterns.(text := Some(text)));
    var window := StaleNode.(processId := Some(7), children := [bar]);
    StaleNode.(children := [window])
  }

  const ProgressLocator := Locator("progress", "", "", "", 7, [])

  /** The item "alarm when the integer in the label reaches 50". */
  const ProgressItem := MonitorItem(
    Some(ElementInfo("", "progress", "", "", "", None, None, 7, ProgressLocator)),
    Some(">="), Some("50"), Some("提取整数"), Some("C:\\sounds\\alarm.wav"), None)

  lemma ProgressLabelIsFound(text: string)
    ensures ElementValue(ProgressDesktop(text), ProgressLocator, map[]) == Some(text)
  {
    var root := ProgressDesktop(text);
    var window := root.children[0];
    var bar := window.children[0];
    var f := IdFilter("progress");
    assert Satisfies(bar, f);
    assert SearchTree(bar, f) == Some(bar);
    assert FirstDescendant(window, f) == Some(bar);
    assert ScopedSearch(root.children, 7, f) == Some(bar);
  }

  lemma ThresholdExamples()
    ensures CheckCondition("57", ">=", "50", DecimalParse)
    ensures !CheckCondition("12", ">=", "50", DecimalParse)
  {
    ParseTwoDigits("57");
    ParseTwoDigits("50");
    ParseTwoDigits("12");
    assert OperatorOf(">=") == GreaterEqual;
    NumbersCompareNumerically("57", ">=", "50", DecimalParse);
    NumbersCompareNumerically("12", ">=", "50", DecimalParse);
  }

  /** Re-located, transformed, compared and acted on: at 57% the label
      reads 57, which reaches 50 and starts the alarm unless a sound already
      plays; at 12% it reads 12 and the item stays monitoring. */
  lemma ProgressAlarmEndToEnd(files: set<string>)
    ensures var w := World(ProgressDesktop("Progress: 57%"), map[], DecimalParse, files);
      && ItemOutcome(ProgressItem, w, false) == Outcome(Some("57"), Some(StatusTriggered), Some("C:\\sounds\\alarm.wav"))
      && ItemOutcome(ProgressItem, w, true) == Outcome(Some("57"), None, None)
    ensures var w := World(ProgressDesktop("Progress: 12%"), map[], DecimalParse, files);
      ItemOutcome(ProgressItem, w, false) == Outcome(Some("12"), Some(StatusMonitoring), None)
  {
    ProgressLabelIsFound("Progress: 57%");
    ProgressLabelIsFound("Progress: 12%");
    IntegerModeProgressExample();
    IntegerModeLowProgressExample();
    ThresholdExamples();
  }

  /** An element that can no longer be found shows "", and "" is compared
      as the number 0: the item is not reported as unavailable but
      evaluated, so a "less than" condition fires. */
  lemma MissingElementReadsAsZero(item: MonitorItem, w: World)
    requires item.elementInfo.Some? && item.condition.Some? && item.targetValue.Some?
    requires Resolve(w.root, item.elementInfo.value.locator, w.controlTypes).None?
    ensures ShownValue(item.elementInfo.value, item, w) == ""
    ensures Holds(item, w) == CheckCondition("", item.condition.value, item.targetValue.value, w.parse)
    ensures item.condition.value == "<" && item.targetValue.value == "5" && w.parse("5") == Some(5.0) ==> Holds(item, w)
  {
  }

  // ---------------------------------------------------------------------
  // The application object
  // ---------------------------------------------------------------------

  /** The display name of an item: the element's name, else its automation
      id, else a placeholder. */
  function DisplayName(info: ElementInfo): (r: string)
    ensures r != ""
    ensures info.name != "" ==> r == info.name
    ensures info.name == "" && info.automationId != "" ==> r == info.automationId
  {
    if info.name != "" then info.name
    else if info.automationId != "" then info.automationId
    else Unnamed
  }

  predicate IsSeparator(c: char) {
    c == '/' || c == '\\'
  }

  /** The part after the last separator: the longest suffix without one. */
  function AfterLastSeparator(s: string): (r: string)
    ensures forall c :: c in r ==> !IsSeparator(c)
    ensures |r| <= |s| && s[|s| - |r|..] == r
    ensures |r| == |s| || IsSeparator(s[|s| - |r| - 1])
    ensures (forall c :: c in s ==> !IsSeparator(c)) ==> r == s
  {
    if s == [] then []
    else if IsSeparator(s[|s| - 1]) then []
    else
      var r := AfterLastSeparator(s[..|s| - 1]);
      assert s[..|s| - 1][|s| - 1 - |r|..] + [s[|s| - 1]] == s[|s| - 1 - |r|..];
      r + [s[|s| - 1]]
  }

  /** A suffix of a suffix of `s` is a suffix of `s`. */
  lemma SuffixOfSuffix(s: string, rest: string, r: string)
    requires |rest| <= |s| && s[|s| - |rest|..] == rest
    requires |r| <= |rest| && rest[|rest| - |r|..] == r
    ensures s[|s| - |r|..] == r
  {
    assert s[|s| - |r|..] == s[|s| - |rest|..][|rest| - |r|..];
  }

  /** The length of a drive prefix such as "C:". */
  function DriveLength(path: string): nat {
    if |path| >= 2 && path[1] == ':' then 2 else 0
  }

  /** Windows `os.path.basename`: the drive prefix is dropped, then
      everything up to the last slash or backslash. */
  function BaseName(path: string): (r: string)
    ensures forall c :: c in r ==> !IsSeparator(c)
    ensures |r| <= |path| - DriveLength(path) && path[|path| - |r|..] == r
    ensures |r| == |path| - DriveLength(path) || IsSeparator(path[|path| - |r| - 1])
  {
    if DriveLength(path) == 2 then
      var rest := path[2..];
      var r := AfterLastSeparator(rest);
      SuffixOfSuffix(path, rest, r);
      assert |r| < |rest| ==> path[|path| - |r| - 1] == rest[|rest| - |r| - 1];
      r
    else
      AfterLastSeparator(path)
  }

  /** The row an added item gets, or nothing when a key the row needs is
      missing (the insertion then raises). */
  function RowFor(item: MonitorItem): (r: Option<seq<string>>)
    ensures r.Some? <==> item.elementInfo.Some? && item.condition.Some? && item.targetValue.Some? && item.soundFile.Some?
    ensures r.Some? ==> |r.value| == Columns && r.value[StatusColumn] == StatusMonitoring
    ensures r.Some? ==> r.value[0] == DisplayName(item.elementInfo.value) && r.value[ValueColumn] == item.elementInfo.value.value
  {
    if item.elementInfo.None? || item.condition.None? || item.targetValue.None? || item.soundFile.None? then None
    else
      var info := item.elementInfo.value;
      Some([DisplayName(info), item.condition.value, item.targetValue.value,
            BaseName(item.soundFile.value), StatusMonitoring, info.value])
  }

  class MonitorApp {
    var items: seq<MonitorItem>
    var rows: seq<seq<string>>
    var soundPlaying: bool
    var played: seq<string>

    /** Every row has the table's six columns. */
    ghost predicate Valid()
      reads this
    {
      forall j :: 0 <= j < |rows| ==> |rows[j]| == Columns
    }

    function State(): Display
      reads this
    {
      Display(rows, soundPlaying, played)
    }

    constructor()
      ensures Valid()
      ensures items == [] && rows == [] && !soundPlaying && played == []
    {
      items := [];
      rows := [];
      soundPlaying := false;
      played := [];
    }

    /** `update_tree_item`: the current-value cell of row `index`. */
    method UpdateTreeItem(index: int, value: string)
      modifies this
      ensures rows == SetCell(old(rows), index, ValueColumn, value)
      ensures items == old(items) && soundPlaying == old(soundPlaying) && played == old(played)
    {
      if 0 <= index < |rows| && ValueColumn < |rows[index]| {
        rows := rows[index := rows[index][ValueColumn := value]];
      }
    }

    /** `update_tree_status`: the status cell of row `index`. */
    method UpdateTreeStatus(index: int, status: string)
      modifies this
      ensures rows == SetCell(old(rows), index, StatusColumn, status)
      ensures items == old(items) && soundPlaying == old(soundPlaying) && played == old(played)
    {
      if 0 <= index < |rows| && StatusColumn < |rows[index]| {
        rows := rows[index := rows[index][StatusColumn := status]];
      }
    }

    /** The player's `play`. */
    method PlaySound(file: string, files: set<string>)
      modifies this
      ensures State() == Play(old(State()), file, files)
      ensures items == old(items)
    {
      if soundPlaying || file !in files {
        return;
      }
      soundPlaying := true;
      played := played + [file];
    }

    /** `stop_sound`. */
    method StopSound()
      modifies this
      ensures !soundPlaying
      ensures items == old(items) && rows == old(rows) && played == old(played)
    {
      soundPlaying := false;
    }

    /** `add_monitor_item`: the item is always appended; its row only when
        the keys the row needs are present. */
    method AddMonitorItem(item: MonitorItem)
      requires Valid()
      modifies this
      ensures Valid()
      ensures items == old(items) + [item]
      ensures rows == old(rows) + (if RowFor(item).Some? then [RowFor(item).value] else [])
      ensures soundPlaying == old(soundPlaying) && played == old(played)
      ensures old(|rows| == |items|) && RowFor(item).Some? ==> |rows| == |items|
    {
      items := items + [item];
      var row := RowFor(item);
      if row.Some? {
        rows := rows + [row.value];
      }
    }

    /** `remove_selected`: the selected row is deleted, and the item with
        the same index when there is one. */
    method RemoveSelected(selected: Option<nat>)
      requires Valid()
      requires selected.Some? ==> selected.value < |rows|
      modifies this
      ensures Valid()
      ensures selected.None? ==> items == old(items) && rows == old(rows)
      ensures selected.Some? ==> rows == old(rows[..selected.value] + rows[selected.value + 1..])
      ensures selected.Some? && selected.value < old(|items|) ==>
        items == old(items[..selected.value] + items[selected.value + 1..])
      ensures selected.Some? && selected.value >= old(|items|) ==> items == old(items)
      ensures soundPlaying == old(soundPlaying) && played == old(played)
    {
      if selected.None? {
        return;
      }
      var index := selected.value;
      rows := rows[..index] + rows[index + 1..];
      if 0 <= index < |items| {
        items := items[..index] + items[index + 1..];
      }
    }

    /** One pass of `_do_monitor_loop` over the items. */
    method PollCycle(w: World)
      requires Valid()
      modifies this
      ensures Valid()
      ensures items == old(items)
      ensures State() == Cycle(old(State()), items, w)
    {
      var i := 0;
      while i < |items|
        invariant 0 <= i <= |items|
        invariant items == old(items)
        invariant State() == Run(old(State()), items, w, 0, i)
        invariant Valid()
      {
        var item := items[i];
        ghost var before := State();
        if Enabled(item) {
          if item.elementInfo.None? {
            UpdateTreeStatus(i, StatusError);
          } else {
            var current := GetElementValue(w.root, item.elementInfo.value.locator, w.controlTypes);
            var extracted := ExtractValue(current, item.extractMode.GetOr(RawMode));
            UpdateTreeItem(i, extracted);
            if item.condition.None? || item.targetValue.None? {
              UpdateTreeStatus(i, StatusError);
            } else if CheckCondition(extracted, item.condition.value, item.targetValue.value, w.parse) {
              if !soundPlaying {
                if item.soundFile.None? {
                  UpdateTreeStatus(i, StatusError);
                } else {
                  PlaySound(item.soundFile.value, w.soundFiles);
                  UpdateTreeStatus(i, StatusTriggered);
                }
              }
            } else {
              UpdateTreeStatus(i, StatusMonitoring);
            }
          }
        }
        assert State() == ItemStep(before, i, item, w);
        i := i + 1;
      }
    }
  }
}
