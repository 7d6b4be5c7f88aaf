/** Reading a displayable value out of an element: the priority chain of
    pattern reads in monitor.py `_get_value`, the shorter chain of
    ui_selector.py `_get_element_value`, and monitor.py `get_element_value`,
    which re-locates the element first. */
module Extractor {
  import opened Wrappers
  import opened Text
  import opened Tree
  import opened Descriptor
  import opened Resolver

  /** Reference definition: the first candidate that is present and
      non-empty, or "" when there is none. */
  function FirstNonEmpty(cands: seq<Option<string>>): string {
    if cands == [] then ""
    else if NonEmpty(cands[0]) then cands[0].value
    else FirstNonEmpty(cands[1..])
  }

  /** The reference picks the earliest usable candidate, and "" only when
      there is none. */
  lemma {:induction false} FirstNonEmptyIsEarliest(cands: seq<Option<string>>)
    ensures FirstNonEmpty(cands) == "" <==> forall i :: 0 <= i < |cands| ==> !NonEmpty(cands[i])
    ensures FirstNonEmpty(cands) != "" ==>
      exists i :: 0 <= i < |cands| && cands[i] == Some(FirstNonEmpty(cands)) &&
                  forall j :: 0 <= j < i ==> !NonEmpty(cands[j])
  {
    if cands != [] && !NonEmpty(cands[0]) {
      var r := FirstNonEmpty(cands[1..]);
      FirstNonEmptyIsEarliest(cands[1..]);
      assert forall i :: 1 <= i < |cands| ==> cands[i] == cands[1..][i - 1];
      if r != "" {
        var i :| 0 <= i < |cands[1..]| && cands[1..][i] == Some(r) &&
                 forall j :: 0 <= j < i ==> !NonEmpty(cands[1..][j]);
        assert forall j :: 0 <= j < i + 1 ==> !NonEmpty(cands[j]) by {
          forall j | 0 <= j < i + 1 ensures !NonEmpty(cands[j]) {
            if j > 0 { assert cands[j] == cands[1..][j - 1]; }
          }
        }
      }
    }
  }

  /** The selected items' names that are not empty, in order. */
  function NonEmptyNames(names: seq<string>): (r: seq<string>)
    ensures forall i :: 0 <= i < |r| ==> r[i] != ""
    ensures forall x :: x in r <==> x in names && x != ""
    ensures (forall i :: 0 <= i < |names| ==> names[i] != "") ==> r == names
  {
    if names == [] then []
    else if names[0] == "" then NonEmptyNames(names[1..])
    else [names[0]] + NonEmptyNames(names[1..])
  }

  /** One name is kept exactly when it is not empty. */
  lemma NonEmptyNamesOne(x: string)
    ensures NonEmptyNames([x]) == if x == "" then [] else [x]
  {
    assert [x][1..] == [];
  }

  /** Filtering distributes over concatenation; with `NonEmptyNamesOne`
      this fixes the result: the kept names in their original order, each
      as often as it occurs. */
  lemma {:induction false} NonEmptyNamesAppend(a: seq<string>, b: seq<string>)
    ensures NonEmptyNames(a + b) == NonEmptyNames(a) + NonEmptyNames(b)
  {
    if a == [] {
      assert a + b == b;
    } else {
      assert (a + b)[0] == a[0];
      assert (a + b)[1..] == a[1..] + b;
      NonEmptyNamesAppend(a[1..], b);
    }
  }

  /** What the selection step yields: the non-empty names joined by ", ",
      or nothing when the pattern is absent or no selected item has a name. */
  function SelectionText(selection: Option<seq<string>>): (r: Option<string>)
    ensures r.Some? <==> selection.Some? && exists x :: x in selection.value && x != ""
    ensures r.Some? ==> r.value != ""
  {
    if selection.None? then None
    else
      var names := NonEmptyNames(selection.value);
      if names == [] then
        assert forall x :: x in selection.value && x != "" ==> x in names;
        None
      else
        assert names[0] != "" && names[0] in names;
        Some(Join(names, ", "))
  }

  /** The candidates of monitor.py `_get_value`, in priority order. */
  function MonitorCandidates(e: Node): seq<Option<string>> {
    var p := e.patterns;
    [p.value, p.text, p.range, SelectionText(p.selection),
     if p.toggle.Some? then Some(p.toggle.value.Text()) else None,
     e.name]
  }

  /** monitor.py `_get_value`. A pattern whose read fails, or yields "", is
      passed over; a toggle pattern that can be read always decides. */
  function MonitorValue(e: Node): (r: string)
    ensures r == "" <==>
      && !NonEmpty(e.patterns.value) && !NonEmpty(e.patterns.text) && !NonEmpty(e.patterns.range)
      && SelectionText(e.patterns.selection).None? && e.patterns.toggle.None? && !NonEmpty(e.name)
  {
    var p := e.patterns;
    if NonEmpty(p.value) then p.value.value
    else if NonEmpty(p.text) then p.text.value
    else if NonEmpty(p.range) then p.range.value
    else if SelectionText(p.selection).Some? then SelectionText(p.selection).value
    else if p.toggle.Some? then p.toggle.value.Text()
    else if NonEmpty(e.name) then e.name.value
    else ""
  }

  /** The candidates of ui_selector.py `_get_element_value`: no selection
      and no toggle step. */
  function SelectorCandidates(e: Node): seq<Option<string>> {
    [e.patterns.value, e.patterns.text, e.patterns.range, e.name]
  }

  /** ui_selector.py `_get_element_value`. */
  function SelectorValue(e: Node): (r: string)
    ensures r == "" <==>
      !NonEmpty(e.patterns.value) && !NonEmpty(e.patterns.text) && !NonEmpty(e.patterns.range) && !NonEmpty(e.name)
  {
    var p := e.patterns;
    if NonEmpty(p.value) then p.value.value
    else if NonEmpty(p.text) then p.text.value
    else if NonEmpty(p.range) then p.range.value
    else if NonEmpty(e.name) then e.name.value
    else ""
  }

  lemma FirstNonEmptyCons(a: Option<string>, rest: seq<Option<string>>)
    ensures FirstNonEmpty([a] + rest) == if NonEmpty(a) then a.value else FirstNonEmpty(rest)
  {
    assert ([a] + rest)[0] == a;
    assert ([a] + rest)[1..] == rest;
  }

  /** Each chain returns its first present, non-empty candidate. */
  lemma MonitorValueIsFirstNonEmpty(e: Node)
    ensures MonitorValue(e) == FirstNonEmpty(MonitorCandidates(e))
  {
    var c := MonitorCandidates(e);
    FirstNonEmptyCons(c[5], []);
    assert [c[5]] + [] == c[5..];
    FirstNonEmptyCons(c[4], c[5..]);
    assert [c[4]] + c[5..] == c[4..];
    FirstNonEmptyCons(c[3], c[4..]);
    assert [c[3]] + c[4..] == c[3..];
    FirstNonEmptyCons(c[2], c[3..]);
    assert [c[2]] + c[3..] == c[2..];
    FirstNonEmptyCons(c[1], c[2..]);
    assert [c[1]] + c[2..] == c[1..];
    FirstNonEmptyCons(c[0], c[1..]);
    assert [c[0]] + c[1..] == c;
  }

  lemma SelectorValueIsFirstNonEmpty(e: Node)
    ensures SelectorValue(e) == FirstNonEmpty(SelectorCandidates(e))
  {
    var c := SelectorCandidates(e);
    FirstNonEmptyCons(c[3], []);
    assert [c[3]] + [] == c[3..];
    FirstNonEmptyCons(c[2], c[3..]);
    assert [c[2]] + c[3..] == c[2..];
    FirstNonEmptyCons(c[1], c[2..]);
    assert [c[1]] + c[2..] == c[1..];
    FirstNonEmptyCons(c[0], c[1..]);
    assert [c[0]] + c[1..] == c;
  }

  /** A readable toggle state decides the monitored value whenever value,
      text, range and selection yield nothing, whatever the name is. */
  lemma ToggleIsUnconditional(e: Node)
    requires !NonEmpty(e.patterns.value) && !NonEmpty(e.patterns.text) && !NonEmpty(e.patterns.range)
    requires SelectionText(e.patterns.selection).None? && e.patterns.toggle.Some?
    ensures MonitorValue(e) in {"0", "1", "2"}
    ensures MonitorValue(e) == e.patterns.toggle.value.Text()
  {
  }

  /** The two chains agree on every element without a readable selection
      or toggle state. */
  lemma ChainsAgreeWithoutSelectionOrToggle(e: Node)
    requires SelectionText(e.patterns.selection).None? && e.patterns.toggle.None?
    ensures MonitorValue(e) == SelectorValue(e)
  {
  }

  /** They differ on a checked check box that has a name: the monitor
      reports the toggle state, the selector the name. */
  lemma CheckBoxChainsDiffer()
    ensures var box := StaleNode.(name := Some("Remember me"), patterns := NoPatterns.(toggle := Some(On)));
      MonitorValue(box) == "1" && SelectorValue(box) == "Remember me"
  {
  }

  /** The selection step joins the non-empty names. */
  lemma SelectionJoinExample()
    ensures SelectionText(Some(["Red", "", "Blue"])) == Some("Red, Blue")
  {
    var names: seq<string> := ["Red", "", "Blue"];
    assert NonEmptyNames(names[2..]) == ["Blue"] by {
      assert names[2..][1..] == [];
    }
    assert names[1..][1..] == names[2..];
    assert NonEmptyNames(names[1..]) == ["Blue"];
    assert NonEmptyNames(names) == ["Red", "Blue"];
    assert Join(["Red", "Blue"], ", ") == "Red" + ", " + "Blue" by {
      assert ["Red", "Blue"][1..] == ["Blue"];
    }
    assert "Red" + ", " + "Blue" == "Red, Blue";
    assert SelectionText(Some(names)) == Some(Join(["Red", "Blue"], ", "));
  }

  /** monitor.py `get_element_value`: nothing when the element cannot be
      re-located, otherwise the monitored value of what was found. */
  function ElementValue(root: Node, loc: Locator, table: ControlTypeTable): (r: Option<string>)
    ensures r.None? <==> Resolve(root, loc, table).None?
    ensures r.Some? ==> r.value == MonitorValue(Resolve(root, loc, table).value)
  {
    match Resolve(root, loc, table)
    case None => None
    case Some(e) => Some(MonitorValue(e))
  }

  method GetElementValue(root: Node, loc: Locator, table: ControlTypeTable) returns (r: Option<string>)
    ensures r == ElementValue(root, loc, table)
  {
    var element := FindElement(root, loc, table);
    if element.None? {
      return None;
    }
    return Some(MonitorValue(element.value));
  }
}
