/** Re-locating an element from its locator (monitor.py `_find_element` and
    the three strategies it tries). The live desktop is a `Node` value whose
    root is the desktop element. */
module Resolver {
  import opened Wrappers
  import opened Text
  import opened Tree
  import opened Descriptor

  /** The library's control-type table: attribute name to numeric control
      type. A name with no attribute looks up to nothing. */
  type ControlTypeTable = map<string, int>

  // ---------------------------------------------------------------------
  // Strategy 2: the structural path
  // ---------------------------------------------------------------------

  /** An empty wanted field is not compared; a read that raises never matches. */
  predicate FieldMatches(read: Option<string>, wanted: string) {
    wanted == "" || read == Some(wanted)
  }

  /** The strict test: every non-empty field of the segment is equal. */
  predicate StrictMatch(c: Node, seg: PathSegment) {
    && FieldMatches(c.automationId, seg.automationId)
    && FieldMatches(c.className, seg.className)
    && FieldMatches(c.controlTypeName, seg.controlType)
    && FieldMatches(c.name, seg.name)
  }

  /** The relaxed test: control type name and class name are equal, empty
      values included. */
  predicate RelaxedMatch(c: Node, seg: PathSegment) {
    c.controlTypeName == Some(seg.controlType) && c.className == Some(seg.className)
  }

  predicate StepMatch(c: Node, seg: PathSegment, strict: bool) {
    if strict then StrictMatch(c, seg) else RelaxedMatch(c, seg)
  }

  /** The first index from `i` on whose child passes the test. */
  function FirstMatchFrom(cs: seq<Node>, seg: PathSegment, strict: bool, i: nat): (r: Option<nat>)
    requires i <= |cs|
    ensures r.Some? ==> i <= r.value < |cs| && StepMatch(cs[r.value], seg, strict)
    ensures forall k :: i <= k < |cs| && (r.None? || k < r.value) ==> !StepMatch(cs[k], seg, strict)
    decreases |cs| - i
  {
    if i == |cs| then None
    else if StepMatch(cs[i], seg, strict) then Some(i)
    else FirstMatchFrom(cs, seg, strict, i + 1)
  }

  /** The index of the child one step of the walk moves to: the first strict
      match, otherwise the first relaxed match. */
  function ChildFor(cs: seq<Node>, seg: PathSegment): (r: Option<nat>)
    ensures r.Some? ==> r.value < |cs| && (StrictMatch(cs[r.value], seg) || RelaxedMatch(cs[r.value], seg))
    ensures r.None? <==> forall k :: 0 <= k < |cs| ==> !StrictMatch(cs[k], seg) && !RelaxedMatch(cs[k], seg)
    ensures (exists k :: 0 <= k < |cs| && StrictMatch(cs[k], seg)) ==>
              r.Some? && StrictMatch(cs[r.value], seg) &&
              forall k :: 0 <= k < r.value ==> !StrictMatch(cs[k], seg)
    ensures (forall k :: 0 <= k < |cs| ==> !StrictMatch(cs[k], seg)) && r.Some? ==>
              forall k :: 0 <= k < r.value ==> !RelaxedMatch(cs[k], seg)
  {
    var strict := FirstMatchFrom(cs, seg, true, 0);
    if strict.Some? then strict
    else
      var relaxed := FirstMatchFrom(cs, seg, false, 0);
      assert forall k :: 0 <= k < |cs| ==> !StrictMatch(cs[k], seg) by {
        forall k | 0 <= k < |cs| ensures !StrictMatch(cs[k], seg) {
          assert !StepMatch(cs[k], seg, true);
        }
      }
      assert relaxed.None? ==> forall k :: 0 <= k < |cs| ==> !RelaxedMatch(cs[k], seg) by {
        forall k | 0 <= k < |cs| && relaxed.None? ensures !RelaxedMatch(cs[k], seg) {
          assert !StepMatch(cs[k], seg, false);
        }
      }
      assert relaxed.Some? ==> forall k :: 0 <= k < relaxed.value ==> !RelaxedMatch(cs[k], seg) by {
        forall k | relaxed.Some? && 0 <= k < relaxed.value ensures !RelaxedMatch(cs[k], seg) {
          assert !StepMatch(cs[k], seg, false);
        }
      }
      relaxed
  }

  /** The two inner loops of one path step: scan the children for a strict
      match, then, if none, for a relaxed one. */
  method StepToChild(children: seq<Node>, seg: PathSegment) returns (next: Option<nat>)
    ensures next == ChildFor(children, seg)
  {
    var j := 0;
    while j < |children|
      invariant 0 <= j <= |children|
      invariant forall m :: 0 <= m < j ==> !StepMatch(children[m], seg, true)
    {
      if StrictMatch(children[j], seg) {
        assert StepMatch(children[j], seg, true);
        return Some(j);
      }
      j := j + 1;
    }
    j := 0;
    while j < |children|
      invariant 0 <= j <= |children|
      invariant forall m :: 0 <= m < j ==> !StepMatch(children[m], seg, false)
    {
      if RelaxedMatch(children[j], seg) {
        assert StepMatch(children[j], seg, false);
        return Some(j);
      }
      j := j + 1;
    }
    return None;
  }

  /** Walk `segs` down from `current`, one child per segment; any step
      without a matching child fails the whole walk. */
  function WalkPath(current: Node, segs: seq<PathSegment>): Option<Node>
    decreases |segs|
  {
    if segs == [] then Some(current)
    else
      match ChildFor(current.children, segs[0])
      case None => None
      case Some(k) => WalkPath(current.children[k], segs[1..])
  }

  /** `_find_by_path`: nothing for an empty path; otherwise the first segment
      stands for the desktop and the walk starts at the root with the rest. */
  function ResolvePath(root: Node, path: seq<PathSegment>): Option<Node> {
    if path == [] then None else WalkPath(root, path[1..])
  }

  method FindByPath(root: Node, path: seq<PathSegment>) returns (r: Option<Node>)
    ensures r == ResolvePath(root, path)
  {
    if path == [] {
      return None;
    }
    var current := root;
    var i := 1;
    while i < |path|
      invariant 1 <= i <= |path|
      invariant WalkPath(current, path[i..]) == ResolvePath(root, path)
    {
      var next := StepToChild(current.children, path[i]);
      if next.None? {
        return None;
      }
      assert path[i..][1..] == path[i + 1..];
      current := current.children[next.value];
      i := i + 1;
    }
    assert path[i..] == [];
    return Some(current);
  }

  /** The nodes along `addr` below `current` each pass a step's test for the
      corresponding segment. */
  ghost predicate MatchesAlong(current: Node, addr: Address, segs: seq<PathSegment>)
    decreases addr
  {
    |addr| == |segs| &&
    (addr != [] ==>
      addr[0] < |current.children| &&
      (StrictMatch(current.children[addr[0]], segs[0]) || RelaxedMatch(current.children[addr[0]], segs[0])) &&
      MatchesAlong(current.children[addr[0]], addr[1..], segs[1..]))
  }

  /** A successful walk ends exactly one level per segment below its start,
      at a node reached through matching children. */
  lemma {:induction false} WalkPathFollowsSegments(current: Node, segs: seq<PathSegment>)
    ensures WalkPath(current, segs).Some? ==>
      exists addr :: MatchesAlong(current, addr, segs) && NodeAt(current, addr) == WalkPath(current, segs)
    decreases |segs|
  {
    if segs == [] {
      assert MatchesAlong(current, [], segs);
    } else if WalkPath(current, segs).Some? {
      var k := ChildFor(current.children, segs[0]).value;
      var child := current.children[k];
      WalkPathFollowsSegments(child, segs[1..]);
      var rest :| MatchesAlong(child, rest, segs[1..]) && NodeAt(child, rest) == WalkPath(child, segs[1..]);
      var addr := [k] + rest;
      assert addr[1..] == rest;
      assert MatchesAlong(current, addr, segs);
    }
  }

  /** There are no partial results: walking `a + b` is walking `a`, then `b`. */
  lemma {:induction false} WalkPathCompose(current: Node, a: seq<PathSegment>, b: seq<PathSegment>)
    ensures WalkPath(current, a + b) ==
      match WalkPath(current, a)
      case None => None
      case Some(m) => WalkPath(m, b)
    decreases |a|
  {
    if a == [] {
      assert a + b == b;
    } else {
      assert (a + b)[0] == a[0];
      assert (a + b)[1..] == a[1..] + b;
      match ChildFor(current.children, a[0])
      case None =>
      case Some(k) => WalkPathCompose(current.children[k], a[1..], b);
    }
  }

  /** A one-segment path resolves to the root itself. */
  lemma OneSegmentResolvesToRoot(root: Node, seg: PathSegment)
    ensures ResolvePath(root, [seg]) == Some(root)
  {
    assert [seg][1..] == [];
  }

  /** A segment with every field empty is taken by the first child. */
  lemma EmptySegmentTakesFirstChild(cs: seq<Node>)
    requires cs != []
    ensures ChildFor(cs, PathSegment("", "", "", "")) == Some(0)
  {
    assert StrictMatch(cs[0], PathSegment("", "", "", ""));
  }

  /** When some child matches strictly, a relaxed match that comes earlier
      is not taken. */
  lemma StrictBeatsEarlierRelaxed(cs: seq<Node>, seg: PathSegment, j: nat, k: nat)
    requires j < k < |cs|
    requires RelaxedMatch(cs[j], seg) && !StrictMatch(cs[j], seg) && StrictMatch(cs[k], seg)
    ensures ChildFor(cs, seg) != Some(j)
  {
  }

  // ---------------------------------------------------------------------
  // The library's search, scoped to the windows of one process
  // ---------------------------------------------------------------------

  /** `x` lies below one of the top-level windows owned by `pid`. */
  predicate InProcessWindow(windows: seq<Node>, pid: int, x: Node) {
    exists k :: 0 <= k < |windows| && windows[k].processId == Some(pid) && x in Descendants(windows[k])
  }

  /** Search, in order, each top-level window owned by `pid`; a window whose
      process id cannot be read is skipped. A match below some window of the
      process is always found (`ScopedSearchIsComplete`). */
  function ScopedSearch(windows: seq<Node>, pid: int, f: Filter): (r: Option<Node>)
    ensures r.Some? ==> Satisfies(r.value, f) && InProcessWindow(windows, pid, r.value)
    ensures (forall k :: 0 <= k < |windows| ==> windows[k].processId != Some(pid)) ==> r.None?
  {
    if windows == [] then None
    else
      var here := if windows[0].processId == Some(pid) then FirstDescendant(windows[0], f) else None;
      if here.Some? then
        assert InProcessWindow(windows, pid, here.value) by {
          assert windows[0].processId == Some(pid) && here.value in Descendants(windows[0]);
        }
        here
      else
        var rest := ScopedSearch(windows[1..], pid, f);
        assert rest.Some? ==> InProcessWindow(windows, pid, rest.value) by {
          if rest.Some? {
            var k :| 0 <= k < |windows[1..]| && windows[1..][k].processId == Some(pid) && rest.value in Descendants(windows[1..][k]);
            assert windows[k + 1] == windows[1..][k];
          }
        }
        rest
  }

  /** A match below some window of the process is always found. */
  lemma {:induction false} ScopedSearchIsComplete(windows: seq<Node>, pid: int, f: Filter, x: Node)
    requires InProcessWindow(windows, pid, x) && Satisfies(x, f)
    ensures ScopedSearch(windows, pid, f).Some?
  {
    var k :| 0 <= k < |windows| && windows[k].processId == Some(pid) && x in Descendants(windows[k]);
    if k == 0 {
      assert FirstDescendant(windows[0], f).Some?;
    } else if !(windows[0].processId == Some(pid) && FirstDescendant(windows[0], f).Some?) {
      assert windows[1..][k - 1] == windows[k];
      ScopedSearchIsComplete(windows[1..], pid, f, x);
    }
  }

  /** The scoped search returns the first match of the first window of the
      process that holds a match; earlier windows of other processes, and
      later windows of the same one, play no part. */
  lemma {:induction false} ScopedSearchTakesFirstWindow(windows: seq<Node>, pid: int, f: Filter, k: nat)
    requires k < |windows| && windows[k].processId == Some(pid) && FirstDescendant(windows[k], f).Some?
    requires forall j :: 0 <= j < k && windows[j].processId == Some(pid) ==> FirstDescendant(windows[j], f).None?
    ensures ScopedSearch(windows, pid, f) == FirstDescendant(windows[k], f)
  {
    if k > 0 {
      assert windows[0].processId == Some(pid) ==> FirstDescendant(windows[0], f).None?;
      forall j | 0 <= j < k - 1 && windows[1..][j].processId == Some(pid)
        ensures FirstDescendant(windows[1..][j], f).None?
      {
        assert windows[1..][j] == windows[j + 1];
      }
      ScopedSearchTakesFirstWindow(windows[1..], pid, f, k - 1);
    }
  }

  /** The window loop of `_find_by_automation_id` and `_find_by_properties`. */
  method SearchProcessWindows(windows: seq<Node>, pid: int, f: Filter) returns (r: Option<Node>)
    ensures r == ScopedSearch(windows, pid, f)
  {
    var i := 0;
    while i < |windows|
      invariant 0 <= i <= |windows|
      invariant ScopedSearch(windows[i..], pid, f) == ScopedSearch(windows, pid, f)
    {
      var win := windows[i];
      assert windows[i..][0] == win;
      if win.processId == Some(pid) {
        var element := FirstDescendant(win, f);
        if element.Some? {
          return element;
        }
      }
      assert windows[i..][1..] == windows[i + 1..];
      i := i + 1;
    }
    return None;
  }

  /** Scoped first when a process id is given, tree-wide otherwise or when
      the scoped search finds nothing. */
  function ScopedThenGlobal(root: Node, pid: int, f: Filter): Option<Node> {
    var scoped := if pid != 0 then ScopedSearch(root.children, pid, f) else None;
    if scoped.Some? then scoped else FirstDescendant(root, f)
  }

  method SearchScopedThenGlobal(root: Node, pid: int, f: Filter) returns (r: Option<Node>)
    ensures r == ScopedThenGlobal(root, pid, f)
  {
    if pid != 0 {
      r := SearchProcessWindows(root.children, pid, f);
      if r.Some? {
        return;
      }
    }
    r := FirstDescendant(root, f);
  }

  /** Whatever the two-stage search finds is a descendant of the root that
      satisfies the criteria. */
  lemma ScopedThenGlobalIsSound(root: Node, pid: int, f: Filter)
    ensures ScopedThenGlobal(root, pid, f).Some? ==>
      Satisfies(ScopedThenGlobal(root, pid, f).value, f) && ScopedThenGlobal(root, pid, f).value in Descendants(root)
  {
    var scoped := if pid != 0 then ScopedSearch(root.children, pid, f) else None;
    if scoped.Some? {
      var k :| 0 <= k < |root.children| && root.children[k].processId == Some(pid) && scoped.value in Descendants(root.children[k]);
      ChildDescendantsAreDescendants(root, k, scoped.value);
    }
  }

  /** Whenever some descendant of the root satisfies the criteria, the
      two-stage search finds one. */
  lemma ScopedThenGlobalIsComplete(root: Node, pid: int, f: Filter)
    requires exists x :: x in Descendants(root) && Satisfies(x, f)
    ensures ScopedThenGlobal(root, pid, f).Some?
  {
    var x :| x in Descendants(root) && Satisfies(x, f);
    assert FirstDescendant(root, f).Some?;
  }

  /** With a process id and a match below one of that process's windows, the
      result comes from the scoped search, hence from a window of the process,
      even when an earlier node of the whole tree matches too. */
  lemma ScopedThenGlobalPrefersProcess(root: Node, pid: int, f: Filter)
    requires pid != 0
    requires exists x :: InProcessWindow(root.children, pid, x) && Satisfies(x, f)
    ensures ScopedThenGlobal(root, pid, f) == ScopedSearch(root.children, pid, f)
    ensures ScopedThenGlobal(root, pid, f).Some? && InProcessWindow(root.children, pid, ScopedThenGlobal(root, pid, f).value)
  {
    var x :| InProcessWindow(root.children, pid, x) && Satisfies(x, f);
    ScopedSearchIsComplete(root.children, pid, f, x);
  }

  /** Without a process id, or when no window of the process holds a match,
      the result is the tree-wide search. */
  lemma ScopedThenGlobalFallsBack(root: Node, pid: int, f: Filter)
    requires pid == 0 || forall x :: InProcessWindow(root.children, pid, x) ==> !Satisfies(x, f)
    ensures ScopedThenGlobal(root, pid, f) == FirstDescendant(root, f)
  {
  }

  // ---------------------------------------------------------------------
  // Strategy 1: the automation id
  // ---------------------------------------------------------------------

  function IdFilter(id: string): Filter {
    Filter(Some(id), None, None, None)
  }

  /** `_find_by_automation_id`. */
  function ByAutomationId(root: Node, loc: Locator): (r: Option<Node>)
    ensures r.Some? ==> loc.automationId != "" && r.value.automationId == Some(loc.automationId)
    ensures r.Some? ==> r.value in Descendants(root)
    ensures loc.automationId != "" && (exists x :: x in Descendants(root) && x.automationId == Some(loc.automationId)) ==> r.Some?
    ensures (loc.automationId != "" && loc.processId != 0 &&
             exists x :: InProcessWindow(root.children, loc.processId, x) && x.automationId == Some(loc.automationId)) ==>
      r.Some? && InProcessWindow(root.children, loc.processId, r.value)
  {
    if loc.automationId == "" then None
    else
      var f := IdFilter(loc.automationId);
      ScopedThenGlobalIsSound(root, loc.processId, f);
      assert (exists x :: x in Descendants(root) && x.automationId == Some(loc.automationId)) ==>
        ScopedThenGlobal(root, loc.processId, f).Some? by {
        if x :| x in Descendants(root) && x.automationId == Some(loc.automationId) {
          assert Satisfies(x, f);
          ScopedThenGlobalIsComplete(root, loc.processId, f);
        }
      }
      assert loc.processId != 0 && (exists x :: InProcessWindow(root.children, loc.processId, x) && x.automationId == Some(loc.automationId)) ==>
        ScopedThenGlobal(root, loc.processId, f).Some? && InProcessWindow(root.children, loc.processId, ScopedThenGlobal(root, loc.processId, f).value) by {
        if loc.processId != 0 && exists x :: InProcessWindow(root.children, loc.processId, x) && x.automationId == Some(loc.automationId) {
          var x :| InProcessWindow(root.children, loc.processId, x) && x.automationId == Some(loc.automationId);
          assert Satisfies(x, f);
          ScopedThenGlobalPrefersProcess(root, loc.processId, f);
        }
      }
      ScopedThenGlobal(root, loc.processId, f)
  }

  method FindByAutomationId(root: Node, loc: Locator) returns (r: Option<Node>)
    ensures r == ByAutomationId(root, loc)
  {
    if loc.automationId == "" {
      return None;
    }
    r := SearchScopedThenGlobal(root, loc.processId, IdFilter(loc.automationId));
  }

  // ---------------------------------------------------------------------
  // Strategy 3: the property filter
  // ---------------------------------------------------------------------

  /** The attribute name the control type is looked up under: the control
      type name with every "Control" removed. */
  function ControlTypeKey(controlType: string): string {
    RemoveAll(controlType, "Control")
  }

  function LookupControlType(table: ControlTypeTable, key: string): Option<int> {
    if key in table then Some(table[key]) else None
  }

  /** The criteria built from the non-empty control type, class name and
      name; no criteria at all when all three are empty. */
  function PropertyFilter(loc: Locator, table: ControlTypeTable): (r: Option<Filter>)
    ensures r.None? <==> loc.controlType == "" && loc.className == "" && loc.name == ""
    ensures r.Some? ==> r.value.automationId.None?
    ensures r.Some? ==> (r.value.controlType.Some? <==> loc.controlType != "")
    ensures r.Some? ==> (r.value.className.Some? <==> loc.className != "") && (r.value.className.Some? ==> r.value.className.value == loc.className)
    ensures r.Some? ==> (r.value.name.Some? <==> loc.name != "") && (r.value.name.Some? ==> r.value.name.value == loc.name)
  {
    if loc.controlType == "" && loc.className == "" && loc.name == "" then None
    else
      Some(Filter(
        None,
        if loc.controlType != "" then Some(LookupControlType(table, ControlTypeKey(loc.controlType))) else None,
        if loc.className != "" then Some(loc.className) else None,
        if loc.name != "" then Some(loc.name) else None))
  }

  /** `_find_by_properties`. */
  function ByProperties(root: Node, loc: Locator, table: ControlTypeTable): (r: Option<Node>)
    ensures PropertyFilter(loc, table).None? ==> r.None?
    ensures r.Some? ==> Satisfies(r.value, PropertyFilter(loc, table).value) && r.value in Descendants(root)
    ensures (PropertyFilter(loc, table).Some? &&
             exists x :: x in Descendants(root) && Satisfies(x, PropertyFilter(loc, table).value)) ==> r.Some?
    ensures (PropertyFilter(loc, table).Some? && loc.processId != 0 &&
             exists x :: InProcessWindow(root.children, loc.processId, x) && Satisfies(x, PropertyFilter(loc, table).value)) ==>
      r.Some? && InProcessWindow(root.children, loc.processId, r.value)
  {
    match PropertyFilter(loc, table)
    case None => None
    case Some(f) =>
      ScopedThenGlobalIsSound(root, loc.processId, f);
      assert (exists x :: x in Descendants(root) && Satisfies(x, f)) ==> ScopedThenGlobal(root, loc.processId, f).Some? by {
        if exists x :: x in Descendants(root) && Satisfies(x, f) {
          ScopedThenGlobalIsComplete(root, loc.processId, f);
        }
      }
      assert loc.processId != 0 && (exists x :: InProcessWindow(root.children, loc.processId, x) && Satisfies(x, f)) ==>
        ScopedThenGlobal(root, loc.processId, f).Some? && InProcessWindow(root.children, loc.processId, ScopedThenGlobal(root, loc.processId, f).value) by {
        if loc.processId != 0 && exists x :: InProcessWindow(root.children, loc.processId, x) && Satisfies(x, f) {
          ScopedThenGlobalPrefersProcess(root, loc.processId, f);
        }
      }
      ScopedThenGlobal(root, loc.processId, f)
  }

  method FindByProperties(root: Node, loc: Locator, table: ControlTypeTable) returns (r: Option<Node>)
    ensures r == ByProperties(root, loc, table)
  {
    var filter := PropertyFilter(loc, table);
    if filter.None? {
      return None;
    }
    r := SearchScopedThenGlobal(root, loc.processId, filter.value);
  }

  /** "ButtonControl" is looked up as "Button". */
  lemma ControlTypeKeyExample()
    ensures ControlTypeKey("ButtonControl") == "Button"
  {
    assert "ButtonControl" == "Button" + "Control";
    assert 'C' !in "Button";
    RemoveAllTrailing("Button", "Control");
  }

  /** A control type whose key names no entry of the table can never be
      found by properties. */
  lemma UnknownControlTypeNeverFound(root: Node, loc: Locator, table: ControlTypeTable)
    requires loc.controlType != "" && ControlTypeKey(loc.controlType) !in table
    ensures ByProperties(root, loc, table).None?
  {
    var f := PropertyFilter(loc, table).value;
    ScopedThenGlobalIsSound(root, loc.processId, f);
  }

  // ---------------------------------------------------------------------
  // The three strategies in order
  // ---------------------------------------------------------------------

  /** `_find_element`: the id when there is one, then the path when there
      is one, then the property filter. */
  function Resolve(root: Node, loc: Locator, table: ControlTypeTable): Option<Node> {
    var byId := if loc.automationId != "" then ByAutomationId(root, loc) else None;
    if byId.Some? then byId
    else
      var byPath := if loc.path != [] then ResolvePath(root, loc.path) else None;
      if byPath.Some? then byPath
      else ByProperties(root, loc, table)
  }

  method FindElement(root: Node, loc: Locator, table: ControlTypeTable) returns (r: Option<Node>)
    ensures r == Resolve(root, loc, table)
  {
    if loc.automationId != "" {
      r := FindByAutomationId(root, loc);
      if r.Some? {
        return;
      }
    }
    if loc.path != [] {
      r := FindByPath(root, loc.path);
      if r.Some? {
        return;
      }
    }
    r := FindByProperties(root, loc, table);
  }

  /** Every node of `Preorder(n)`'s reach: what an address names is `n` or
      one of its descendants. */
  lemma {:induction false} NodeAtIsInTree(n: Node, addr: Address)
    requires NodeAt(n, addr).Some?
    ensures NodeAt(n, addr).value == n || NodeAt(n, addr).value in Descendants(n)
    decreases addr
  {
    if addr != [] {
      var k := addr[0];
      var child := n.children[k];
      NodeAtIsInTree(child, addr[1..]);
      var x := NodeAt(n, addr).value;
      if x == child {
        assert x in Preorder(child);
        ForestIncludesSubtrees(n.children, k, x);
      } else {
        ChildDescendantsAreDescendants(n, k, x);
      }
    }
  }

  /** What is found is in the tree, and it is the automation id's match, the
      path's target, or a node satisfying the property criteria. */
  lemma ResolveIsSound(root: Node, loc: Locator, table: ControlTypeTable)
    ensures Resolve(root, loc, table).Some? ==>
      var x := Resolve(root, loc, table).value;
      && (x == root || x in Descendants(root))
      && ((loc.automationId != "" && x.automationId == Some(loc.automationId))
          || (loc.path != [] && exists addr :: MatchesAlong(root, addr, loc.path[1..]) && NodeAt(root, addr) == Some(x))
          || (PropertyFilter(loc, table).Some? && Satisfies(x, PropertyFilter(loc, table).value)))
  {
    var r := Resolve(root, loc, table);
    if r.Some? {
      var byId := if loc.automationId != "" then ByAutomationId(root, loc) else None;
      var byPath := if loc.path != [] then ResolvePath(root, loc.path) else None;
      if byId.Some? {
      } else if byPath.Some? {
        WalkPathFollowsSegments(root, loc.path[1..]);
        var addr :| MatchesAlong(root, addr, loc.path[1..]) && NodeAt(root, addr) == byPath;
        NodeAtIsInTree(root, addr);
      } else {
        var f := PropertyFilter(loc, table).value;
        ScopedThenGlobalIsSound(root, loc.processId, f);
      }
    }
  }

  /** A locator with nothing in it finds nothing. */
  lemma EmptyLocatorFindsNothing(root: Node, table: ControlTypeTable)
    ensures Resolve(root, EmptyLocator, table).None?
  {
  }

  /** An automation id that no longer matches falls through to the path,
      which re-finds the element even though the id changed. */
  lemma StaleIdFallsBackToPath(root: Node, loc: Locator, table: ControlTypeTable)
    requires loc.automationId != "" && loc.path != []
    requires forall x :: x in Descendants(root) ==> x.automationId != Some(loc.automationId)
    requires ResolvePath(root, loc.path).Some?
    ensures Resolve(root, loc, table) == ResolvePath(root, loc.path)
  {
  }

  /** The id strategy wins whenever it finds something, whatever the path
      and properties say. */
  lemma IdMatchTakesPriority(root: Node, loc: Locator, table: ControlTypeTable)
    requires exists x :: x in Descendants(root) && x.automationId == Some(loc.automationId)
    requires loc.automationId != ""
    ensures Resolve(root, loc, table).Some? && Resolve(root, loc, table).value.automationId == Some(loc.automationId)
  {
    var x :| x in Descendants(root) && x.automationId == Some(loc.automationId);
    assert Satisfies(x, IdFilter(loc.automationId));
  }
}
