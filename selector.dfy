/** Picking an element on screen (ui_selector.py): the locator captured
    for the chosen element, the element information handed back, the
    highlight rectangle, and the key-poll decisions of the selection loop.
    An element is named by its address in the desktop tree; an address
    that no longer exists names an element whose every read fails. */
module Selector {
  import opened Wrappers
  import opened Tree
  import opened Descriptor
  import opened Resolver
  import opened Extractor

  /** The path walk visits at most this many elements. */
  const MaxDepth: nat := 20

  /** The highlight is cleared over the rectangle grown by this much. */
  const ClearMargin: int := 5

  // ---------------------------------------------------------------------
  // The locator
  // ---------------------------------------------------------------------

  /** The path entry for one element; nothing when one of its four reads
      fails (the walk then stops). An empty read becomes "". */
  function SegmentOf(n: Node): (r: Option<PathSegment>)
    ensures r.Some? <==> n.name.Some? && n.automationId.Some? && n.className.Some? && n.controlTypeName.Some?
  {
    if n.name.None? || n.automationId.None? || n.className.None? || n.controlTypeName.None? then None
    else Some(PathSegment(n.name.value, n.automationId.value, n.className.value, n.controlTypeName.value))
  }

  /** An element matches its own entry strictly. */
  lemma SegmentMatchesItsElement(n: Node)
    requires SegmentOf(n).Some?
    ensures StrictMatch(n, SegmentOf(n).value)
  {
  }

  /** The entries the walk collects from the element at `addr` upwards,
      root first, once `depth` elements have been visited. The parent of the
      desktop root is nothing. */
  function CaptureUp(root: Node, addr: Address, depth: nat): seq<PathSegment>
    requires depth <= MaxDepth
    decreases MaxDepth - depth
  {
    if depth == MaxDepth then []
    else
      match SegmentOf(ElementAt(root, addr))
      case None => []
      case Some(seg) =>
        if addr == [] then [seg]
        else CaptureUp(root, addr[..|addr| - 1], depth + 1) + [seg]
  }

  /** The walk as the loop performs it: `acc` holds the entries collected
      so far, and each new entry is inserted in front. */
  function CaptureAcc(root: Node, addr: Address, depth: nat, acc: seq<PathSegment>): seq<PathSegment>
    requires depth <= MaxDepth
    decreases MaxDepth - depth
  {
    if depth == MaxDepth then acc
    else
      match SegmentOf(ElementAt(root, addr))
      case None => acc
      case Some(seg) =>
        if addr == [] then [seg] + acc
        else CaptureAcc(root, addr[..|addr| - 1], depth + 1, [seg] + acc)
  }

  lemma {:induction false} CaptureAccIsCaptureUp(root: Node, addr: Address, depth: nat, acc: seq<PathSegment>)
    requires depth <= MaxDepth
    ensures CaptureAcc(root, addr, depth, acc) == CaptureUp(root, addr, depth) + acc
    decreases MaxDepth - depth
  {
    if depth < MaxDepth && SegmentOf(ElementAt(root, addr)).Some? && addr != [] {
      var seg := SegmentOf(ElementAt(root, addr)).value;
      CaptureAccIsCaptureUp(root, addr[..|addr| - 1], depth + 1, [seg] + acc);
      assert CaptureUp(root, addr[..|addr| - 1], depth + 1) + ([seg] + acc)
          == (CaptureUp(root, addr[..|addr| - 1], depth + 1) + [seg]) + acc;
    }
  }

  /** The structural path of `_build_locator`: at most 20 entries, the last
      describing the element itself. */
  function CapturePath(root: Node, addr: Address): (r: seq<PathSegment>)
    ensures |r| <= MaxDepth
    ensures r != [] ==> Some(r[|r| - 1]) == SegmentOf(ElementAt(root, addr))
  {
    CaptureAccIsCaptureUp(root, addr, 0, []);
    assert CaptureUp(root, addr, 0) + [] == CaptureUp(root, addr, 0);
    CaptureUpShape(root, addr, 0);
    CaptureAcc(root, addr, 0, [])
  }

  lemma {:induction false} CaptureUpShape(root: Node, addr: Address, depth: nat)
    requires depth <= MaxDepth
    ensures |CaptureUp(root, addr, depth)| <= MaxDepth - depth
    ensures var r := CaptureUp(root, addr, depth);
      r != [] ==> Some(r[|r| - 1]) == SegmentOf(ElementAt(root, addr))
    decreases MaxDepth - depth
  {
    if depth < MaxDepth && SegmentOf(ElementAt(root, addr)).Some? && addr != [] {
      CaptureUpShape(root, addr[..|addr| - 1], depth + 1);
    }
  }

  /** The path loop: entries are inserted at the front while walking up. */
  method BuildPath(root: Node, addr: Address) returns (path: seq<PathSegment>)
    ensures path == CapturePath(root, addr)
  {
    path := [];
    var current := addr;
    var depth := 0;
    while depth < MaxDepth
      invariant 0 <= depth <= MaxDepth
      invariant CaptureAcc(root, current, depth, path) == CaptureAcc(root, addr, 0, [])
      decreases MaxDepth - depth
    {
      var item := SegmentOf(ElementAt(root, current));
      if item.None? {
        break;
      }
      path := [item.value] + path;
      if current == [] {
        break;
      }
      current := current[..|current| - 1];
      depth := depth + 1;
    }
  }

  /** The locator's own fields are read one after another; the first read
      that fails leaves it and all later fields at their defaults. */
  function LocatorHeader(n: Node): (r: Locator)
    ensures r.path == []
    ensures n.automationId.None? ==> r == EmptyLocator
    // each field holds its read when that read and every earlier one succeeded, and its default otherwise
    ensures r.automationId == if n.automationId.Some? then n.automationId.value else ""
    ensures r.name == if n.automationId.Some? && n.name.Some? then n.name.value else ""
    ensures r.className == if n.automationId.Some? && n.name.Some? && n.className.Some? then n.className.value else ""
    ensures r.controlType ==
      if n.automationId.Some? && n.name.Some? && n.className.Some? && n.controlTypeName.Some? then n.controlTypeName.value else ""
    ensures r.processId ==
      if n.automationId.Some? && n.name.Some? && n.className.Some? && n.controlTypeName.Some? && n.processId.Some?
      then n.processId.value else 0
  {
    if n.automationId.None? then EmptyLocator
    else
      var l1 := EmptyLocator.(automationId := n.automationId.value);
      if n.name.None? then l1
      else
        var l2 := l1.(name := n.name.value);
        if n.className.None? then l2
        else
          var l3 := l2.(className := n.className.value);
          if n.controlTypeName.None? then l3
          else
            var l4 := l3.(controlType := n.controlTypeName.value);
            if n.processId.None? then l4 else l4.(processId := n.processId.value)
  }

  /** `_build_locator`. */
  function LocatorOf(root: Node, addr: Address): Locator {
    LocatorHeader(ElementAt(root, addr)).(path := CapturePath(root, addr))
  }

  method BuildLocator(root: Node, addr: Address) returns (loc: Locator)
    ensures loc == LocatorOf(root, addr)
  {
    var e := ElementAt(root, addr);
    loc := EmptyLocator;
    if e.automationId.Some? {
      loc := loc.(automationId := e.automationId.value);
      if e.name.Some? {
        loc := loc.(name := e.name.value);
        if e.className.Some? {
          loc := loc.(className := e.className.value);
          if e.controlTypeName.Some? {
            loc := loc.(controlType := e.controlTypeName.value);
            if e.processId.Some? {
              loc := loc.(processId := e.processId.value);
            }
          }
        }
      }
    }
    var path := BuildPath(root, addr);
    loc := loc.(path := path);
  }

  // ---------------------------------------------------------------------
  // What the captured path means
  // ---------------------------------------------------------------------

  /** Every element from `n` down along `addr` exists and has readable
      path fields. */
  ghost predicate ReadableAlong(n: Node, addr: Address)
    decreases addr
  {
    SegmentOf(n).Some? &&
    (addr != [] ==> addr[0] < |n.children| && ReadableAlong(n.children[addr[0]], addr[1..]))
  }

  /** At every level along `addr` the next element is the first of its
      siblings to match its own entry strictly. */
  ghost predicate FirstStrictAlong(n: Node, addr: Address)
    requires ReadableAlong(n, addr)
    decreases addr
  {
    addr != [] ==>
      var child := n.children[addr[0]];
      match SegmentOf(child)
      case None => false
      case Some(seg) =>
        && (forall m :: 0 <= m < addr[0] ==> !StrictMatch(n.children[m], seg))
        && FirstStrictAlong(child, addr[1..])
  }

  /** The entries from `n` down to the element at `addr`, top first. */
  ghost function TopDown(n: Node, addr: Address): seq<PathSegment>
    requires ReadableAlong(n, addr)
    decreases addr
  {
    [SegmentOf(n).value] + (if addr == [] then [] else TopDown(n.children[addr[0]], addr[1..]))
  }

  lemma {:induction false} ReadableAlongPrefix(n: Node, addr: Address, k: nat)
    requires ReadableAlong(n, addr) && k <= |addr|
    ensures ReadableAlong(n, addr[..k])
    ensures NodeAt(n, addr[..k]).Some? && SegmentOf(NodeAt(n, addr[..k]).value).Some?
    decreases addr
  {
    if k > 0 {
      assert addr[..k][1..] == addr[1..][..k - 1];
      ReadableAlongPrefix(n.children[addr[0]], addr[1..], k - 1);
    }
  }

  lemma {:induction false} ReadableAlongEnd(n: Node, addr: Address)
    requires ReadableAlong(n, addr)
    ensures NodeAt(n, addr).Some? && SegmentOf(NodeAt(n, addr).value).Some?
    decreases addr
  {
    if addr != [] {
      ReadableAlongEnd(n.children[addr[0]], addr[1..]);
    }
  }

  /** Extending the address by one level appends one entry at the end. */
  lemma {:induction false} TopDownSnoc(n: Node, addr: Address)
    requires ReadableAlong(n, addr) && addr != []
    ensures ReadableAlong(n, addr[..|addr| - 1])
    ensures NodeAt(n, addr).Some? && SegmentOf(NodeAt(n, addr).value).Some?
    ensures TopDown(n, addr) == TopDown(n, addr[..|addr| - 1]) + [SegmentOf(NodeAt(n, addr).value).value]
    decreases addr
  {
    ReadableAlongPrefix(n, addr, |addr| - 1);
    ReadableAlongEnd(n, addr);
    var child := n.children[addr[0]];
    if |addr| > 1 {
      assert addr[..|addr| - 1][1..] == addr[1..][..|addr[1..]| - 1];
      TopDownSnoc(child, addr[1..]);
    }
  }

  /** Below the 20-element limit the walk records every element from the
      root down to the target, one entry per level, top first. */
  lemma {:induction false} CaptureUpIsTopDown(root: Node, addr: Address, depth: nat)
    requires ReadableAlong(root, addr)
    requires depth + |addr| < MaxDepth
    ensures CaptureUp(root, addr, depth) == TopDown(root, addr)
    decreases |addr|
  {
    ReadableAlongEnd(root, addr);
    if addr != [] {
      TopDownSnoc(root, addr);
      CaptureUpIsTopDown(root, addr[..|addr| - 1], depth + 1);
    }
  }

  /** Walking the entries after the first from `n` reaches the element at
      `addr`, provided each element is the first of its siblings to match
      its own entry strictly. */
  lemma {:induction false} WalkTopDown(n: Node, addr: Address)
    requires ReadableAlong(n, addr) && FirstStrictAlong(n, addr)
    ensures WalkPath(n, TopDown(n, addr)[1..]) == NodeAt(n, addr)
    decreases addr
  {
    if addr != [] {
      var k := addr[0];
      var child := n.children[k];
      var seg := SegmentOf(child).value;
      assert TopDown(n, addr)[1..] == TopDown(child, addr[1..]);
      assert TopDown(child, addr[1..])[0] == seg;
      SegmentMatchesItsElement(child);
      assert StepMatch(n.children[k], seg, true);
      assert forall m :: 0 <= m < k ==> !StepMatch(n.children[m], seg, true);
      assert ChildFor(n.children, seg) == Some(k);
      WalkTopDown(child, addr[1..]);
    }
  }

  /** The round trip: the path captured for an element at most 19 levels
      below the desktop, read without failures, leads back to it, as long as
      no earlier sibling at any level matches its entry strictly. */
  lemma CapturedPathLeadsBack(root: Node, addr: Address)
    requires |addr| < MaxDepth
    requires ReadableAlong(root, addr) && FirstStrictAlong(root, addr)
    ensures |CapturePath(root, addr)| == |addr| + 1
    ensures ResolvePath(root, CapturePath(root, addr)) == NodeAt(root, addr)
  {
    CaptureAccIsCaptureUp(root, addr, 0, []);
    assert CaptureUp(root, addr, 0) + [] == CaptureUp(root, addr, 0);
    CaptureUpIsTopDown(root, addr, 0);
    WalkTopDown(root, addr);
    assert |TopDown(root, addr)| == |addr| + 1 by {
      TopDownLength(root, addr);
    }
  }

  lemma {:induction false} TopDownLength(n: Node, addr: Address)
    requires ReadableAlong(n, addr)
    ensures |TopDown(n, addr)| == |addr| + 1
    decreases addr
  {
    if addr != [] {
      TopDownLength(n.children[addr[0]], addr[1..]);
    }
  }

  /** An element 20 or more levels deep gets only the 20 entries nearest
      to it, so the first entry no longer describes the desktop root. */
  lemma DeepPathIsTruncated(root: Node, addr: Address)
    requires |addr| >= MaxDepth
    requires ReadableAlong(root, addr)
    ensures |CapturePath(root, addr)| == MaxDepth
  {
    CaptureAccIsCaptureUp(root, addr, 0, []);
    assert CaptureUp(root, addr, 0) + [] == CaptureUp(root, addr, 0);
    DeepCaptureIsFull(root, addr, 0);
  }

  lemma {:induction false} DeepCaptureIsFull(root: Node, addr: Address, depth: nat)
    requires depth <= MaxDepth && depth + |addr| >= MaxDepth
    requires ReadableAlong(root, addr)
    ensures |CaptureUp(root, addr, depth)| == MaxDepth - depth
    decreases MaxDepth - depth
  {
    if depth < MaxDepth {
      ReadableAlongEnd(root, addr);
      ReadableAlongPrefix(root, addr, |addr| - 1);
      assert addr[..|addr|] == addr;
      DeepCaptureIsFull(root, addr[..|addr| - 1], depth + 1);
    }
  }

  // ---------------------------------------------------------------------
  // The element information
  // ---------------------------------------------------------------------

  /** `_get_element_info`: each field read on its own, a failed read
      leaving the field's default; the locator is always set. */
  function ElementInfoOf(root: Node, addr: Address): (info: ElementInfo)
    ensures info.locator == LocatorOf(root, addr)
    ensures info.value == SelectorValue(ElementAt(root, addr))
  {
    var e := ElementAt(root, addr);
    ElementInfo(
      e.name.GetOr(""),
      e.automationId.GetOr(""),
      e.className.GetOr(""),
      e.controlTypeName.GetOr(""),
      SelectorValue(e),
      e.runtimeId,
      e.rect,
      e.processId.GetOr(0),
      LocatorOf(root, addr))
  }

  method GetElementInfo(root: Node, addr: Address) returns (info: ElementInfo)
    ensures info == ElementInfoOf(root, addr)
  {
    var loc := BuildLocator(root, addr);
    var e := ElementAt(root, addr);
    info := ElementInfo("", "", "", "", "", None, None, 0, EmptyLocator);
    // each read that fails keeps the default already in place
    info := info.(name := e.name.GetOr(info.name));
    info := info.(automationId := e.automationId.GetOr(info.automationId));
    info := info.(className := e.className.GetOr(info.className));
    info := info.(controlType := e.controlTypeName.GetOr(info.controlType));
    info := info.(value := SelectorValue(e));
    info := info.(runtimeId := if e.runtimeId.Some? then e.runtimeId else info.runtimeId);
    info := info.(boundingRect := if e.rect.Some? then e.rect else info.boundingRect);
    info := info.(processId := e.processId.GetOr(info.processId));
    info := info.(locator := loc);
  }

  /** An element that has gone away yields every default and a locator with
      nothing in it. */
  lemma VanishedElementInfo(root: Node, addr: Address)
    requires NodeAt(root, addr).None?
    ensures ElementInfoOf(root, addr) == ElementInfo("", "", "", "", "", None, None, 0, EmptyLocator)
  {
    assert SegmentOf(StaleNode).None?;
  }

  /** When every read succeeds the information and its locator agree. */
  lemma InfoAgreesWithLocator(root: Node, addr: Address)
    requires var e := ElementAt(root, addr);
      e.name.Some? && e.automationId.Some? && e.className.Some? && e.controlTypeName.Some? && e.processId.Some?
    ensures var info := ElementInfoOf(root, addr);
      && info.locator.name == info.name && info.locator.automationId == info.automationId
      && info.locator.className == info.className && info.locator.controlType == info.controlType
      && info.locator.processId == info.processId
  {
  }

  /** When only the automation id cannot be read, the information still has
      the name but the locator, whose reads stop at the first failure, has
      none. */
  lemma FailedIdReadEmptiesLocator()
    ensures var root := StaleNode.(name := Some("OK"));
      ElementInfoOf(root, []).name == "OK" && LocatorOf(root, []).name == ""
  {
  }

  // ---------------------------------------------------------------------
  // The key poll
  // ---------------------------------------------------------------------

  /** The keys held down at one poll. */
  datatype KeySample = KeySample(escape: bool, ctrl: bool, lbutton: bool)

  datatype Decision = Cancel | Confirm | Continue(ctrlWasPressed: bool)

  /** One poll: escape first, then Ctrl with the left button newly pressed
      together; otherwise remember whether both are down. */
  function Decide(k: KeySample, ctrlWasPressed: bool): (d: Decision)
    ensures k.escape ==> d == Cancel
    ensures d == Confirm <==> !k.escape && k.ctrl && k.lbutton && !ctrlWasPressed
    ensures d.Continue? ==> d.ctrlWasPressed == (k.ctrl && k.lbutton)
  {
    if k.escape then Cancel
    else if k.ctrl && k.lbutton && !ctrlWasPressed then Confirm
    else Continue(k.ctrl && k.lbutton)
  }

  /** The decision that ends a run of polls, with the index of the poll
      that made it, or nothing when the run does not end. */
  function SelectionEnd(samples: seq<KeySample>, ctrlWasPressed: bool): Option<(nat, Decision)>
    decreases |samples|
  {
    if samples == [] then None
    else
      match Decide(samples[0], ctrlWasPressed)
      case Continue(held) =>
        (match SelectionEnd(samples[1..], held)
         case None => None
         case Some(p) => Some((p.0 + 1, p.1)))
      case d => Some((0, d))
  }

  /** In a loop that starts with nothing held, the remembered flag never
      becomes true: holding Ctrl and the button confirms at once. The run
      ends at the first poll with escape or both keys down, and it
      confirms exactly when that poll has no escape. */
  lemma {:induction false} SelectionEndsAtFirstChord(samples: seq<KeySample>)
    ensures var e := SelectionEnd(samples, false);
      && (e.None? <==> forall i :: 0 <= i < |samples| ==> !samples[i].escape && !(samples[i].ctrl && samples[i].lbutton))
      && (e.Some? ==>
            && e.value.0 < |samples|
            && (samples[e.value.0].escape || (samples[e.value.0].ctrl && samples[e.value.0].lbutton))
            && (forall i :: 0 <= i < e.value.0 ==> !samples[i].escape && !(samples[i].ctrl && samples[i].lbutton))
            && (e.value.1 == Confirm <==> !samples[e.value.0].escape)
            && (e.value.1 == Cancel <==> samples[e.value.0].escape))
    decreases |samples|
  {
    if samples != [] {
      var k := samples[0];
      if !k.escape && !(k.ctrl && k.lbutton) {
        SelectionEndsAtFirstChord(samples[1..]);
        assert forall i :: 1 <= i < |samples| ==> samples[i] == samples[1..][i - 1];
      }
    }
  }

  // ---------------------------------------------------------------------
  // The selector object
  // ---------------------------------------------------------------------

  function Grow(r: Rect, m: int): Rect {
    Rect(r.left - m, r.top - m, r.right + m, r.bottom + m)
  }

  predicate Drawable(r: Rect) {
    r.Width() > 0 && r.Height() > 0
  }

  /** `_show_highlight` redraws only for a readable, drawable rectangle
      that differs from the one last drawn. */
  predicate DrawsOver(rect: Option<Rect>, last: Option<Rect>) {
    rect.Some? && Drawable(rect.value) && rect != last
  }

  class UISelector {
    var running: bool
    var hovered: Option<Address>
    var lastRect: Option<Rect>
    var ctrlWasPressed: bool
    /** Rectangles drawn on the screen, in order. */
    var drawn: seq<Rect>
    /** Areas invalidated to erase a highlight, in order. */
    var invalidated: seq<Rect>
    /** Results passed to the callback, in order. */
    var results: seq<Option<ElementInfo>>

    /** Only a drawable rectangle is ever remembered as highlighted. */
    ghost predicate Valid()
      reads this
    {
      lastRect.Some? ==> Drawable(lastRect.value)
    }

    constructor()
      ensures Valid()
      ensures !running && hovered.None? && lastRect.None? && !ctrlWasPressed
      ensures drawn == [] && invalidated == [] && results == []
    {
      running := false;
      hovered := None;
      lastRect := None;
      ctrlWasPressed := false;
      drawn := [];
      invalidated := [];
      results := [];
    }

    /** `start`: the loop begins with nothing remembered as held. */
    method Start()
      requires Valid()
      modifies this
      ensures Valid()
      ensures running && !ctrlWasPressed
      ensures hovered == old(hovered) && lastRect == old(lastRect)
      ensures drawn == old(drawn) && invalidated == old(invalidated) && results == old(results)
    {
      running := true;
      ctrlWasPressed := false;
    }

    /** `_clear_highlight`. */
    method ClearHighlight()
      requires Valid()
      modifies this
      ensures Valid()
      ensures lastRect.None?
      ensures old(lastRect).None? ==> invalidated == old(invalidated)
      ensures old(lastRect).Some? ==> invalidated == old(invalidated) + [Grow(old(lastRect).value, ClearMargin)]
      ensures running == old(running) && hovered == old(hovered) && ctrlWasPressed == old(ctrlWasPressed)
      ensures drawn == old(drawn) && results == old(results)
    {
      if lastRect.Some? {
        invalidated := invalidated + [Grow(lastRect.value, ClearMargin)];
        lastRect := None;
      }
    }

    /** `_show_highlight` for an element whose rectangle read gave `rect`
        (nothing when the read failed). */
    method ShowHighlight(rect: Option<Rect>)
      requires Valid()
      modifies this
      ensures Valid()
      ensures !DrawsOver(rect, old(lastRect)) ==>
        lastRect == old(lastRect) && drawn == old(drawn) && invalidated == old(invalidated)
      ensures DrawsOver(rect, old(lastRect)) ==>
        && lastRect == rect
        && drawn == old(drawn) + [rect.value]
        && invalidated == old(invalidated) + (if old(lastRect).Some? then [Grow(old(lastRect).value, ClearMargin)] else [])
      ensures running == old(running) && hovered == old(hovered) && ctrlWasPressed == old(ctrlWasPressed)
      ensures results == old(results)
    {
      if DrawsOver(rect, lastRect) {
        ClearHighlight();
        drawn := drawn + [rect.value];
        lastRect := rect;
      }
    }

    /** `stop`. */
    method Stop()
      requires Valid()
      modifies this
      ensures Valid()
      ensures !running && lastRect.None?
      ensures old(lastRect).None? ==> invalidated == old(invalidated)
      ensures old(lastRect).Some? ==> invalidated == old(invalidated) + [Grow(old(lastRect).value, ClearMargin)]
      ensures hovered == old(hovered) && ctrlWasPressed == old(ctrlWasPressed)
      ensures drawn == old(drawn) && results == old(results)
    {
      running := false;
      ClearHighlight();
    }

    /** `_cancel_selection`. */
    method CancelSelection()
      requires Valid()
      modifies this
      ensures Valid()
      ensures !running && lastRect.None?
      ensures old(lastRect).None? ==> invalidated == old(invalidated)
      ensures old(lastRect).Some? ==> invalidated == old(invalidated) + [Grow(old(lastRect).value, ClearMargin)]
      ensures results == old(results) + [None]
      ensures hovered == old(hovered) && drawn == old(drawn) && ctrlWasPressed == old(ctrlWasPressed)
    {
      Stop();
      results := results + [None];
    }

    /** `_confirm_selection`: the information of the last hovered element,
        or nothing when none was hovered. */
    method ConfirmSelection(root: Node)
      requires Valid()
      modifies this
      ensures Valid()
      ensures !running && lastRect.None?
      ensures old(lastRect).None? ==> invalidated == old(invalidated)
      ensures old(lastRect).Some? ==> invalidated == old(invalidated) + [Grow(old(lastRect).value, ClearMargin)]
      ensures old(hovered).None? ==> results == old(results) + [None]
      ensures old(hovered).Some? ==> results == old(results) + [Some(ElementInfoOf(root, old(hovered).value))]
      ensures hovered == old(hovered) && drawn == old(drawn) && ctrlWasPressed == old(ctrlWasPressed)
    {
      Stop();
      if hovered.Some? {
        var info := GetElementInfo(root, hovered.value);
        results := results + [Some(info)];
      } else {
        results := results + [None];
      }
    }

    /** One iteration of the selection loop: the keys held, and the element
        under the cursor (nothing when there is none or the lookup failed). */
    method PollOnce(root: Node, keys: KeySample, under: Option<Address>)
      requires Valid() && running
      modifies this
      ensures Valid()
      ensures Decide(keys, old(ctrlWasPressed)) == Cancel ==>
        !running && results == old(results) + [None]
      ensures Decide(keys, old(ctrlWasPressed)) == Confirm ==>
        !running && results == old(results) + [if old(hovered).Some? then Some(ElementInfoOf(root, old(hovered).value)) else None]
      ensures !Decide(keys, old(ctrlWasPressed)).Continue? ==>
        && lastRect.None? && drawn == old(drawn) && hovered == old(hovered)
        && invalidated == old(invalidated) + (if old(lastRect).Some? then [Grow(old(lastRect).value, ClearMargin)] else [])
      ensures Decide(keys, old(ctrlWasPressed)).Continue? ==>
        && running && results == old(results)
        && ctrlWasPressed == Decide(keys, old(ctrlWasPressed)).ctrlWasPressed
        && hovered == (if under.Some? then under else old(hovered))
      // the highlight follows the element under the cursor, as `ShowHighlight` does
      ensures Decide(keys, old(ctrlWasPressed)).Continue? && (under.None? || !DrawsOver(ElementAt(root, under.value).rect, old(lastRect))) ==>
        lastRect == old(lastRect) && drawn == old(drawn) && invalidated == old(invalidated)
      ensures Decide(keys, old(ctrlWasPressed)).Continue? && under.Some? && DrawsOver(ElementAt(root, under.value).rect, old(lastRect)) ==>
        && lastRect == ElementAt(root, under.value).rect
        && drawn == old(drawn) + [ElementAt(root, under.value).rect.value]
        && invalidated == old(invalidated) + (if old(lastRect).Some? then [Grow(old(lastRect).value, ClearMargin)] else [])
      ensures !old(ctrlWasPressed) ==> !ctrlWasPressed
    {
      if keys.escape {
        CancelSelection();
        return;
      }
      if keys.ctrl && keys.lbutton && !ctrlWasPressed {
        ConfirmSelection(root);
        return;
      }
      ctrlWasPressed := keys.ctrl && keys.lbutton;
      if under.Some? {
        hovered := under;
        ShowHighlight(ElementAt(root, under.value).rect);
      }
    }
  }
}
