/** The accessibility tree as a value. A node carries the properties the
    program reads; each read is optional because on a live element any read
    may raise, and the program treats a raised read as "absent". */
module Tree {
  import opened Wrappers

  datatype Rect = Rect(left: int, top: int, right: int, bottom: int) {
    function Width(): int { right - left }
    function Height(): int { bottom - top }
  }

  /** The states of the toggle pattern; `str` of the state is its number. */
  datatype ToggleState = Off | On | Indeterminate {
    function Text(): string {
      match this
      case Off => "0"
      case On => "1"
      case Indeterminate => "2"
    }
  }

  /** The pattern reads of an element, each `None` when the element does not
      support the pattern or the read raised. */
  datatype Patterns = Patterns(
    value: Option<string>,           // value pattern: Value
    text: Option<string>,            // text pattern: the whole document range
    range: Option<string>,           // range value pattern: str() of its Value
    selection: Option<seq<string>>,  // selection pattern: names of the selected items
    toggle: Option<ToggleState>)     // toggle pattern: ToggleState

  const NoPatterns := Patterns(None, None, None, None, None)

  datatype Node = Node(
    name: Option<string>,
    automationId: Option<string>,
    className: Option<string>,
    controlTypeName: Option<string>,
    controlType: Option<int>,        // the numeric control type the library searches by
    processId: Option<int>,
    runtimeId: Option<seq<int>>,
    rect: Option<Rect>,
    patterns: Patterns,
    children: seq<Node>)

  /** An element whose handle has gone stale: every read raises. */
  const StaleNode := Node(None, None, None, None, None, None, None, None, NoPatterns, [])

  /** An element is addressed by the child indices that lead to it from the root. */
  type Address = seq<nat>

  function NodeAt(root: Node, addr: Address): Option<Node>
    decreases addr
  {
    if addr == [] then Some(root)
    else if addr[0] < |root.children| then NodeAt(root.children[addr[0]], addr[1..])
    else None
  }

  /** The element at `addr`, or a stale one when the address no longer exists. */
  function ElementAt(root: Node, addr: Address): Node {
    NodeAt(root, addr).GetOr(StaleNode)
  }

  /** The search criteria the library's descendant search is given; a field
      left `None` is not part of the search. `controlType` holds what the
      control-type lookup produced, which may be nothing. */
  datatype Filter = Filter(
    automationId: Option<string>,
    controlType: Option<Option<int>>,
    className: Option<string>,
    name: Option<string>)

  predicate Satisfies(n: Node, f: Filter) {
    && (f.automationId.Some? ==> n.automationId == f.automationId)
    && (f.controlType.Some? ==> f.controlType.value.Some? && n.controlType == f.controlType.value)
    && (f.className.Some? ==> n.className == f.className)
    && (f.name.Some? ==> n.name == f.name)
  }

  /** A node followed by its descendants, depth first, children in order. */
  function Preorder(n: Node): seq<Node>
    decreases n
  {
    [n] + Forest(n.children)
  }

  function Forest(cs: seq<Node>): seq<Node>
    decreases cs
  {
    if cs == [] then [] else Preorder(cs[0]) + Forest(cs[1..])
  }

  /** The descendants of `n`, in the order the library visits them. */
  function Descendants(n: Node): seq<Node> {
    Forest(n.children)
  }

  /** Reference definition: the first node of `s` that satisfies `f`. */
  function FirstSatisfying(s: seq<Node>, f: Filter): (r: Option<Node>)
    ensures r.Some? ==> r.value in s && Satisfies(r.value, f)
    ensures r.None? ==> forall x :: x in s ==> !Satisfies(x, f)
  {
    if s == [] then None
    else if Satisfies(s[0], f) then Some(s[0])
    else FirstSatisfying(s[1..], f)
  }

  lemma {:induction false} FirstSatisfyingAppend(a: seq<Node>, b: seq<Node>, f: Filter)
    ensures FirstSatisfying(a + b, f) ==
      if FirstSatisfying(a, f).Some? then FirstSatisfying(a, f) else FirstSatisfying(b, f)
  {
    if a == [] {
      assert a + b == b;
    } else {
      assert (a + b)[1..] == a[1..] + b;
      FirstSatisfyingAppend(a[1..], b, f);
    }
  }

  /** Search `n` and then its subtree. */
  function SearchTree(n: Node, f: Filter): (r: Option<Node>)
    ensures r == FirstSatisfying(Preorder(n), f)
    decreases n
  {
    if Satisfies(n, f) then Some(n)
    else
      var r := SearchForest(n.children, f);
      assert Preorder(n)[1..] == Forest(n.children);
      r
  }

  function SearchForest(cs: seq<Node>, f: Filter): (r: Option<Node>)
    ensures r == FirstSatisfying(Forest(cs), f)
    decreases cs
  {
    if cs == [] then None
    else
      var first := SearchTree(cs[0], f);
      FirstSatisfyingAppend(Preorder(cs[0]), Forest(cs[1..]), f);
      if first.Some? then first else SearchForest(cs[1..], f)
  }

  /** The library's search below a node (`node.Control(...)` followed by
      `Exists(0, 0)`): the first descendant, in depth-first order, that
      satisfies the criteria. The node itself is not considered. */
  function FirstDescendant(n: Node, f: Filter): (r: Option<Node>)
    ensures r == FirstSatisfying(Descendants(n), f)
  {
    SearchForest(n.children, f)
  }

  /** The descendants of a child are descendants of its parent. */
  lemma {:induction false} ForestIncludesSubtrees(cs: seq<Node>, k: nat, x: Node)
    requires k < |cs| && x in Preorder(cs[k])
    ensures x in Forest(cs)
    decreases cs
  {
    if k > 0 {
      ForestIncludesSubtrees(cs[1..], k - 1, x);
    }
  }

  lemma ChildDescendantsAreDescendants(n: Node, k: nat, x: Node)
    requires k < |n.children| && x in Descendants(n.children[k])
    ensures x in Descendants(n)
  {
    assert x in Preorder(n.children[k]);
    ForestIncludesSubtrees(n.children, k, x);
  }
}
