/**
  The slice of the DOM that the collapse machinery and the page rewrites
  touch, modelled as an arena: every node lives at an index of `Doc.nodes`,
  carries a link to its parent node and the ordered list of its child nodes.
  Node identity is the index, so a node moved by `insertBefore` or
  `appendChild` keeps its identity, as in the browser.
*/
module Dom {

  datatype Option<T> = None | Some(value: T)

  type NodeId = nat

  /** An element (with its upper-case tag name), a text node, or the document
      or document fragment at the root of a tree. */
  datatype Kind = Element(tag: string) | Text | Fragment

  datatype Node = Node(
    kind: Kind,
    classes: set<string>,    // the element's class list
    hasClassAttr: bool,      // whether a `class` attribute is present at all
    id: string,              // the `id` attribute, "" when absent
    text: string,            // a text node's data
    parent: Option<NodeId>,  // parentNode
    children: seq<NodeId>,   // childNodes, in document order
    rank: real,              // nesting key, always larger than the parent's
    checked: bool,           // a checkbox's checked state
    handler: Handler,        // a disclosure button's `stateChangedHandler`
    changeListeners: nat,    // "change" listeners attached to a checkbox
    hoverListeners: nat,     // delayed "mouseenter" listeners attached to a checkbox
    leaveListeners: nat,     // hover preview: "mouseleave" listeners this button put on its block
    clickListeners: nat)     // hover preview: "click" listeners this button put on its block

  /** A button's `stateChangedHandler` property: absent, or a closure over
      the block it toggles (null when the button is in no block). */
  datatype Handler = NoHandler | Installed(block: Option<NodeId>)

  datatype Doc = Doc(nodes: seq<Node>)

  /** A notification fired through the page's notification centre:
      its name and the `source` field of its info object, if any. */
  datatype Event = Event(name: string, source: Option<string>)

  /** The live page: the document tree and the log of fired notifications. */
  class Page {
    var doc: Doc
    var events: seq<Event>

    ghost predicate Valid()
      reads this
    {
      WF(doc)
    }

    constructor (d: Doc)
      requires WF(d)
      ensures Valid() && doc == d && events == []
    {
      doc := d;
      events := [];
    }
  }

  /** `GW.notificationCenter.fireEvent(name, info)`: appends the
      notification to the page's log and leaves the document alone. */
  method Fire(page: Page, ev: Event)
    requires page.Valid()
    modifies page
    ensures page.Valid() && page.doc == old(page.doc)
    ensures page.events == old(page.events) + [ev]
  {
    page.events := page.events + [ev];
  }

  /** A fresh, detached element with no attributes beyond its classes. */
  function NewElement(tag: string, classes: set<string>, rank: real): Node {
    Node(Element(tag), classes, classes != {}, "", "", None, [], rank, false, NoHandler, 0, 0, 0, 0)
  }

  predicate InDoc(d: Doc, n: NodeId) {
    n < |d.nodes|
  }

  predicate IsElement(d: Doc, n: NodeId) {
    n < |d.nodes| && d.nodes[n].kind.Element?
  }

  predicate HasTag(d: Doc, n: NodeId, tag: string) {
    n < |d.nodes| && d.nodes[n].kind == Element(tag)
  }

  predicate HasClass(d: Doc, n: NodeId, cls: string) {
    n < |d.nodes| && cls in d.nodes[n].classes
  }

  predicate NoDup(s: seq<NodeId>) {
    forall i, j | 0 <= i < j < |s| :: s[i] != s[j]
  }

  /*
    Well-formedness: parent and child links agree, child lists have no
    repeats, text nodes are leaves, documents and fragments are roots, and
    every node outranks its parent (so the parent relation has no cycles).
  */

  ghost predicate ParentOk(d: Doc, n: NodeId)
    requires n < |d.nodes|
  {
    match d.nodes[n].parent
    case None => true
    case Some(p) =>
      && p < |d.nodes|
      && d.nodes[p].rank < d.nodes[n].rank
      && n in d.nodes[p].children
  }

  ghost predicate ChildrenOk(d: Doc, n: NodeId)
    requires n < |d.nodes|
  {
    && NoDup(d.nodes[n].children)
    && (forall c | c in d.nodes[n].children :: c < |d.nodes| && d.nodes[c].parent == Some(n))
    && (d.nodes[n].kind.Text? ==> d.nodes[n].children == [])
    && (d.nodes[n].kind.Fragment? ==> d.nodes[n].parent.None?)
  }

  ghost predicate NodeOk(d: Doc, n: NodeId)
    requires n < |d.nodes|
  {
    ParentOk(d, n) && ChildrenOk(d, n)
  }

  ghost predicate WF(d: Doc) {
    forall n | 0 <= n < |d.nodes| :: NodeOk(d, n)
  }

  /** The nodes ranked below `r`; it shrinks at every step up the tree. */
  function Below(d: Doc, r: real): set<NodeId> {
    set m: NodeId | m < |d.nodes| && d.nodes[m].rank < r
  }

  lemma BelowShrinks(d: Doc, p: NodeId, n: NodeId)
    requires p < |d.nodes| && n < |d.nodes| && d.nodes[p].rank < d.nodes[n].rank
    ensures |Below(d, d.nodes[p].rank)| < |Below(d, d.nodes[n].rank)|
  {
    var a, b := Below(d, d.nodes[p].rank), Below(d, d.nodes[n].rank);
    assert p in b - a;
    assert b == a + (b - a);
    assert |b| == |a| + |b - a|;
  }

  /** `parentElement`: the parent node when it is an element. */
  function ParentElement(d: Doc, n: NodeId): (r: Option<NodeId>)
    requires WF(d) && n < |d.nodes|
    ensures r.Some? ==> IsElement(d, r.value) && d.nodes[n].parent == r
    ensures r.Some? ==> d.nodes[r.value].rank < d.nodes[n].rank
    ensures r.None? ==> d.nodes[n].parent.None? || !IsElement(d, d.nodes[n].parent.value)
  {
    assert NodeOk(d, n);
    match d.nodes[n].parent
    case None => None
    case Some(p) => if d.nodes[p].kind.Element? then Some(p) else None
  }

  /** The node followed by its ancestor elements, innermost first: the nodes
      that `closest` visits. */
  function Chain(d: Doc, n: NodeId): (c: seq<NodeId>)
    requires WF(d) && n < |d.nodes|
    ensures |c| >= 1 && c[0] == n
    ensures forall i | 0 <= i < |c| :: c[i] < |d.nodes|
    ensures forall i | 0 < i < |c| :: ParentElement(d, c[i - 1]) == Some(c[i])
    ensures ParentElement(d, c[|c| - 1]).None?
    decreases |Below(d, d.nodes[n].rank)|
  {
    match ParentElement(d, n)
    case None => [n]
    case Some(p) =>
      BelowShrinks(d, p, n);
      [n] + Chain(d, p)
  }

  /** The outermost element above `n` (the node itself when it has no parent
      element): the element whose `parentElement` is null. */
  function Top(d: Doc, n: NodeId): NodeId
    requires WF(d) && n < |d.nodes|
  {
    var c := Chain(d, n);
    c[|c| - 1]
  }

  /** Ancestors of an ancestor are ancestors: the chain of the i-th node on a
      chain is the rest of that chain. */
  lemma {:induction false} ChainSuffix(d: Doc, n: NodeId, i: nat)
    requires WF(d) && n < |d.nodes| && i < |Chain(d, n)|
    ensures Chain(d, Chain(d, n)[i]) == Chain(d, n)[i..]
    decreases i
  {
    if i > 0 {
      var p := ParentElement(d, n).value;
      var c, cp := Chain(d, n), Chain(d, p);
      assert c == [n] + cp;
      assert c[i] == cp[i - 1] && c[i..] == cp[i - 1..];
      ChainSuffix(d, p, i - 1);
    }
  }

  /** Every node on the chain is ranked at most as high as where it started. */
  lemma {:induction false} ChainRanks(d: Doc, n: NodeId, i: nat)
    requires WF(d) && n < |d.nodes| && i < |Chain(d, n)|
    ensures d.nodes[Chain(d, n)[i]].rank <= d.nodes[n].rank
    ensures i > 0 ==> d.nodes[Chain(d, n)[i]].rank < d.nodes[n].rank
    decreases i
  {
    if i > 0 {
      var p := ParentElement(d, n).value;
      assert Chain(d, n) == [n] + Chain(d, p);
      ChainRanks(d, p, i - 1);
    }
  }

  /** The elements of `s` that carry class `cls`, in order. */
  function WithClass(d: Doc, s: seq<NodeId>, cls: string): (r: seq<NodeId>)
    ensures forall x | x in r :: x in s && HasClass(d, x, cls)
    ensures forall x | x in s && HasClass(d, x, cls) :: x in r
    ensures |r| <= |s|
  {
    if s == [] then []
    else if HasClass(d, s[0], cls) then [s[0]] + WithClass(d, s[1..], cls)
    else WithClass(d, s[1..], cls)
  }

  lemma {:induction false} WithClassAppend(d: Doc, s: seq<NodeId>, t: seq<NodeId>, cls: string)
    ensures WithClass(d, s + t, cls) == WithClass(d, s, cls) + WithClass(d, t, cls)
  {
    if s != [] {
      assert (s + t)[1..] == s[1..] + t;
      WithClassAppend(d, s[1..], t, cls);
    } else {
      assert s + t == t;
    }
  }

  /** `element.closest("." + cls)`: the innermost node on the chain that
      carries the class, i.e. the first of the chain's nodes with it. */
  function Closest(d: Doc, n: NodeId, cls: string): (r: Option<NodeId>)
    requires WF(d) && n < |d.nodes|
    ensures var ws := WithClass(d, Chain(d, n), cls);
            r == if ws == [] then None else Some(ws[0])
    decreases |Below(d, d.nodes[n].rank)|
  {
    if cls in d.nodes[n].classes then Some(n)
    else match ParentElement(d, n)
      case None => None
      case Some(p) =>
        BelowShrinks(d, p, n);
        Closest(d, p, cls)
  }

  /** `a.contains(b)`: `a` is `b` or an ancestor element of it. */
  predicate Contains(d: Doc, a: NodeId, b: NodeId)
    requires WF(d) && b < |d.nodes|
  {
    a in Chain(d, b)
  }

  /** The element children of `n` (the `children` collection), in order. */
  function ElementChildren(d: Doc, n: NodeId): (r: seq<NodeId>)
    requires n < |d.nodes|
    ensures forall x | x in r :: x in d.nodes[n].children && IsElement(d, x)
    ensures forall x | x in d.nodes[n].children && IsElement(d, x) :: x in r
  {
    ElementsOf(d, d.nodes[n].children)
  }

  function ElementsOf(d: Doc, s: seq<NodeId>): (r: seq<NodeId>)
    ensures forall x | x in r :: x in s && IsElement(d, x)
    ensures forall x | x in s && IsElement(d, x) :: x in r
    ensures r != [] ==> r[0] in s && forall i | 0 <= i < IndexOf(s, r[0]) :: !IsElement(d, s[i])
  {
    if s == [] then []
    else if IsElement(d, s[0]) then [s[0]] + ElementsOf(d, s[1..])
    else ElementsOf(d, s[1..])
  }

  /** `firstElementChild`: the first child, in child order, that is an
      element; none when no child is. */
  function FirstElementChild(d: Doc, n: NodeId): (r: Option<NodeId>)
    requires n < |d.nodes|
    ensures r.Some? ==>
              && r.value in d.nodes[n].children && IsElement(d, r.value)
              && forall i | 0 <= i < IndexOf(d.nodes[n].children, r.value) :: !IsElement(d, d.nodes[n].children[i])
    ensures r.None? <==> forall c | c in d.nodes[n].children :: !IsElement(d, c)
  {
    var es := ElementChildren(d, n);
    if es == [] then None else Some(es[0])
  }

  /** Position of `x` in `s`. */
  function IndexOf(s: seq<NodeId>, x: NodeId): (i: nat)
    requires x in s
    ensures i < |s| && s[i] == x && x !in s[..i]
  {
    if s[0] == x then 0 else 1 + IndexOf(s[1..], x)
  }
}
