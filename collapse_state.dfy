/**
  Read-only queries of collapse.js: whether a block is collapsed, whether an
  element sits inside a collapsed block (walking every enclosing block up to
  the top of the document), and which disclosure button belongs to a block.
*/
module CollapseState {
  import opened Dom
  import opened DomEdit

  const Collapse := "collapse"
  const Expanded := "expanded"
  const DisclosureButton := "disclosure-button"

  /** `isCollapsed(collapseBlock)`: the block lacks class `expanded`. */
  predicate IsCollapsed(d: Doc, b: NodeId) {
    !HasClass(d, b, Expanded)
  }

  /** Only `expanded` decides: `classList.toggle(cls, force)` on a block
      makes it collapsed exactly when `cls` is `expanded` and not forced on,
      leaves it as it was for any other class, and leaves every other
      node's state alone. */
  lemma CollapsedByToggle(d: Doc, b: NodeId, cls: string, force: bool)
    requires b < |d.nodes|
    ensures var r := ToggleClass(d, b, cls, force);
            && IsCollapsed(r, b) == (if cls == Expanded then !force else IsCollapsed(d, b))
            && forall m | 0 <= m < |d.nodes| && m != b :: IsCollapsed(r, m) == IsCollapsed(d, m)
  {
    var r := ToggleClass(d, b, cls, force);
    assert r.nodes[b].classes == if force then d.nodes[b].classes + {cls} else d.nodes[b].classes - {cls};
  }

  /** The collapse blocks enclosing `n`, `n` itself included, innermost
      first. */
  function Blocks(d: Doc, n: NodeId): seq<NodeId>
    requires WF(d) && n < |d.nodes|
  {
    WithClass(d, Chain(d, n), Collapse)
  }

  /** The outermost element above `n` is not a collapse block. */
  predicate TopIsNotBlock(d: Doc, n: NodeId)
    requires WF(d) && n < |d.nodes|
  {
    !HasClass(d, Top(d, n), Collapse)
  }

  /** `isWithinCollapsedBlock(n)` returns instead of throwing: otherwise the
      walk reaches an expanded block whose `parentElement` is null and calls
      `closest` on null. That happens exactly when the outermost element is
      itself a block and no enclosing block is collapsed. */
  predicate WalkDefined(d: Doc, n: NodeId)
    requires WF(d) && n < |d.nodes|
  {
    TopIsNotBlock(d, n) || exists b | b in Blocks(d, n) :: IsCollapsed(d, b)
  }

  /** Stepping from the nearest enclosing block to its parent element drops
      exactly that block from the list of enclosing blocks; a block without
      a parent element is the outermost element and the only block. */
  lemma {:induction false} BlocksStep(d: Doc, n: NodeId)
    requires WF(d) && n < |d.nodes| && Closest(d, n, Collapse).Some?
    ensures var c := Closest(d, n, Collapse).value;
            && c < |d.nodes| && d.nodes[c].rank <= d.nodes[n].rank && HasClass(d, c, Collapse)
            && (ParentElement(d, c).None? ==> Blocks(d, n) == [c] && Top(d, n) == c)
            && (ParentElement(d, c).Some? ==>
                  && Blocks(d, n) == [c] + Blocks(d, ParentElement(d, c).value)
                  && Top(d, ParentElement(d, c).value) == Top(d, n))
    decreases |Below(d, d.nodes[n].rank)|
  {
    var ch := Chain(d, n);
    if ParentElement(d, n).None? {
      assert ch == [n];
      assert WithClass(d, ch, Collapse) == [n];
    } else {
      var p := ParentElement(d, n).value;
      assert ch == [n] + Chain(d, p);
      assert ch[1..] == Chain(d, p);
      assert Top(d, p) == Top(d, n);
      if !HasClass(d, n, Collapse) {
        BelowShrinks(d, p, n);
        BlocksStep(d, p);
      }
    }
  }

  /** `isWithinCollapsedBlock(element)`: find the nearest enclosing block;
      none means false, a collapsed one means true, and an expanded one sends
      the question on to that block's parent element. A null element is
      `None`, and so is the outcome when the JS throws: `closest` called on
      a null element. The answer is whether any block enclosing the element
      is collapsed; the call throws exactly when the walk is not defined. */
  function IsWithinCollapsedBlock(d: Doc, element: Option<NodeId>): (r: Option<bool>)
    requires WF(d) && (element.Some? ==> element.value < |d.nodes|)
    ensures element.None? ==> r.None?
    ensures element.Some? ==> (r.Some? <==> WalkDefined(d, element.value))
    ensures element.Some? && r.Some? ==>
              (r.value <==> exists b | b in Blocks(d, element.value) :: IsCollapsed(d, b))
    decreases element.Some?, if element.Some? then |Below(d, d.nodes[element.value].rank)| else 0
  {
    match element
    case None => None
    case Some(e) =>
      WithinStep(d, e);
      match Closest(d, e, Collapse)
      case None => Some(false)
      case Some(c) =>
        if IsCollapsed(d, c) then Some(true)
        else IsWithinCollapsedBlock(d, ParentElement(d, c))
  }

  /** One level of `isWithinCollapsedBlock`: what the nearest enclosing
      block `c` decides, and, when it is expanded, that the question about
      `e` is the same question about `c`'s parent element, which ranks
      below `e`. */
  lemma WithinStep(d: Doc, e: NodeId)
    requires WF(d) && e < |d.nodes|
    ensures Closest(d, e, Collapse).None? ==>
              WalkDefined(d, e) && forall b | b in Blocks(d, e) :: !IsCollapsed(d, b)
    ensures Closest(d, e, Collapse).Some? ==>
              var c := Closest(d, e, Collapse).value;
              && c < |d.nodes|
              && (IsCollapsed(d, c) ==> WalkDefined(d, e) && c in Blocks(d, e))
              && (!IsCollapsed(d, c) && ParentElement(d, c).None? ==> !WalkDefined(d, e))
              && (!IsCollapsed(d, c) && ParentElement(d, c).Some? ==>
                    var p := ParentElement(d, c).value;
                    && p < |d.nodes| && |Below(d, d.nodes[p].rank)| < |Below(d, d.nodes[e].rank)|
                    && (WalkDefined(d, e) <==> WalkDefined(d, p))
                    && ((exists b | b in Blocks(d, e) :: IsCollapsed(d, b))
                        <==> (exists b | b in Blocks(d, p) :: IsCollapsed(d, b))))
  {
    if Closest(d, e, Collapse).None? {
      WithinNone(d, e);
    } else {
      var c := Closest(d, e, Collapse).value;
      BlocksStep(d, e);
      if IsCollapsed(d, c) {
        WithinCollapsed(d, e, c);
      } else if ParentElement(d, c).None? {
        WithinNoParent(d, e, c);
      } else {
        WithinParent(d, e, c, ParentElement(d, c).value);
      }
    }
  }

  lemma WithinNone(d: Doc, e: NodeId)
    requires WF(d) && e < |d.nodes| && Closest(d, e, Collapse).None?
    ensures WalkDefined(d, e) && forall b | b in Blocks(d, e) :: !IsCollapsed(d, b)
  {
  }

  lemma WithinCollapsed(d: Doc, e: NodeId, c: NodeId)
    requires WF(d) && e < |d.nodes| && Closest(d, e, Collapse) == Some(c) && IsCollapsed(d, c)
    ensures c < |d.nodes| && WalkDefined(d, e) && c in Blocks(d, e)
  {
    BlocksStep(d, e);
    var bs := Blocks(d, e);
    assert bs != [] && bs[0] == c && c in bs;
  }

  lemma WithinNoParent(d: Doc, e: NodeId, c: NodeId)
    requires WF(d) && e < |d.nodes| && c < |d.nodes| && !IsCollapsed(d, c)
    requires HasClass(d, c, Collapse) && Blocks(d, e) == [c] && Top(d, e) == c
    ensures !WalkDefined(d, e)
  {
    assert forall b | b in Blocks(d, e) :: b == c;
  }

  lemma WithinParent(d: Doc, e: NodeId, c: NodeId, p: NodeId)
    requires WF(d) && e < |d.nodes| && c < |d.nodes| && p < |d.nodes| && !IsCollapsed(d, c)
    requires d.nodes[c].rank <= d.nodes[e].rank && ParentElement(d, c) == Some(p)
    requires Blocks(d, e) == [c] + Blocks(d, p) && Top(d, p) == Top(d, e)
    ensures |Below(d, d.nodes[p].rank)| < |Below(d, d.nodes[e].rank)|
    ensures WalkDefined(d, e) <==> WalkDefined(d, p)
    ensures (exists b | b in Blocks(d, e) :: IsCollapsed(d, b))
            <==> (exists b | b in Blocks(d, p) :: IsCollapsed(d, b))
  {
    BelowShrinks(d, p, e);
  }

  /** The block's disclosure button: its first child with class
      `disclosure-button`. */
  function ButtonOf(d: Doc, b: NodeId): (r: Option<NodeId>)
    requires b < |d.nodes|
    ensures r.Some? ==> r.value in d.nodes[b].children && HasClass(d, r.value, DisclosureButton)
    ensures r.None? ==> forall c | c in d.nodes[b].children :: !HasClass(d, c, DisclosureButton)
  {
    var bs := WithClass(d, d.nodes[b].children, DisclosureButton);
    if bs == [] then None else Some(bs[0])
  }

  /** Two blocks never share a disclosure button: a button is a child of
      the block that owns it. */
  lemma ButtonsDistinct(d: Doc, a: NodeId, b: NodeId)
    requires WF(d) && a < |d.nodes| && b < |d.nodes| && a != b
    requires ButtonOf(d, a).Some? && ButtonOf(d, b).Some?
    ensures ButtonOf(d, a) != ButtonOf(d, b)
  {
    assert NodeOk(d, a) && NodeOk(d, b);
  }

  lemma {:induction false} WithClassFrame(d: Doc, e: Doc, s: seq<NodeId>, cls: string)
    requires forall x | x in s :: HasClass(d, x, cls) == HasClass(e, x, cls)
    ensures WithClass(d, s, cls) == WithClass(e, s, cls)
  {
    if s != [] {
      WithClassFrame(d, e, s[1..], cls);
    }
  }

  /** The enclosing blocks, the top element and the buttons depend only on
      the tree's shape and on the `collapse` and `disclosure-button`
      classes. */
  lemma BlocksFrame(d: Doc, e: Doc, n: NodeId)
    requires WF(d) && SameShape(d, e) && n < |d.nodes|
    requires forall m | 0 <= m < |d.nodes| :: HasClass(d, m, Collapse) == HasClass(e, m, Collapse)
    ensures WF(e) && Chain(e, n) == Chain(d, n) && Blocks(e, n) == Blocks(d, n)
    ensures Top(e, n) == Top(d, n)
    ensures TopIsNotBlock(e, n) == TopIsNotBlock(d, n)
  {
    SameShapeChain(d, e, n);
    WithClassFrame(d, e, Chain(d, n), Collapse);
  }

  lemma ButtonFrame(d: Doc, e: Doc, b: NodeId)
    requires SameShape(d, e) && b < |d.nodes|
    requires forall m | 0 <= m < |d.nodes| :: HasClass(d, m, DisclosureButton) == HasClass(e, m, DisclosureButton)
    ensures ButtonOf(e, b) == ButtonOf(d, b)
  {
    WithClassFrame(d, e, d.nodes[b].children, DisclosureButton);
  }
}
