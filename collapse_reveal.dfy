/**
  Revealing an element hidden inside collapsed blocks
  (`expandCollapseBlocksToReveal`, `revealElement`, `revealTarget` and
  `getHashTargetedElement` in js/collapse.js).

  The JS recursion expands the nearest enclosing block and then recurses on
  that block's parent element for as long as some enclosing block is still
  collapsed. Its effect is specified here on values: the blocks it reaches
  (`Reach`) are the enclosing blocks up to and including the outermost
  collapsed one, each gets its button checked and class `expanded`
  (`ExpandBlocks`), and the number of notifications is the number of maximal
  runs of unchecked buttons among them (`Runs`).
*/
module CollapseReveal {
  import opened Dom
  import opened DomEdit
  import opened CollapseState

  const RevealEvent := Event("Collapse.collapseStateDidChange", Some("expandCollapseBlocksToReveal"))
  const TargetDidReveal := Event("Collapse.targetDidReveal", None)

  /** Every block of `bs` owns a disclosure button. */
  predicate Buttoned(d: Doc, bs: seq<NodeId>) {
    forall b | b in bs :: b < |d.nodes| && ButtonOf(d, b).Some?
  }

  function Btn(d: Doc, b: NodeId): (r: NodeId)
    requires b < |d.nodes| && ButtonOf(d, b).Some?
    ensures r < |d.nodes|
  {
    ButtonOf(d, b).value
  }

  function ButtonsOf(d: Doc, bs: seq<NodeId>): set<NodeId>
    requires Buttoned(d, bs)
  {
    set b | b in bs :: Btn(d, b)
  }

  /** A node after expansion: as a block it gains `expanded`, as a button it
      becomes checked. */
  function Opened(nd: Node, asBlock: bool, asButton: bool): Node {
    nd.(classes := if asBlock then nd.classes + {Expanded} else nd.classes,
        hasClassAttr := asBlock || nd.hasClassAttr,
        checked := asButton || nd.checked)
  }

  lemma OpenedTwice(nd: Node, a1: bool, b1: bool, a2: bool, b2: bool)
    ensures Opened(Opened(nd, a1, b1), a2, b2) == Opened(nd, a1 || a2, b1 || b2)
  {
  }

  /** Two documents of the same shape that agree on the `collapse` and
      `disclosure-button` classes. */
  ghost predicate SameMarks(d: Doc, e: Doc) {
    && SameShape(d, e)
    && forall m | 0 <= m < |d.nodes| ::
         && HasClass(d, m, Collapse) == HasClass(e, m, Collapse)
         && HasClass(d, m, DisclosureButton) == HasClass(e, m, DisclosureButton)
  }

  lemma MarksButtons(d: Doc, e: Doc)
    requires SameMarks(d, e)
    ensures forall n | 0 <= n < |d.nodes| :: ButtonOf(e, n) == ButtonOf(d, n)
  {
    forall n | 0 <= n < |d.nodes| ensures ButtonOf(e, n) == ButtonOf(d, n) {
      ButtonFrame(d, e, n);
    }
  }

  lemma SameMarksFrame(d: Doc, e: Doc)
    requires WF(d) && SameMarks(d, e)
    ensures WF(e)
    ensures forall n | 0 <= n < |d.nodes| :: ButtonOf(e, n) == ButtonOf(d, n)
    ensures forall n | 0 <= n < |d.nodes| ::
              && Blocks(e, n) == Blocks(d, n) && Top(e, n) == Top(d, n)
              && ParentElement(e, n) == ParentElement(d, n)
  {
    SameShapeWF(d, e);
    forall n | 0 <= n < |d.nodes|
      ensures ButtonOf(e, n) == ButtonOf(d, n)
      ensures Blocks(e, n) == Blocks(d, n) && Top(e, n) == Top(d, n)
      ensures ParentElement(e, n) == ParentElement(d, n)
    {
      ButtonFrame(d, e, n);
      BlocksFrame(d, e, n);
      SameShapeChain(d, e, n);
    }
  }

  /** The body of one level of the recursion: `button.checked = true`, then
      `classList.toggle("expanded", button.checked)`. */
  function ExpandBlock(d: Doc, b: NodeId): (r: Doc)
    requires b < |d.nodes| && ButtonOf(d, b).Some?
    ensures SameMarks(d, r) && (WF(d) ==> WF(r))
    ensures forall m | 0 <= m < |d.nodes| :: r.nodes[m] == Opened(d.nodes[m], m == b, m == Btn(d, b))
  {
    var button := Btn(d, b);
    var d1 := SetChecked(d, button, true);
    ToggleClass(d1, b, Expanded, d1.nodes[button].checked)
  }

  /** Expanding the blocks of `bs` one after another. */
  function ExpandBlocks(d: Doc, bs: seq<NodeId>): (r: Doc)
    requires WF(d) && Buttoned(d, bs)
    ensures WF(r) && SameMarks(d, r)
    decreases |bs|
  {
    if bs == [] then d
    else
      assert bs[0] in bs;
      var d1 := ExpandBlock(d, bs[0]);
      MarksButtons(d, d1);
      assert forall b | b in bs[1..] :: b in bs;
      ExpandBlocks(d1, bs[1..])
  }

  /** Expansion touches exactly the blocks of `bs` (which gain `expanded`) and
      their buttons (which become checked); every other node is unchanged. */
  lemma {:induction false} ExpandBlocksEffect(d: Doc, bs: seq<NodeId>)
    requires WF(d) && Buttoned(d, bs)
    ensures var r := ExpandBlocks(d, bs);
            forall m | 0 <= m < |d.nodes| :: r.nodes[m] == Opened(d.nodes[m], m in bs, m in ButtonsOf(d, bs))
    decreases |bs|
  {
    if bs != [] {
      var b, rest := bs[0], bs[1..];
      assert b in bs && forall x | x in rest :: x in bs;
      var d1 := ExpandBlock(d, b);
      SameMarksFrame(d, d1);
      ExpandBlocksEffect(d1, rest);
      var r := ExpandBlocks(d, bs);
      assert r == ExpandBlocks(d1, rest);
      var bs1 := ButtonsOf(d1, rest);
      ButtonsOfFrame(d, d1, rest);
      ButtonsOfCons(d, bs);
      OpenedCons(d.nodes, d1.nodes, r.nodes, bs, Btn(d, b), bs1, ButtonsOf(d, bs));
    }
  }

  /** Opening the first block and then the rest opens them all. */
  lemma OpenedCons(d: seq<Node>, d1: seq<Node>, r: seq<Node>, bs: seq<NodeId>, b1: NodeId, bs1: set<NodeId>, all: set<NodeId>)
    requires bs != [] && |d1| == |d| && |r| == |d|
    requires all == {b1} + bs1
    requires forall m | 0 <= m < |d| :: d1[m] == Opened(d[m], m == bs[0], m == b1)
    requires forall m | 0 <= m < |d| :: r[m] == Opened(d1[m], m in bs[1..], m in bs1)
    ensures forall m | 0 <= m < |d| :: r[m] == Opened(d[m], m in bs, m in all)
  {
    forall m | 0 <= m < |d| ensures r[m] == Opened(d[m], m in bs, m in all) {
      assert m in bs <==> m == bs[0] || m in bs[1..];
      OpenedTwice(d[m], m == bs[0], m == b1, m in bs[1..], m in bs1);
    }
  }

  lemma ButtonsOfFrame(d: Doc, e: Doc, bs: seq<NodeId>)
    requires Buttoned(d, bs) && Buttoned(e, bs)
    requires forall b | b in bs :: ButtonOf(e, b) == ButtonOf(d, b)
    ensures ButtonsOf(e, bs) == ButtonsOf(d, bs)
  {
  }

  lemma ButtonsOfCons(d: Doc, bs: seq<NodeId>)
    requires Buttoned(d, bs) && bs != []
    ensures bs[0] in bs && ButtonsOf(d, bs) == {Btn(d, bs[0])} + ButtonsOf(d, bs[1..])
  {
    assert forall x | x in bs :: x == bs[0] || x in bs[1..];
  }

  /** The blocks the recursion reaches: the prefix of `bs` up to and
      including the last collapsed one, or nothing when none is collapsed. */
  function Reach(d: Doc, bs: seq<NodeId>): (r: seq<NodeId>)
    ensures |r| <= |bs| && r == bs[..|r|]
    ensures r == [] <==> forall b | b in bs :: !IsCollapsed(d, b)
    ensures r != [] ==> IsCollapsed(d, r[|r| - 1])
    ensures forall i | |r| <= i < |bs| :: !IsCollapsed(d, bs[i])
  {
    if bs == [] then []
    else
      var rest := Reach(d, bs[1..]);
      if rest == [] && !IsCollapsed(d, bs[0]) then [] else [bs[0]] + rest
  }

  lemma {:induction false} ReachFrame(d: Doc, e: Doc, bs: seq<NodeId>)
    requires forall b | b in bs :: IsCollapsed(d, b) == IsCollapsed(e, b)
    ensures Reach(d, bs) == Reach(e, bs)
  {
    if bs != [] {
      ReachFrame(d, e, bs[1..]);
    }
  }

  /** For each block of `bs`, whether its button was unchecked. */
  function Unchecked(d: Doc, bs: seq<NodeId>): (r: seq<bool>)
    requires Buttoned(d, bs)
    ensures |r| == |bs|
  {
    if bs == [] then []
    else
      assert bs[0] in bs;
      [!d.nodes[Btn(d, bs[0])].checked] + Unchecked(d, bs[1..])
  }

  lemma {:induction false} UncheckedAt(d: Doc, bs: seq<NodeId>, i: nat)
    requires Buttoned(d, bs) && i < |bs|
    ensures bs[i] in bs && Unchecked(d, bs)[i] == !d.nodes[Btn(d, bs[i])].checked
  {
    if i > 0 {
      assert forall b | b in bs[1..] :: b in bs;
      UncheckedAt(d, bs[1..], i - 1);
    }
  }

  lemma {:induction false} UncheckedFrame(d: Doc, e: Doc, bs: seq<NodeId>)
    requires Buttoned(d, bs) && Buttoned(e, bs)
    requires forall b | b in bs :: e.nodes[Btn(e, b)].checked == d.nodes[Btn(d, b)].checked
    ensures Unchecked(e, bs) == Unchecked(d, bs)
  {
    if bs != [] {
      assert bs[0] in bs && forall b | b in bs[1..] :: b in bs;
      UncheckedFrame(d, e, bs[1..]);
    }
  }

  /** The number of maximal runs of `true` in `f`: one for each `true`
      followed by a `false` or by the end. */
  function Runs(f: seq<bool>): nat {
    if f == [] then 0
    else (if f[0] && (|f| == 1 || !f[1]) then 1 else 0) + Runs(f[1..])
  }

  function Repeat(x: Event, n: nat): seq<Event> {
    if n == 0 then [] else Repeat(x, n - 1) + [x]
  }

  /** A node resolves to an element: itself, or its parent element. */
  predicate HasElement(d: Doc, n: NodeId)
    requires WF(d) && n < |d.nodes|
  {
    IsElement(d, n) || ParentElement(d, n).Some?
  }

  /** `node instanceof HTMLElement ? node : node.parentElement`. */
  function ElementOf(d: Doc, n: NodeId): (e: NodeId)
    requires WF(d) && n < |d.nodes| && HasElement(d, n)
    ensures IsElement(d, e)
    ensures IsElement(d, n) ==> e == n
    ensures !IsElement(d, n) ==> ParentElement(d, n) == Some(e)
  {
    if IsElement(d, n) then n else ParentElement(d, n).value
  }

  /** The reveal never calls `isWithinCollapsedBlock` on an expanded block
      with no parent element: the outermost element is not a block, or is a
      collapsed one. */
  predicate RevealDefined(d: Doc, e: NodeId)
    requires WF(d) && e < |d.nodes|
  {
    TopIsNotBlock(d, e) || IsCollapsed(d, Top(d, e))
  }

  /** The conditions under which the reveal of element `e` runs to the end:
      the walk is defined and every block it reaches owns a button. */
  ghost predicate RevealableElement(d: Doc, e: NodeId) {
    && WF(d) && e < |d.nodes| && RevealDefined(d, e)
    && Buttoned(d, Reach(d, Blocks(d, e)))
  }

  ghost predicate Revealable(d: Doc, n: NodeId) {
    && WF(d) && n < |d.nodes| && HasElement(d, n)
    && RevealableElement(d, ElementOf(d, n))
  }

  lemma RevealableOfElement(d: Doc, e: NodeId)
    requires RevealableElement(d, e) && IsElement(d, e)
    ensures Revealable(d, e) && ElementOf(d, e) == e
  {
  }

  lemma RevealDefinedWalk(d: Doc, e: NodeId)
    requires WF(d) && e < |d.nodes| && RevealDefined(d, e)
    ensures WalkDefined(d, e)
  {
    var c := Chain(d, e);
    assert Top(d, e) == c[|c| - 1] && Top(d, e) in c;
  }

  /** What the reveal of element `e` does: the document it leaves, the flag
      it returns and the number of notifications it fires. */
  function RevealDoc(d: Doc, e: NodeId): Doc
    requires RevealableElement(d, e)
  {
    ExpandBlocks(d, Reach(d, Blocks(d, e)))
  }

  function RevealFlag(d: Doc, e: NodeId): bool
    requires RevealableElement(d, e)
  {
    var reached := Reach(d, Blocks(d, e));
    reached != [] && Unchecked(d, reached)[0]
  }

  function RevealEvents(d: Doc, e: NodeId): nat
    requires RevealableElement(d, e)
  {
    Runs(Unchecked(d, Reach(d, Blocks(d, e))))
  }

  /** How many blocks at the start of `bs` own a disclosure button: a
      reveal that reaches a block without one throws there. */
  function ButtonedPrefix(d: Doc, bs: seq<NodeId>): (n: nat)
    ensures n <= |bs| && Buttoned(d, bs[..n])
    ensures n < |bs| ==> bs[n] >= |d.nodes| || ButtonOf(d, bs[n]).None?
    ensures n == |bs| <==> Buttoned(d, bs)
  {
    if bs == [] then 0
    else if bs[0] < |d.nodes| && ButtonOf(d, bs[0]).Some? then
      var k := ButtonedPrefix(d, bs[1..]);
      TakeSucc(bs, k);
      k + 1
    else
      assert bs[0] in bs;
      0
  }

  lemma TakeSucc(bs: seq<NodeId>, k: nat)
    requires bs != [] && k <= |bs| - 1
    ensures bs[..k + 1] == [bs[0]] + bs[1..][..k] && bs == [bs[0]] + bs[1..]
    ensures forall b | b in bs[1..] :: b in bs
  {
  }

  lemma {:induction false} ButtonedPrefixFrame(d: Doc, e: Doc, bs: seq<NodeId>)
    requires |e.nodes| == |d.nodes| && forall n | 0 <= n < |d.nodes| :: ButtonOf(e, n) == ButtonOf(d, n)
    ensures ButtonedPrefix(e, bs) == ButtonedPrefix(d, bs)
    ensures Buttoned(e, bs) <==> Buttoned(d, bs)
  {
    if bs != [] {
      ButtonedPrefixFrame(d, e, bs[1..]);
    }
  }

  /** The document a reveal of `e` leaves when it throws: the reached
      blocks before the first one without a button are expanded. */
  function PartialDoc(d: Doc, e: NodeId): Doc
    requires WF(d) && e < |d.nodes|
  {
    var reached := Reach(d, Blocks(d, e));
    ExpandBlocks(d, reached[..ButtonedPrefix(d, reached)])
  }

  /** The document a reveal of node `n` leaves when it throws. A node with
      no element to start from throws before changing anything. */
  function ThrownDoc(d: Doc, n: NodeId): Doc
    requires WF(d) && n < |d.nodes|
  {
    if HasElement(d, n) then PartialDoc(d, ElementOf(d, n)) else d
  }

  /** A reveal that runs to the end has expanded exactly what a reveal that
      throws would have expanded by the point it throws. */
  lemma PartialIsReveal(d: Doc, e: NodeId)
    requires RevealableElement(d, e)
    ensures PartialDoc(d, e) == RevealDoc(d, e)
  {
    var reached := Reach(d, Blocks(d, e));
    assert reached[..|reached|] == reached;
  }

  /** `isWithinCollapsedBlock` throws on `e`: the reveal cannot run to the
      end, and it throws before changing anything. */
  lemma WalkThrows(d: Doc, e: NodeId)
    requires WF(d) && e < |d.nodes| && !WalkDefined(d, e)
    ensures !RevealableElement(d, e) && PartialDoc(d, e) == d
  {
    if RevealDefined(d, e) {
      RevealDefinedWalk(d, e);
    }
    var reached := Reach(d, Blocks(d, e));
    assert reached == [];
    assert reached[..0] == [];
  }

  /** No block enclosing `e` is collapsed, and the walk is defined: the
      reveal runs to the end (and does nothing, by `RevealNothing`). */
  lemma NothingToReveal(d: Doc, e: NodeId)
    requires WF(d) && e < |d.nodes| && WalkDefined(d, e)
    requires forall b | b in Blocks(d, e) :: !IsCollapsed(d, b)
    ensures RevealableElement(d, e)
  {
    assert Reach(d, Blocks(d, e)) == [];
  }

  /** The nearest enclosing block has no button: the reveal throws there,
      before changing anything. */
  lemma NoButtonThrows(d: Doc, e: NodeId, c: NodeId)
    requires WF(d) && e < |d.nodes| && exists b | b in Blocks(d, e) :: IsCollapsed(d, b)
    requires Closest(d, e, Collapse) == Some(c) && c < |d.nodes| && ButtonOf(d, c).None?
    ensures !RevealableElement(d, e) && PartialDoc(d, e) == d
  {
    RevealStart(d, e);
    var reached := Reach(d, Blocks(d, e));
    assert reached[0] in reached;
    assert reached[..0] == [];
  }

  /** One level of the reveal, whether or not it runs to the end: after the
      nearest block `c` is expanded, the reveal of `e` runs to the end
      exactly when the reveal of `c`'s parent element does, and throws
      leaving the same document. Without a parent element it runs to the
      end. */
  lemma StepAny(d: Doc, e: NodeId, c: NodeId, d1: Doc)
    requires WF(d) && e < |d.nodes| && exists b | b in Blocks(d, e) :: IsCollapsed(d, b)
    requires Closest(d, e, Collapse) == Some(c) && c < |d.nodes| && ButtonOf(d, c).Some?
    requires d1 == ExpandBlock(d, c)
    ensures WF(d1) && ParentElement(d1, c) == ParentElement(d, c)
    ensures ParentElement(d, c).None? ==> RevealableElement(d, e)
    ensures ParentElement(d, c).Some? ==>
              var p := ParentElement(d, c).value;
              && p < |d1.nodes| && IsElement(d1, p)
              && (RevealableElement(d, e) <==> RevealableElement(d1, p))
              && PartialDoc(d, e) == PartialDoc(d1, p)
              && |Below(d1, d1.nodes[p].rank)| < |Below(d, d.nodes[e].rank)|
  {
    RevealStart(d, e);
    BlocksStep(d, e);
    SameShapeChain(d, d1, c);
    if ParentElement(d, c).None? {
      var reached := Reach(d, Blocks(d, e));
      assert reached == [c];
      assert Top(d, e) == c;
    } else {
      var p := ParentElement(d, c).value;
      assert StepUp(d, e, c, d1, p);
      StepUpPartial(d, e, c, d1, p);
      StepUpBelow(d, e, d1, p);
    }
  }

  lemma StepUpPartial(d: Doc, e: NodeId, c: NodeId, d1: Doc, p: NodeId)
    requires StepUp(d, e, c, d1, p)
    ensures WF(d1) && p < |d1.nodes|
    ensures RevealableElement(d, e) <==> RevealableElement(d1, p)
    ensures PartialDoc(d, e) == PartialDoc(d1, p)
  {
    StepUpDefined(d, e, c, d1, p);
    StepUpReach(d, e, c, d1, p);
    var r1 := Reach(d1, Blocks(d1, p));
    PartialCons(d, c, r1);
  }

  /** Expanding a buttoned first block and then the buttoned prefix of the
      rest is expanding the buttoned prefix of the whole list. */
  lemma PartialCons(d: Doc, c: NodeId, r1: seq<NodeId>)
    requires WF(d) && c < |d.nodes| && ButtonOf(d, c).Some?
    ensures var d1, j := ExpandBlock(d, c), ButtonedPrefix(ExpandBlock(d, c), r1);
            && WF(d1) && ButtonedPrefix(d, [c] + r1) == j + 1
            && (Buttoned(d, [c] + r1) <==> Buttoned(d1, r1))
            && ExpandBlocks(d, ([c] + r1)[..j + 1]) == ExpandBlocks(d1, r1[..j])
  {
    var d1 := ExpandBlock(d, c);
    MarksButtons(d, d1);
    PrefixCons(d, d1, c, r1);
    var j := ButtonedPrefix(d1, r1);
    ConsTake(c, r1, j);
    StepUpExpand(d, c, r1[..j]);
  }

  lemma ConsTake(x: NodeId, s: seq<NodeId>, j: nat)
    requires j <= |s|
    ensures ([x] + s)[..j + 1] == [x] + s[..j]
  {
  }

  /** A buttoned first block extends the buttoned prefix of the rest by one,
      in any document with the same buttons. */
  lemma PrefixCons(d: Doc, d1: Doc, c: NodeId, r1: seq<NodeId>)
    requires c < |d.nodes| && ButtonOf(d, c).Some? && |d1.nodes| == |d.nodes|
    requires forall n | 0 <= n < |d.nodes| :: ButtonOf(d1, n) == ButtonOf(d, n)
    ensures ButtonedPrefix(d, [c] + r1) == ButtonedPrefix(d1, r1) + 1
    ensures Buttoned(d, [c] + r1) <==> Buttoned(d1, r1)
  {
    ButtonedPrefixFrame(d, d1, r1);
    assert ([c] + r1)[1..] == r1;
  }

  /** Expanding block `c` leaves its ancestors alone (they rank below it) and
      the buttons of other blocks unchecked or checked as they were. */
  lemma ExpandLeavesOthers(d: Doc, c: NodeId, p: NodeId, d1: Doc)
    requires WF(d) && c < |d.nodes| && ButtonOf(d, c).Some? && d1 == ExpandBlock(d, c)
    requires ParentElement(d, c) == Some(p)
    ensures forall b | b in Chain(d, p) :: b < |d.nodes| && b != c && d1.nodes[b] == d.nodes[b]
    ensures forall b | 0 <= b < |d.nodes| && b != c && ButtonOf(d, b).Some? ::
              d1.nodes[Btn(d, b)].checked == d.nodes[Btn(d, b)].checked
  {
    var button := Btn(d, c);
    assert NodeOk(d, c) && NodeOk(d, button);
    forall b | b in Chain(d, p) ensures b < |d.nodes| && b != c && d1.nodes[b] == d.nodes[b] {
      ChainRanks(d, p, IndexOf(Chain(d, p), b));
    }
    forall b | 0 <= b < |d.nodes| && b != c && ButtonOf(d, b).Some?
      ensures d1.nodes[Btn(d, b)].checked == d.nodes[Btn(d, b)].checked
    {
      ButtonsDistinct(d, b, c);
    }
  }

  /** One level of the recursion, on values: the nearest block `c` is
      expanded into `d1`, and the rest of the reveal is the reveal of `c`'s
      parent element in `d1`. */
  lemma RevealStep(d: Doc, e: NodeId, c: NodeId, d1: Doc)
    requires RevealableElement(d, e) && Reach(d, Blocks(d, e)) != []
    requires Closest(d, e, Collapse) == Some(c) && c < |d.nodes| && ButtonOf(d, c).Some?
    requires d1 == ExpandBlock(d, c)
    ensures WF(d1) && ParentElement(d1, c) == ParentElement(d, c)
    ensures RevealFlag(d, e) == !d.nodes[Btn(d, c)].checked
    ensures ParentElement(d, c).None? ==>
              && RevealDoc(d, e) == d1
              && RevealEvents(d, e) == (if RevealFlag(d, e) then 1 else 0)
    ensures ParentElement(d, c).Some? ==>
              var p := ParentElement(d, c).value;
              && RevealableElement(d1, p)
              && RevealDoc(d, e) == RevealDoc(d1, p)
              && RevealEvents(d, e) ==
                   RevealEvents(d1, p) + (if RevealFlag(d, e) && !RevealFlag(d1, p) then 1 else 0)
              && |Below(d1, d1.nodes[p].rank)| < |Below(d, d.nodes[e].rank)|
  {
    BlocksStep(d, e);
    SameShapeChain(d, d1, c);
    if ParentElement(d, c).None? {
      RevealStepTop(d, e, c, d1);
    } else {
      var p := ParentElement(d, c).value;
      assert StepUp(d, e, c, d1, p);
      RevealStepUp(d, e, c, d1, p);
    }
  }

  /** The step at a block with no parent element: it is the only block. */
  lemma RevealStepTop(d: Doc, e: NodeId, c: NodeId, d1: Doc)
    requires RevealableElement(d, e) && Blocks(d, e) == [c] && Reach(d, [c]) != []
    requires c < |d.nodes| && ButtonOf(d, c).Some? && d1 == ExpandBlock(d, c)
    ensures RevealFlag(d, e) == !d.nodes[Btn(d, c)].checked
    ensures RevealDoc(d, e) == d1
    ensures RevealEvents(d, e) == (if RevealFlag(d, e) then 1 else 0)
  {
    assert Reach(d, [c]) == [c];
    assert [c][1..] == [];
    assert ExpandBlocks(d1, []) == d1;
    assert ExpandBlocks(d, [c]) == ExpandBlocks(d1, []);
    assert Unchecked(d, [c]) == [!d.nodes[Btn(d, c)].checked];
    RunsCons(!d.nodes[Btn(d, c)].checked, []);
  }

  /** The hypotheses shared by the lemmas about one step of the reveal
      whose nearest block `c` has parent element `p`. */
  ghost predicate StepUp(d: Doc, e: NodeId, c: NodeId, d1: Doc, p: NodeId) {
    && WF(d) && e < |d.nodes| && Reach(d, Blocks(d, e)) != []
    && c < |d.nodes| && ButtonOf(d, c).Some? && d1 == ExpandBlock(d, c)
    && d.nodes[c].rank <= d.nodes[e].rank
    && ParentElement(d, c) == Some(p)
    && Blocks(d, e) == [c] + Blocks(d, p) && Top(d, p) == Top(d, e)
  }

  lemma StepUpDefined(d: Doc, e: NodeId, c: NodeId, d1: Doc, p: NodeId)
    requires WF(d) && e < |d.nodes| && c < |d.nodes| && ButtonOf(d, c).Some? && d1 == ExpandBlock(d, c)
    requires ParentElement(d, c) == Some(p) && Top(d, p) == Top(d, e)
    ensures WF(d1) && p < |d1.nodes| && (RevealDefined(d1, p) <==> RevealDefined(d, e))
  {
    SameShapeChain(d, d1, p);
    ExpandLeavesOthers(d, c, p, d1);
    var ch := Chain(d, p);
    var t := ch[|ch| - 1];
    assert Top(d, p) == t && t in ch;
    assert Top(d1, p) == t;
    assert d1.nodes[t] == d.nodes[t];
  }

  lemma StepUpReach(d: Doc, e: NodeId, c: NodeId, d1: Doc, p: NodeId)
    requires StepUp(d, e, c, d1, p)
    ensures WF(d1) && p < |d1.nodes|
    ensures Reach(d, Blocks(d, e)) == [c] + Reach(d1, Blocks(d1, p))
    ensures forall b | b in Reach(d1, Blocks(d1, p)) :: b in Chain(d, p)
  {
    SameMarksFrame(d, d1);
    ExpandLeavesOthers(d, c, p, d1);
    var bs, rest := Blocks(d, e), Blocks(d, p);
    assert bs[1..] == rest;
    assert forall b | b in rest :: b in Chain(d, p);
    ReachFrame(d, d1, rest);
  }

  lemma StepUpButtons(d: Doc, c: NodeId, d1: Doc, p: NodeId, r1: seq<NodeId>)
    requires WF(d) && c < |d.nodes| && ButtonOf(d, c).Some? && d1 == ExpandBlock(d, c)
    requires ParentElement(d, c) == Some(p)
    requires Buttoned(d, [c] + r1) && forall b | b in r1 :: b in Chain(d, p)
    ensures Buttoned(d, r1) && Buttoned(d1, r1)
    ensures Unchecked(d1, r1) == Unchecked(d, r1)
  {
    MarksButtons(d, d1);
    ExpandLeavesOthers(d, c, p, d1);
    forall b | b in r1
      ensures b < |d.nodes| && ButtonOf(d, b).Some? && ButtonOf(d1, b) == ButtonOf(d, b)
      ensures d1.nodes[Btn(d1, b)].checked == d.nodes[Btn(d, b)].checked
    {
      assert b in [c] + r1;
    }
    UncheckedFrame(d, d1, r1);
  }

  lemma StepUpExpand(d: Doc, c: NodeId, r1: seq<NodeId>)
    requires WF(d) && Buttoned(d, [c] + r1)
    ensures c < |d.nodes| && ButtonOf(d, c).Some? && Buttoned(d, r1)
    ensures var d1 := ExpandBlock(d, c);
            WF(d1) && Buttoned(d1, r1) && ExpandBlocks(d, [c] + r1) == ExpandBlocks(d1, r1)
    ensures Unchecked(d, [c] + r1) == [!d.nodes[Btn(d, c)].checked] + Unchecked(d, r1)
  {
    assert c in [c] + r1 && forall b | b in r1 :: b in [c] + r1;
    assert ([c] + r1)[1..] == r1;
    SameMarksFrame(d, ExpandBlock(d, c));
  }

  lemma StepUpBelow(d: Doc, e: NodeId, d1: Doc, p: NodeId)
    requires SameShape(d, d1) && p < |d.nodes| && e < |d.nodes|
    requires d.nodes[p].rank < d.nodes[e].rank
    ensures p < |d1.nodes| && |Below(d1, d1.nodes[p].rank)| < |Below(d, d.nodes[e].rank)|
  {
    var r := d.nodes[p].rank;
    assert forall m :: m in Below(d1, r) <==> m in Below(d, r);
    assert Below(d1, r) == Below(d, r);
    BelowShrinks(d, p, e);
  }

  lemma RunsCons(x: bool, u: seq<bool>)
    ensures Runs([x] + u) == (if x && (u == [] || !u[0]) then 1 else 0) + Runs(u)
  {
    assert ([x] + u)[1..] == u;
  }

  lemma RevealStepUp(d: Doc, e: NodeId, c: NodeId, d1: Doc, p: NodeId)
    requires StepUp(d, e, c, d1, p) && RevealableElement(d, e)
    ensures RevealableElement(d1, p)
    ensures RevealFlag(d, e) == !d.nodes[Btn(d, c)].checked
    ensures RevealDoc(d, e) == RevealDoc(d1, p)
    ensures RevealEvents(d, e) ==
              RevealEvents(d1, p) + (if RevealFlag(d, e) && !RevealFlag(d1, p) then 1 else 0)
    ensures |Below(d1, d1.nodes[p].rank)| < |Below(d, d.nodes[e].rank)|
  {
    StepUpDefined(d, e, c, d1, p);
    StepUpReach(d, e, c, d1, p);
    var r1 := Reach(d1, Blocks(d1, p));
    StepUpButtons(d, c, d1, p, r1);
    StepUpExpand(d, c, r1);
    RunsCons(!d.nodes[Btn(d, c)].checked, Unchecked(d, r1));
    StepUpBelow(d, e, d1, p);
  }

  /** Nothing enclosing `e` is collapsed: the reveal changes nothing, fires
      nothing and reports no expansion. */
  lemma RevealNothing(d: Doc, e: NodeId)
    requires RevealableElement(d, e)
    requires forall b | b in Blocks(d, e) :: !IsCollapsed(d, b)
    ensures !RevealFlag(d, e) && RevealDoc(d, e) == d && RevealEvents(d, e) == 0
  {
    assert Reach(d, Blocks(d, e)) == [];
  }

  /** Some block enclosing `e` is collapsed: the reveal starts at the nearest
      enclosing block, the first one it reaches, which owns a button when
      the reveal runs to the end. */
  lemma RevealStart(d: Doc, e: NodeId)
    requires WF(d) && e < |d.nodes|
    requires exists b | b in Blocks(d, e) :: IsCollapsed(d, b)
    ensures Closest(d, e, Collapse).Some?
    ensures var c := Closest(d, e, Collapse).value;
            && c < |d.nodes| && (RevealableElement(d, e) ==> ButtonOf(d, c).Some?)
            && Reach(d, Blocks(d, e)) != [] && Reach(d, Blocks(d, e))[0] == c
            && d.nodes[c].rank <= d.nodes[e].rank
  {
    BlocksStep(d, e);
    var reached := Reach(d, Blocks(d, e));
    assert reached[0] in reached;
  }

  lemma RepeatZero(s: seq<Event>)
    ensures s + Repeat(RevealEvent, 0) == s
  {
  }

  lemma EventsAfter(s0: seq<Event>, s1: seq<Event>, s2: seq<Event>, above: nat, fire: bool, total: nat)
    requires s1 == s0 + Repeat(RevealEvent, above)
    requires s2 == if fire then s1 + [RevealEvent] else s1
    requires total == above + (if fire then 1 else 0)
    ensures s2 == s0 + Repeat(RevealEvent, total)
  {
    if fire {
      assert Repeat(RevealEvent, total) == Repeat(RevealEvent, above) + [RevealEvent];
    }
  }

  /** One step of the reveal: expanding the nearest enclosing block `c`
      accounts for the first reached block; the rest of the reveal is the
      reveal from `c`'s parent element in the new document. */
  lemma NearestStep(d: Doc, e: NodeId, c: NodeId, d1: Doc, flag: bool)
    requires RevealableElement(d, e) && exists b | b in Blocks(d, e) :: IsCollapsed(d, b)
    requires Closest(d, e, Collapse) == Some(c)
    requires c < |d.nodes| && ButtonOf(d, c).Some? && d1 == ExpandBlock(d, c)
    requires flag == !d.nodes[ButtonOf(d, c).value].checked
    ensures WF(d1) && c < |d1.nodes|
    ensures RevealFlag(d, e) == flag
    ensures var parent := ParentElement(d1, c);
            && (parent.None? ==> RevealDoc(d, e) == d1 && RevealEvents(d, e) == (if flag then 1 else 0))
            && (parent.Some? ==>
                  && Revealable(d1, parent.value) && ElementOf(d1, parent.value) == parent.value
                  && RevealDoc(d, e) == RevealDoc(d1, parent.value)
                  && RevealEvents(d, e) == RevealEvents(d1, parent.value)
                       + (if flag && !RevealFlag(d1, parent.value) then 1 else 0)
                  && |Below(d1, d1.nodes[parent.value].rank)| < |Below(d, d.nodes[e].rank)|)
  {
    RevealStart(d, e);
    RevealStep(d, e, c, d1);
    var parent := ParentElement(d1, c);
    if parent.Some? {
      RevealableOfElement(d1, parent.value);
    }
  }

  /** What the recursive call needs: the parent element of the nearest
      block `c` ranks below `e`, so the recursion terminates. */
  lemma StepBelow(d: Doc, e: NodeId, c: NodeId, d1: Doc)
    requires WF(d) && e < |d.nodes| && exists b | b in Blocks(d, e) :: IsCollapsed(d, b)
    requires Closest(d, e, Collapse) == Some(c) && c < |d.nodes| && ButtonOf(d, c).Some?
    requires d1 == ExpandBlock(d, c)
    ensures WF(d1) && ParentElement(d1, c) == ParentElement(d, c)
    ensures ParentElement(d, c).Some? ==>
              var p := ParentElement(d, c).value;
              p < |d1.nodes| && |Below(d1, d1.nodes[p].rank)| < |Below(d, d.nodes[e].rank)|
  {
    StepAny(d, e, c, d1);
  }

  /** One level of the reveal, from what the recursive call on the parent
      element returned to what the reveal of `e` returns: it runs to the end
      exactly when the recursion does, a throw in the recursion leaves the
      partial document of `e`, and otherwise this level reports its own
      expansion and adds one notification when the recursion reported none. */
  lemma AfterUp(d: Doc, e: NodeId, c: NodeId, d1: Doc, flag: bool, parent: Option<NodeId>,
                up: Option<bool>, upOk: bool, d2: Doc)
    requires WF(d) && e < |d.nodes| && exists b | b in Blocks(d, e) :: IsCollapsed(d, b)
    requires Closest(d, e, Collapse) == Some(c) && c < |d.nodes| && ButtonOf(d, c).Some?
    requires d1 == ExpandBlock(d, c) && flag == !d.nodes[Btn(d, c)].checked
    requires parent == ParentElement(d1, c)
    requires parent.None? ==> upOk && up.None? && d2 == d1
    requires parent.Some? ==>
               && WF(d1) && parent.value < |d1.nodes|
               && upOk == Revealable(d1, parent.value)
               && (upOk ==>
                     && up == Some(RevealFlag(d1, ElementOf(d1, parent.value)))
                     && d2 == RevealDoc(d1, ElementOf(d1, parent.value)))
               && (!upOk ==> d2 == ThrownDoc(d1, parent.value))
    ensures upOk == RevealableElement(d, e)
    ensures !upOk ==> d2 == PartialDoc(d, e)
    ensures upOk ==>
              && RevealFlag(d, e) == flag && d2 == RevealDoc(d, e)
              && RevealEvents(d, e)
                 == (if parent.Some? then RevealEvents(d1, ElementOf(d1, parent.value)) else 0)
                    + (if up != Some(true) && flag then 1 else 0)
  {
    StepAny(d, e, c, d1);
    if parent.Some? {
      assert ElementOf(d1, parent.value) == parent.value;
    }
    if upOk {
      NearestStep(d, e, c, d1, flag);
    }
  }

  /** `expandCollapseBlocksToReveal(node)`. `None` stands for a null node,
      for which the JS returns `undefined`. `ok` is false when the JS
      throws: the node has no element to start from, `isWithinCollapsedBlock`
      throws, or a reached block has no disclosure button. A throw fires
      nothing, because every notification is fired after the recursive call
      returns, and it leaves the blocks expanded so far expanded. The body
      past the early returns is `ExpandFromNearestBlock`. */
  method ExpandCollapseBlocksToReveal(page: Page, node: Option<NodeId>) returns (r: Option<bool>, ok: bool)
    requires page.Valid() && (node.Some? ==> node.value < |page.doc.nodes|)
    modifies page
    ensures page.Valid()
    ensures node.None? ==> ok && r.None? && page.doc == old(page.doc) && page.events == old(page.events)
    ensures node.Some? ==> ok == Revealable(old(page.doc), node.value)
    ensures node.Some? && ok ==>
              var e := ElementOf(old(page.doc), node.value);
              && r == Some(RevealFlag(old(page.doc), e))
              && page.doc == RevealDoc(old(page.doc), e)
              && page.events == old(page.events) + Repeat(RevealEvent, RevealEvents(old(page.doc), e))
    ensures node.Some? && !ok ==>
              page.doc == ThrownDoc(old(page.doc), node.value) && page.events == old(page.events)
    decreases if node.Some? && node.value < |page.doc.nodes| then |Below(page.doc, page.doc.nodes[node.value].rank)| + 1 else 0, 2
  {
    if node.None? {
      return None, true;
    }
    var n := node.value;
    var element := if IsElement(page.doc, n) then Some(n) else ParentElement(page.doc, n);
    var within := IsWithinCollapsedBlock(page.doc, element);
    if within.None? {
      if element.Some? {
        WalkThrows(page.doc, element.value);
      }
      return None, false;
    }
    var e := element.value;
    if !within.value {
      NothingToReveal(page.doc, e);
      RevealNothing(page.doc, e);
      return Some(false), true;
    }
    if n != e {
      BelowShrinks(page.doc, e, n);
    }
    r, ok := ExpandFromNearestBlock(page, e);
  }

  /** Check block `c`'s disclosure button and set `expanded` to the
      button's new state; report whether the button was unchecked. */
  method CheckButton(d: Doc, c: NodeId) returns (r: Doc, expansionOccurred: bool)
    requires c < |d.nodes| && ButtonOf(d, c).Some?
    ensures expansionOccurred == !d.nodes[Btn(d, c)].checked
    ensures r == ExpandBlock(d, c)
    ensures !IsCollapsed(r, c) && r.nodes[Btn(d, c)].checked
  {
    var button := ButtonOf(d, c).value;
    expansionOccurred := !d.nodes[button].checked;
    var checked := SetChecked(d, button, true);
    r := ToggleClass(checked, c, Expanded, checked.nodes[button].checked);
  }

  /** The rest of `expandCollapseBlocksToReveal` once `element` is known to
      lie within a collapsed block: find the nearest block and its
      disclosure button, throwing when there is none; `ExpandAt` does the
      rest. */
  method ExpandFromNearestBlock(page: Page, e: NodeId) returns (r: Option<bool>, ok: bool)
    requires page.Valid() && e < |page.doc.nodes|
    requires exists b | b in Blocks(page.doc, e) :: IsCollapsed(page.doc, b)
    modifies page
    ensures page.Valid()
    ensures ok == RevealableElement(old(page.doc), e)
    ensures ok ==>
              && r == Some(RevealFlag(old(page.doc), e))
              && page.doc == RevealDoc(old(page.doc), e)
              && page.events == old(page.events) + Repeat(RevealEvent, RevealEvents(old(page.doc), e))
    ensures !ok ==> page.doc == PartialDoc(old(page.doc), e) && page.events == old(page.events)
    decreases |Below(page.doc, page.doc.nodes[e].rank)| + 1, 1
  {
    RevealStart(page.doc, e);
    var c := Closest(page.doc, e, Collapse).value;
    if ButtonOf(page.doc, c).None? {
      NoButtonThrows(page.doc, e, c);
      return None, false;
    }
    r, ok := ExpandAt(page, e, c);
  }

  /** Expand the nearest block `c`, recurse on its parent element, and fire
      the notification only if the recursion did not report an expansion of
      its own. A throw in the recursion propagates. */
  method ExpandAt(page: Page, e: NodeId, c: NodeId) returns (r: Option<bool>, ok: bool)
    requires page.Valid() && e < |page.doc.nodes|
    requires exists b | b in Blocks(page.doc, e) :: IsCollapsed(page.doc, b)
    requires Closest(page.doc, e, Collapse) == Some(c) && c < |page.doc.nodes| && ButtonOf(page.doc, c).Some?
    modifies page
    ensures page.Valid()
    ensures ok == RevealableElement(old(page.doc), e)
    ensures ok ==>
              && r == Some(RevealFlag(old(page.doc), e))
              && page.doc == RevealDoc(old(page.doc), e)
              && page.events == old(page.events) + Repeat(RevealEvent, RevealEvents(old(page.doc), e))
    ensures !ok ==> page.doc == PartialDoc(old(page.doc), e) && page.events == old(page.events)
    decreases |Below(page.doc, page.doc.nodes[e].rank)| + 1, 0
  {
    ghost var d := page.doc;
    var expansionOccurred;
    page.doc, expansionOccurred := CheckButton(page.doc, c);
    ghost var d1, events1 := page.doc, page.events;
    var parent := ParentElement(page.doc, c);
    StepBelow(d, e, c, d1);
    var up, upOk := ExpandCollapseBlocksToReveal(page, parent);
    AfterUp(d, e, c, d1, expansionOccurred, parent, up, upOk, page.doc);
    if !upOk {
      return None, false;
    }
    ghost var above := if parent.Some? then RevealEvents(d1, ElementOf(d1, parent.value)) else 0;
    ghost var events2 := page.events;
    if parent.None? {
      RepeatZero(events1);
    }
    assert events2 == events1 + Repeat(RevealEvent, above);
    if up != Some(true) && expansionOccurred {
      Fire(page, RevealEvent);
    }
    EventsAfter(events1, events2, page.events, above, up != Some(true) && expansionOccurred, RevealEvents(d, e));
    r, ok := Some(expansionOccurred), true;
  }

  /** `revealElement(element)`: the reveal, reporting its flag; the scroll
      into view is not modelled. A throw in the reveal propagates. */
  method RevealElement(page: Page, element: Option<NodeId>) returns (didExpand: Option<bool>, ok: bool)
    requires page.Valid() && (element.Some? ==> element.value < |page.doc.nodes|)
    modifies page
    ensures page.Valid()
    ensures element.None? ==> ok && didExpand.None? && page.doc == old(page.doc) && page.events == old(page.events)
    ensures element.Some? ==> ok == Revealable(old(page.doc), element.value)
    ensures element.Some? && ok ==>
              var e := ElementOf(old(page.doc), element.value);
              && didExpand == Some(RevealFlag(old(page.doc), e))
              && page.doc == RevealDoc(old(page.doc), e)
              && page.events == old(page.events) + Repeat(RevealEvent, RevealEvents(old(page.doc), e))
    ensures element.Some? && !ok ==>
              page.doc == ThrownDoc(old(page.doc), element.value) && page.events == old(page.events)
  {
    didExpand, ok := ExpandCollapseBlocksToReveal(page, element);
  }

  /** `getHashTargetedElement()`: `lookup` is what the document yields for
      the selector built from the hash; a hash of at most one character
      (empty, or just "#") targets nothing. */
  function GetHashTargetedElement(hash: string, lookup: Option<NodeId>): (r: Option<NodeId>)
    ensures |hash| <= 1 ==> r.None?
    ensures |hash| > 1 ==> r == lookup
  {
    if |hash| > 1 then lookup else None
  }

  /** `revealTarget()`: nothing happens without a target; otherwise the
      target is revealed and `Collapse.targetDidReveal` fires exactly when a
      block had to be expanded. `ok` is false when the reveal throws, which
      fires nothing. */
  method RevealTarget(page: Page, hash: string, lookup: Option<NodeId>) returns (ok: bool)
    requires page.Valid()
    requires GetHashTargetedElement(hash, lookup).Some? ==> lookup.value < |page.doc.nodes|
    modifies page
    ensures page.Valid()
    ensures GetHashTargetedElement(hash, lookup).None? ==>
              ok && page.doc == old(page.doc) && page.events == old(page.events)
    ensures GetHashTargetedElement(hash, lookup).Some? ==> ok == Revealable(old(page.doc), lookup.value)
    ensures GetHashTargetedElement(hash, lookup).Some? && ok ==>
              var e := ElementOf(old(page.doc), lookup.value);
              var flag := RevealFlag(old(page.doc), e);
              && page.doc == RevealDoc(old(page.doc), e)
              && page.events == old(page.events) + Repeat(RevealEvent, RevealEvents(old(page.doc), e))
                                  + (if flag then [TargetDidReveal] else [])
    ensures GetHashTargetedElement(hash, lookup).Some? && !ok ==>
              page.doc == ThrownDoc(old(page.doc), lookup.value) && page.events == old(page.events)
  {
    var target := GetHashTargetedElement(hash, lookup);
    if target.None? {
      return true;
    }
    var didReveal;
    didReveal, ok := RevealElement(page, target);
    if ok && didReveal == Some(true) {
      Fire(page, TargetDidReveal);
    }
  }
}
