/**
  `expandAllAncestorsOfNode` in js/rewrite.js, the older way of opening
  the collapse blocks around a find-in-page hit: every `.collapse` element
  on the way up from the node gets its direct-child disclosure button
  checked, innermost first. Unlike the newer reveal it never looks at
  whether a block is collapsed and never touches the `expanded` class;
  setting `checked` from script fires no change event. A block whose
  button the query does not find ends the walk with a throw, and the
  buttons checked before it stay checked.
*/
module RewriteAncestors {
  import opened Dom
  import opened DomEdit
  import opened CollapseState
  import opened CollapseReveal

  predicate IsDigit(ch: char) {
    '0' <= ch <= '9'
  }

  /** A character that may appear unescaped in a CSS identifier. */
  predicate IdentChar(ch: char) {
    || 'a' <= ch <= 'z' || 'A' <= ch <= 'Z' || IsDigit(ch)
    || ch == '-' || ch == '_' || ch >= '\U{80}'
  }

  /** `"#" + id` parses as an ID selector: a non-empty CSS identifier that
      does not start with a digit, nor with a hyphen followed by a digit,
      and is not a lone hyphen. */
  predicate IdSelectable(id: string) {
    && |id| > 0
    && !IsDigit(id[0])
    && !(id[0] == '-' && (|id| == 1 || IsDigit(id[1])))
    && forall i | 0 <= i < |id| :: IdentChar(id[i])
  }

  /** `block.querySelector("#" + block.id + " > .disclosure-button")`: the
      block's first child carrying `disclosure-button`. `None` when the JS
      throws: the selector does not parse, or it matches nothing and
      `.checked` is set on null. */
  function FoundButton(d: Doc, k: NodeId): (r: Option<NodeId>)
    requires k < |d.nodes|
    ensures r.Some? <==> IdSelectable(d.nodes[k].id) && ButtonOf(d, k).Some?
    ensures r.Some? ==> r == ButtonOf(d, k)
  {
    if IdSelectable(d.nodes[k].id) then ButtonOf(d, k) else None
  }

  /** The document after a call and whether the call returned rather than
      threw. */
  datatype Outcome = Outcome(doc: Doc, ok: bool)

  /** `expandAllAncestorsOfNode(node)`, `None` standing for a null or
      undefined node. It throws on a null node, on a node with no element to
      start from, on a block whose button is not found, and when it recurses
      from a block without a parent element. Only `checked` states change,
      and only from false to true. */
  function AncestorsFrom(d: Doc, node: Option<NodeId>): (o: Outcome)
    requires WF(d) && (node.Some? ==> node.value < |d.nodes|)
    ensures WF(o.doc) && |o.doc.nodes| == |d.nodes|
    decreases if node.Some? && node.value < |d.nodes| then |Below(d, d.nodes[node.value].rank)| + 1 else 0
  {
    match node
    case None => Outcome(d, false)
    case Some(n) =>
      if !HasElement(d, n) then Outcome(d, false)
      else
        var e := ElementOf(d, n);
        match Closest(d, e, Collapse)
        case None => Outcome(d, true)
        case Some(k) =>
          BlocksStep(d, e);
          match FoundButton(d, k)
          case None => Outcome(d, false)
          case Some(b) =>
            var d1 := SetChecked(d, b, true);
            var parent := ParentElement(d1, k);
            SameShapeChain(d, d1, k);
            match parent
            case None => Outcome(d1, false)
            case Some(p) =>
              StepUpBelow(d, n, d1, p);
              AncestorsFrom(d1, parent)
  }

  /** Checking a button leaves the enclosing blocks, the top element and
      every block's button as they were. */
  lemma CheckFrame(d: Doc, b: NodeId)
    requires WF(d) && b < |d.nodes|
    ensures var d1 := SetChecked(d, b, true);
            && WF(d1) && SameMarks(d, d1)
            && forall m | 0 <= m < |d.nodes| :: FoundButton(d1, m) == FoundButton(d, m)
  {
    var d1 := SetChecked(d, b, true);
    assert SameMarks(d, d1) by {
      forall m | 0 <= m < |d.nodes|
        ensures HasClass(d, m, Collapse) == HasClass(d1, m, Collapse)
        ensures HasClass(d, m, DisclosureButton) == HasClass(d1, m, DisclosureButton)
      {
        assert d1.nodes[m].classes == d.nodes[m].classes;
      }
    }
    MarksButtons(d, d1);
    forall m | 0 <= m < |d.nodes| ensures FoundButton(d1, m) == FoundButton(d, m) {
      assert d1.nodes[m].id == d.nodes[m].id;
    }
  }

  /** The walk from an element returns normally exactly when every
      enclosing block's button is found and the outermost element is not
      itself a block (otherwise the recursion reaches a null
      `parentElement`). */
  lemma {:induction false} AncestorsOk(d: Doc, e: NodeId)
    requires WF(d) && e < |d.nodes| && IsElement(d, e)
    ensures AncestorsFrom(d, Some(e)).ok <==>
              (forall b | b in Blocks(d, e) :: FoundButton(d, b).Some?) && TopIsNotBlock(d, e)
    decreases |Below(d, d.nodes[e].rank)|
  {
    var o := AncestorsFrom(d, Some(e));
    assert ElementOf(d, e) == e;
    var ch := Chain(d, e);
    match Closest(d, e, Collapse)
    case None =>
      assert Blocks(d, e) == [];
      assert ch[|ch| - 1] in ch;
    case Some(k) =>
      BlocksStep(d, e);
      assert Blocks(d, e)[0] == k;
      match FoundButton(d, k)
      case None =>
      case Some(b) =>
        var d1 := SetChecked(d, b, true);
        SameShapeChain(d, d1, k);
        var parent := ParentElement(d1, k);
        if parent.Some? {
          var p := parent.value;
          StepUpBelow(d, e, d1, p);
          AncestorsOk(d1, p);
          assert o == AncestorsFrom(d1, Some(p));
          AncestorsOkUp(d, e, k, b, p, o.ok);
        }
  }

  /** `AncestorsOk` one level up: from the verdict of the walk from the
      parent element `p` of the nearest block `k`, once `k`'s button `b` is
      checked. */
  lemma AncestorsOkUp(d: Doc, e: NodeId, k: NodeId, b: NodeId, p: NodeId, ok: bool)
    requires WF(d) && e < |d.nodes| && Closest(d, e, Collapse) == Some(k)
    requires k < |d.nodes| && b < |d.nodes| && FoundButton(d, k) == Some(b) && ParentElement(d, k) == Some(p)
    requires var d1 := SetChecked(d, b, true);
             ok <==> (forall c | c in Blocks(d1, p) :: FoundButton(d1, c).Some?) && TopIsNotBlock(d1, p)
    ensures ok <==> (forall c | c in Blocks(d, e) :: FoundButton(d, c).Some?) && TopIsNotBlock(d, e)
  {
    var d1 := SetChecked(d, b, true);
    BlocksStep(d, e);
    CheckedFrame(d, b, p);
    AncestorsOkStep(d, e, k, d1, p, ok);
  }

  /** Checking a button keeps what the walk above an element reads: the
      blocks, the top element, every class mark and every found button. */
  lemma CheckedFrame(d: Doc, b: NodeId, p: NodeId)
    requires WF(d) && b < |d.nodes| && p < |d.nodes|
    ensures var d1 := SetChecked(d, b, true);
            && WF(d1) && |d1.nodes| == |d.nodes|
            && (forall m | 0 <= m < |d.nodes| ::
                  FoundButton(d1, m) == FoundButton(d, m) && HasClass(d1, m, Collapse) == HasClass(d, m, Collapse))
            && Blocks(d1, p) == Blocks(d, p) && Top(d1, p) == Top(d, p)
  {
    var d1 := SetChecked(d, b, true);
    CheckFrame(d, b);
    BlocksFrame(d, d1, p);
  }

  /** How many leading blocks of `bs` have their button found: the walk
      checks those and throws at the next one. */
  function FoundPrefix(d: Doc, bs: seq<NodeId>): (j: nat)
    ensures j <= |bs|
    ensures forall i | 0 <= i < j :: bs[i] < |d.nodes| && FoundButton(d, bs[i]).Some?
    ensures j < |bs| ==> bs[j] >= |d.nodes| || FoundButton(d, bs[j]).None?
    ensures j == |bs| <==> forall b | b in bs :: b < |d.nodes| && FoundButton(d, b).Some?
  {
    if bs == [] then 0
    else if bs[0] < |d.nodes| && FoundButton(d, bs[0]).Some? then
      var k := FoundPrefix(d, bs[1..]);
      TakeSucc(bs, k);
      k + 1
    else
      assert bs[0] in bs;
      0
  }

  lemma {:induction false} FoundPrefixFrame(d: Doc, e: Doc, bs: seq<NodeId>)
    requires |e.nodes| == |d.nodes| && forall m | 0 <= m < |d.nodes| :: FoundButton(e, m) == FoundButton(d, m)
    ensures FoundPrefix(e, bs) == FoundPrefix(d, bs)
  {
    if bs != [] {
      FoundPrefixFrame(d, e, bs[1..]);
    }
  }

  /** Whatever the outcome, the walk from `e` checks exactly the buttons of
      the enclosing blocks, innermost first, up to the first block whose
      button is not found; no other `checked` state changes. */
  ghost predicate ChecksPrefix(d: Doc, e: NodeId)
    requires WF(d) && e < |d.nodes| && IsElement(d, e)
  {
    var o, bs := AncestorsFrom(d, Some(e)), Blocks(d, e);
    forall m | 0 <= m < |d.nodes| ::
      o.doc.nodes[m].checked <==>
        d.nodes[m].checked || exists b | b in bs[..FoundPrefix(d, bs)] :: ButtonOf(d, b) == Some(m)
  }

  /** The walk from `e` returns normally only when every enclosing block's
      button is found. */
  ghost predicate OkAllFound(d: Doc, e: NodeId)
    requires WF(d) && e < |d.nodes| && IsElement(d, e)
  {
    AncestorsFrom(d, Some(e)).ok ==> FoundPrefix(d, Blocks(d, e)) == |Blocks(d, e)|
  }

  /** `ChecksPrefix` and `OkAllFound` hold for every element of every
      document. */
  lemma {:induction false} AncestorsCheckedAny(d: Doc, e: NodeId)
    requires WF(d) && e < |d.nodes| && IsElement(d, e)
    ensures ChecksPrefix(d, e) && OkAllFound(d, e)
    decreases |Below(d, d.nodes[e].rank)|
  {
    var o := AncestorsFrom(d, Some(e));
    var bs := Blocks(d, e);
    assert HasElement(d, e) && ElementOf(d, e) == e;
    match Closest(d, e, Collapse)
    case None =>
      assert bs == [] && o.doc == d;
    case Some(k) =>
      BlocksStep(d, e);
      assert bs[0] == k;
      match FoundButton(d, k)
      case None =>
        assert FoundPrefix(d, bs) == 0 && o.doc == d;
      case Some(b) =>
        match ParentElement(d, k)
        case None =>
          CheckedAnyTop(d, e, k, b);
        case Some(p) =>
          var d1 := SetChecked(d, b, true);
          SameShapeChain(d, d1, k);
          StepUpBelow(d, e, d1, p);
          AncestorsCheckedAny(d1, p);
          CheckedAnyUp(d, e, k, b, p);
  }

  /** The last step of `AncestorsCheckedAny`: the nearest block `k` has a
      button `b` but no parent element, so the walk checks `b` and throws. */
  lemma CheckedAnyTop(d: Doc, e: NodeId, k: NodeId, b: NodeId)
    requires WF(d) && e < |d.nodes| && IsElement(d, e) && Closest(d, e, Collapse) == Some(k)
    requires k < |d.nodes| && FoundButton(d, k) == Some(b) && ParentElement(d, k).None?
    ensures ChecksPrefix(d, e) && OkAllFound(d, e) && !AncestorsFrom(d, Some(e)).ok
  {
    var d1, o, bs := SetChecked(d, b, true), AncestorsFrom(d, Some(e)), Blocks(d, e);
    AncestorsUnfold(d, e, k, b);
    BlocksStep(d, e);
    assert bs[1..] == [] && FoundPrefix(d, bs) == 1 && bs[..1] == [k];
    forall m | 0 <= m < |d.nodes|
      ensures o.doc.nodes[m].checked <==> d.nodes[m].checked || exists c | c in bs[..1] :: ButtonOf(d, c) == Some(m)
    {
      assert o.doc.nodes[m].checked == (d.nodes[m].checked || m == b);
      assert (exists c | c in bs[..1] :: ButtonOf(d, c) == Some(m)) <==> m == b;
    }
  }

  /** The inductive step of `AncestorsCheckedAny`: from the walk above the
      nearest block `k`, whose button `b` is found, to the walk from `e`. */
  lemma CheckedAnyUp(d: Doc, e: NodeId, k: NodeId, b: NodeId, p: NodeId)
    requires WF(d) && e < |d.nodes| && IsElement(d, e) && Closest(d, e, Collapse) == Some(k)
    requires k < |d.nodes| && FoundButton(d, k) == Some(b) && ParentElement(d, k) == Some(p)
    requires var d1 := SetChecked(d, b, true);
             WF(d1) && p < |d1.nodes| && IsElement(d1, p) && ChecksPrefix(d1, p) && OkAllFound(d1, p)
    ensures ChecksPrefix(d, e) && OkAllFound(d, e)
  {
    CheckedUp(d, e, k, b, p);
    OkAllFoundUp(d, e, k, b, p);
  }

  /** `ChecksPrefix` one level up. */
  lemma CheckedUp(d: Doc, e: NodeId, k: NodeId, b: NodeId, p: NodeId)
    requires WF(d) && e < |d.nodes| && IsElement(d, e) && Closest(d, e, Collapse) == Some(k)
    requires k < |d.nodes| && FoundButton(d, k) == Some(b) && ParentElement(d, k) == Some(p)
    requires var d1 := SetChecked(d, b, true);
             WF(d1) && p < |d1.nodes| && IsElement(d1, p) && ChecksPrefix(d1, p)
    ensures ChecksPrefix(d, e)
  {
    var d1 := SetChecked(d, b, true);
    var bs, rest := Blocks(d, e), Blocks(d, p);
    CheckFrame(d, b);
    SameMarksFrame(d, d1);
    AncestorsUnfold(d, e, k, b);
    BlocksStep(d, e);
    FoundPrefixFrame(d, d1, rest);
    AncestorsPrefixStep(d, k, bs, rest);
    AncestorsCheckedStep(d, k, b, d1, bs[..FoundPrefix(d, bs)], rest[..FoundPrefix(d, rest)], AncestorsFrom(d, Some(e)).doc);
  }

  /** `OkAllFound` one level up. */
  lemma OkAllFoundUp(d: Doc, e: NodeId, k: NodeId, b: NodeId, p: NodeId)
    requires WF(d) && e < |d.nodes| && IsElement(d, e) && Closest(d, e, Collapse) == Some(k)
    requires k < |d.nodes| && FoundButton(d, k) == Some(b) && ParentElement(d, k) == Some(p)
    requires var d1 := SetChecked(d, b, true);
             WF(d1) && p < |d1.nodes| && IsElement(d1, p) && OkAllFound(d1, p)
    ensures OkAllFound(d, e)
  {
    var d1 := SetChecked(d, b, true);
    var rest := Blocks(d, p);
    CheckedFrame(d, b, p);
    AncestorsUnfold(d, e, k, b);
    BlocksStep(d, e);
    FoundPrefixFrame(d, d1, rest);
    AncestorsPrefixStep(d, k, Blocks(d, e), rest);
  }

  /** The found prefix of `[k] + rest`, when `k`'s button is found, is `k`
      followed by the found prefix of `rest`. */
  lemma AncestorsPrefixStep(d: Doc, k: NodeId, bs: seq<NodeId>, rest: seq<NodeId>)
    requires bs == [k] + rest && k < |d.nodes| && FoundButton(d, k).Some?
    ensures FoundPrefix(d, bs) == FoundPrefix(d, rest) + 1
    ensures bs[..FoundPrefix(d, bs)] == [k] + rest[..FoundPrefix(d, rest)]
    ensures forall c | c in rest[..FoundPrefix(d, rest)] :: c < |d.nodes|
  {
    assert bs[1..] == rest;
  }

  /** When the walk from an element returns normally, the checked buttons
      are the ones checked before plus the buttons of every enclosing
      block. */
  lemma AncestorsChecked(d: Doc, e: NodeId)
    requires WF(d) && e < |d.nodes| && IsElement(d, e)
    ensures var o := AncestorsFrom(d, Some(e));
            o.ok ==> forall m | 0 <= m < |d.nodes| ::
                       o.doc.nodes[m].checked <==>
                         d.nodes[m].checked || exists b | b in Blocks(d, e) :: ButtonOf(d, b) == Some(m)
  {
    var bs := Blocks(d, e);
    AncestorsCheckedAny(d, e);
    assert bs[..|bs|] == bs;
  }

  /** One step of the walk from an element whose nearest block `k` has its
      button `b` found: it checks `b` and carries on from `k`'s parent
      element, throwing when there is none. */
  lemma AncestorsUnfold(d: Doc, e: NodeId, k: NodeId, b: NodeId)
    requires WF(d) && IsElement(d, e) && Closest(d, e, Collapse) == Some(k)
    requires k < |d.nodes| && FoundButton(d, k) == Some(b)
    ensures var d1, o := SetChecked(d, b, true), AncestorsFrom(d, Some(e));
            && ParentElement(d1, k) == ParentElement(d, k)
            && (ParentElement(d, k).None? ==> o == Outcome(d1, false))
            && (ParentElement(d, k).Some? ==> o == AncestorsFrom(d1, ParentElement(d, k)))
  {
    assert HasElement(d, e) && ElementOf(d, e) == e;
    var d1 := SetChecked(d, b, true);
    SameShapeChain(d, d1, k);
    var o := AncestorsFrom(d, Some(e));
    if ParentElement(d1, k).None? {
      assert o == Outcome(d1, false);
    } else {
      assert o == AncestorsFrom(d1, ParentElement(d1, k));
    }
  }

  /** The inductive step of `AncestorsOk`: the nearest
      block `k` is the first of the enclosing blocks, and the rest are those
      of its parent element `p`. */
  lemma AncestorsOkStep(d: Doc, e: NodeId, k: NodeId, d1: Doc, p: NodeId, ok: bool)
    requires WF(d) && e < |d.nodes| && k < |d.nodes| && p < |d.nodes|
    requires Blocks(d, e) == [k] + Blocks(d, p) && Top(d, p) == Top(d, e) && FoundButton(d, k).Some?
    requires WF(d1) && p < |d1.nodes|
    requires forall c | c in Blocks(d, p) :: c < |d.nodes| && c < |d1.nodes| && FoundButton(d1, c) == FoundButton(d, c)
    requires Blocks(d1, p) == Blocks(d, p) && Top(d1, p) == Top(d, p)
    requires HasClass(d1, Top(d, e), Collapse) == HasClass(d, Top(d, e), Collapse)
    requires ok <==> (forall c | c in Blocks(d1, p) :: FoundButton(d1, c).Some?) && TopIsNotBlock(d1, p)
    ensures ok <==> (forall c | c in Blocks(d, e) :: FoundButton(d, c).Some?) && TopIsNotBlock(d, e)
  {
    var all, rest := Blocks(d, e), Blocks(d, p);
    assert TopIsNotBlock(d1, p) == TopIsNotBlock(d, e);
    assert (forall c | c in all :: FoundButton(d, c).Some?) <==> (forall c | c in rest :: FoundButton(d, c).Some?) by {
      assert forall c | c in all :: c == k || c in rest;
      assert forall c | c in rest :: c in all;
    }
  }

  /** The inductive step of `AncestorsCheckedAny`: checking `k`'s button
      `b` and then the buttons of `rest` is checking the buttons of
      `[k] + rest`. */
  lemma AncestorsCheckedStep(d: Doc, k: NodeId, b: NodeId, d1: Doc, all: seq<NodeId>, rest: seq<NodeId>, o: Doc)
    requires k < |d.nodes| && b < |d.nodes|
    requires all == [k] + rest && ButtonOf(d, k) == Some(b)
    requires d1 == SetChecked(d, b, true) && |o.nodes| == |d.nodes|
    requires forall c | c in rest :: c < |d.nodes| && ButtonOf(d1, c) == ButtonOf(d, c)
    requires forall m | 0 <= m < |d1.nodes| ::
               o.nodes[m].checked <==>
                 d1.nodes[m].checked || exists c | c in rest :: ButtonOf(d1, c) == Some(m)
    ensures forall m | 0 <= m < |d.nodes| ::
              o.nodes[m].checked <==>
                d.nodes[m].checked || exists c | c in all :: ButtonOf(d, c) == Some(m)
  {
    forall m | 0 <= m < |d.nodes|
      ensures o.nodes[m].checked <==>
                d.nodes[m].checked || exists c | c in all :: ButtonOf(d, c) == Some(m)
    {
      assert d1.nodes[m].checked == (d.nodes[m].checked || m == b);
      CheckedStepAt(d, k, b, d1, all, rest, m, o.nodes[m].checked);
    }
  }

  /** `AncestorsCheckedStep` for one node `m`, whose new state is `now`. */
  lemma CheckedStepAt(d: Doc, k: NodeId, b: NodeId, d1: Doc, all: seq<NodeId>, rest: seq<NodeId>, m: NodeId, now: bool)
    requires k < |d.nodes| && b < |d.nodes| && m < |d.nodes| && |d1.nodes| == |d.nodes|
    requires all == [k] + rest && ButtonOf(d, k) == Some(b)
    requires d1.nodes[m].checked == (d.nodes[m].checked || m == b)
    requires forall c | c in rest :: c < |d.nodes| && ButtonOf(d1, c) == ButtonOf(d, c)
    requires now <==> d1.nodes[m].checked || exists c | c in rest :: ButtonOf(d1, c) == Some(m)
    ensures now <==> d.nodes[m].checked || exists c | c in all :: ButtonOf(d, c) == Some(m)
  {
    if m == b {
      assert k in all && ButtonOf(d, k) == Some(m);
    } else if exists c | c in all :: ButtonOf(d, c) == Some(m) {
      var c :| c in all && ButtonOf(d, c) == Some(m);
      assert c != k;
      assert c in rest && ButtonOf(d1, c) == Some(m);
    } else {
      forall c | c in rest ensures ButtonOf(d1, c) != Some(m) {
        assert c in all;
      }
    }
  }

  /** `r` differs from `d` at most in `checked` states, each of which can
      only have gone from false to true. */
  ghost predicate OnlyChecks(d: Doc, r: Doc) {
    && |r.nodes| == |d.nodes|
    && forall m | 0 <= m < |d.nodes| ::
         && r.nodes[m] == d.nodes[m].(checked := r.nodes[m].checked)
         && (d.nodes[m].checked ==> r.nodes[m].checked)
  }

  lemma OnlyChecksTrans(a: Doc, b: Doc, c: Doc)
    requires OnlyChecks(a, b) && OnlyChecks(b, c)
    ensures OnlyChecks(a, c)
  {
    forall m | 0 <= m < |a.nodes|
      ensures c.nodes[m] == a.nodes[m].(checked := c.nodes[m].checked)
    {
      assert b.nodes[m] == a.nodes[m].(checked := b.nodes[m].checked);
    }
  }

  /** Whatever the outcome, the walk changes nothing but `checked` states,
      and those only from false to true: the `expanded` class, like every
      other attribute and the tree itself, is left alone. */
  lemma {:induction false} AncestorsOnlyCheck(d: Doc, node: Option<NodeId>)
    requires WF(d) && (node.Some? ==> node.value < |d.nodes|)
    ensures OnlyChecks(d, AncestorsFrom(d, node).doc)
    decreases if node.Some? && node.value < |d.nodes| then |Below(d, d.nodes[node.value].rank)| + 1 else 0
  {
    if node.Some? && HasElement(d, node.value) {
      var n := node.value;
      var e := ElementOf(d, n);
      match Closest(d, e, Collapse)
      case None =>
      case Some(k) =>
        BlocksStep(d, e);
        match FoundButton(d, k)
        case None =>
        case Some(b) =>
          var d1 := SetChecked(d, b, true);
          assert OnlyChecks(d, d1);
          SameShapeChain(d, d1, k);
          var parent := ParentElement(d1, k);
          if parent.Some? {
            StepUpBelow(d, n, d1, parent.value);
            AncestorsOnlyCheck(d1, parent);
            assert AncestorsFrom(d, node) == AncestorsFrom(d1, parent);
            OnlyChecksTrans(d, d1, AncestorsFrom(d1, parent).doc);
          }
    }
  }

  /** `expandAllAncestorsOfNode(node)`; `ok` is false where the JS throws,
      keeping the buttons checked before that point. */
  method ExpandAllAncestorsOfNode(page: Page, node: Option<NodeId>) returns (ok: bool)
    requires page.Valid() && (node.Some? ==> node.value < |page.doc.nodes|)
    modifies page
    ensures page.Valid() && page.events == old(page.events)
    ensures var o := AncestorsFrom(old(page.doc), node);
            page.doc == o.doc && ok == o.ok
    decreases if node.Some? && node.value < |page.doc.nodes| then |Below(page.doc, page.doc.nodes[node.value].rank)| + 1 else 0
  {
    if node.None? {
      return false;
    }
    var n := node.value;
    if !HasElement(page.doc, n) {
      return false;
    }
    var element := ElementOf(page.doc, n);
    var enclosingCollapseBlock := Closest(page.doc, element, Collapse);
    if enclosingCollapseBlock.None? {
      return true;
    }
    var k := enclosingCollapseBlock.value;
    ghost var d := page.doc;
    BlocksStep(d, element);
    var button := FoundButton(page.doc, k);
    if button.None? {
      return false;
    }
    page.doc := SetChecked(page.doc, button.value, true);
    var parent := ParentElement(page.doc, k);
    SameShapeChain(d, page.doc, k);
    if parent.Some? {
      StepUpBelow(d, n, page.doc, parent.value);
    }
    ok := ExpandAllAncestorsOfNode(page, parent);
  }
}
