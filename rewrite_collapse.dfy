/**
  The older collapse set-up in js/rewrite.js: the loop that gives every
  `.collapse` element its disclosure button, and the change listeners that
  keep a block's `expanded` class equal to its button's `checked` state.

  It is the collapse.js preparation without its two refinements: an only
  child of a DIV is wrapped like any other element (the parent is never
  promoted), and no block starts checked or `expanded`. Every block
  therefore starts collapsed.
*/
module RewriteCollapse {
  import opened Dom
  import opened DomEdit
  import opened CollapseState
  import opened CollapsePrepare

  /** One candidate: a SECTION gets its button right after its first
      element child, a heading loses `collapse`, anything else is wrapped in
      a new `div.collapse` that starts with the button. `None` where the JS
      throws: a SECTION without an element child (`children[0]` is
      undefined), or a wrapped element without a parent element. Unlike
      collapse.js, the candidate keeps its `class` attribute even when its
      class list is left empty. */
  function LegacyPrepareOne(d: Doc, c: NodeId): (r: Option<Doc>)
    requires WF(d) && IsElement(d, c)
    ensures r.None? <==>
              || (HasTag(d, c, "SECTION") && FirstElementChild(d, c).None?)
              || (!HasTag(d, c, "SECTION") && d.nodes[c].kind.tag !in Headings && ParentElement(d, c).None?)
    ensures r.Some? ==> WF(r.value) && Extends(d, r.value)
    ensures r.Some? ==> r.value.nodes[c].hasClassAttr == d.nodes[c].hasClassAttr
  {
    match LegacySteps(d, c)
    case None => None
    case Some(r0) => Some(KeepClassAttr(d, r0, c))
  }

  /** The edits of one candidate as collapse.js makes them with no hash
      target and no parent to promote. */
  function LegacySteps(d: Doc, c: NodeId): (r: Option<Doc>)
    requires WF(d) && IsElement(d, c)
    ensures r.None? <==>
              || (HasTag(d, c, "SECTION") && FirstElementChild(d, c).None?)
              || (!HasTag(d, c, "SECTION") && d.nodes[c].kind.tag !in Headings && ParentElement(d, c).None?)
    ensures r.Some? ==> WF(r.value) && Extends(d, r.value)
  {
    if HasTag(d, c, "SECTION") then
      var r := SectionBlock(d, c, false);
      if r.Some? then SectionExtends(d, c, false); r else r
    else if d.nodes[c].kind.tag in Headings then
      HeadingExtends(d, c);
      Some(HeadingBlock(d, c))
    else match ParentElement(d, c)
      case None => None
      case Some(p) =>
        WrapExtends(d, c, p, false);
        Some(WrapBlock(d, c, p, false))
  }

  /** `classList.remove` alone: node `c` gets back the `class` attribute
      flag it had in `d`. */
  function KeepClassAttr(d: Doc, r: Doc, c: NodeId): (r': Doc)
    requires c < |d.nodes| && c < |r.nodes|
    ensures SameShape(r, r') && (WF(r) ==> WF(r'))
    ensures r'.nodes[c] == r.nodes[c].(hasClassAttr := d.nodes[c].hasClassAttr)
    ensures forall m | 0 <= m < |r.nodes| && m != c :: r'.nodes[m] == r.nodes[m]
  {
    Update(r, c, r.nodes[c].(hasClassAttr := d.nodes[c].hasClassAttr))
  }

  /** Where the newer preparation does not promote a parent and the block
      does not contain the hash target, the two preparations agree up to
      the candidate's `class` attribute. */
  lemma LegacyAgreesWithPrepare(d: Doc, c: NodeId)
    requires WF(d) && IsElement(d, c)
    requires !HasTag(d, c, "SECTION") && d.nodes[c].kind.tag !in Headings && ParentElement(d, c).Some? ==>
               var p := ParentElement(d, c).value;
               !(HasTag(d, p, "DIV") && |ElementChildren(d, p)| == 1)
    ensures LegacyPrepareOne(d, c).Some? <==> PrepareOne(d, c, false).Some?
    ensures LegacyPrepareOne(d, c).Some? ==>
              LegacyPrepareOne(d, c).value == KeepClassAttr(d, PrepareOne(d, c, false).value, c)
  {
  }

  /** The block a prepared candidate becomes: the SECTION itself, or the new
      wrapper (the first node added); a heading becomes none. */
  function LegacyBlock(d: Doc, c: NodeId): (k: Option<NodeId>)
    requires WF(d) && IsElement(d, c)
  {
    if HasTag(d, c, "SECTION") then Some(c)
    else if d.nodes[c].kind.tag in Headings then None
    else Some(|d.nodes|)
  }

  /** Every block the legacy loop creates starts collapsed, its disclosure
      button the freshly inserted, unchecked checkbox; a heading is left
      without `collapse`. (A SECTION is assumed to carry neither `expanded`
      nor a disclosure button among its children beforehand.) */
  lemma LegacyStartsCollapsed(d: Doc, c: NodeId)
    requires WF(d) && IsElement(d, c) && LegacyPrepareOne(d, c).Some?
    requires HasTag(d, c, "SECTION") ==>
               && !HasClass(d, c, Expanded)
               && forall x | x in d.nodes[c].children :: !HasClass(d, x, DisclosureButton)
    ensures var r := LegacyPrepareOne(d, c).value;
            match LegacyBlock(d, c)
            case None => !HasClass(r, c, Collapse)
            case Some(k) =>
              var b := if k == c then |d.nodes| else |d.nodes| + 1;
              && k < |r.nodes| && b < |r.nodes|
              && ButtonOf(r, k) == Some(b) && !r.nodes[b].checked && IsCollapsed(r, k)
              && (k != c ==> !HasClass(r, c, Collapse) && ParentElement(r, c) == Some(k))
  {
    var r0 := LegacySteps(d, c).value;
    if HasTag(d, c, "SECTION") {
      SectionBlockInSync(d, c, false);
      KeepClassAttrKeeps(d, r0, c, c);
    } else if d.nodes[c].kind.tag !in Headings {
      WrapBlockInSync(d, c, ParentElement(d, c).value, false);
      KeepClassAttrKeeps(d, r0, c, |d.nodes|);
    }
  }

  /** Restoring the `class` attribute flag changes no class, no checkbox,
      no button and no parent. */
  lemma KeepClassAttrKeeps(d: Doc, r: Doc, c: NodeId, k: NodeId)
    requires WF(r) && c < |d.nodes| && c < |r.nodes| && k < |r.nodes|
    ensures var r' := KeepClassAttr(d, r, c);
            && ButtonOf(r', k) == ButtonOf(r, k)
            && (forall n | 0 <= n < |r.nodes| ::
                  r'.nodes[n].classes == r.nodes[n].classes && r'.nodes[n].checked == r.nodes[n].checked)
            && ParentElement(r', c) == ParentElement(r, c)
  {
    var r' := KeepClassAttr(d, r, c);
    WithClassFrame(r, r', r.nodes[k].children, DisclosureButton);
    SameShapeChain(r, r', c);
  }

  /** The legacy loop from some point on: the document, and whether it got
      through every candidate without throwing. */
  datatype LegacyRun = LegacyRun(doc: Doc, completed: bool)

  function LegacyFrom(d: Doc, cs: seq<NodeId>): (run: LegacyRun)
    requires WF(d) && forall c | c in cs :: IsElement(d, c)
    ensures WF(run.doc)
    decreases |cs|
  {
    if cs == [] then LegacyRun(d, true)
    else
      assert cs[0] in cs;
      match LegacyPrepareOne(d, cs[0])
      case None => LegacyRun(d, false)
      case Some(d1) =>
        ExtendsElements(d, d1, cs[1..]);
        LegacyFrom(d1, cs[1..])
  }

  /** Whether the JS throws on candidate `c`: its tag and whether it has an
      element child or a parent element. */
  predicate LegacyThrows(d: Doc, c: NodeId)
    requires WF(d) && IsElement(d, c)
  {
    || (HasTag(d, c, "SECTION") && FirstElementChild(d, c).None?)
    || (!HasTag(d, c, "SECTION") && d.nodes[c].kind.tag !in Headings && ParentElement(d, c).None?)
  }

  /** Preparing one candidate never changes whether another throws:
      elements keep their tags, a SECTION only gains children, a wrapped
      element's place is taken by the wrapper, and only the wrapped element
      changes parent (to the wrapper, an element). */
  lemma LegacyThrowsStable(d: Doc, c: NodeId, x: NodeId)
    requires WF(d) && IsElement(d, c) && IsElement(d, x) && LegacyPrepareOne(d, c).Some?
    ensures var r := LegacyPrepareOne(d, c).value;
            IsElement(r, x) && (LegacyThrows(r, x) <==> LegacyThrows(d, x))
  {
    var r := LegacyPrepareOne(d, c).value;
    assert r.nodes[x].kind == d.nodes[x].kind;
    assert ParentElement(r, x).Some? <==> ParentElement(d, x).Some? by {
      ParentKept(d, c, x);
    }
    assert FirstElementChild(r, x).None? <==> FirstElementChild(d, x).None? by {
      ElementChildKept(d, c, x);
    }
  }

  lemma ParentKept(d: Doc, c: NodeId, x: NodeId)
    requires WF(d) && IsElement(d, c) && IsElement(d, x) && LegacyPrepareOne(d, c).Some?
    ensures var r := LegacyPrepareOne(d, c).value;
            ParentElement(r, x).Some? <==> ParentElement(d, x).Some?
  {
    var r0 := LegacySteps(d, c).value;
    SameShapeChain(r0, KeepClassAttr(d, r0, c), x);
    var wrapped := !HasTag(d, c, "SECTION") && d.nodes[c].kind.tag !in Headings;
    if wrapped && x == c {
      WrapBlockInSync(d, c, ParentElement(d, c).value, false);
    } else {
      StepsKeepParent(d, c, x);
      SameParentElement(d, r0, x);
    }
  }

  /** Only a wrapped candidate changes parent. */
  lemma StepsKeepParent(d: Doc, c: NodeId, x: NodeId)
    requires WF(d) && IsElement(d, c) && x < |d.nodes| && LegacySteps(d, c).Some?
    requires HasTag(d, c, "SECTION") || d.nodes[c].kind.tag in Headings || x != c
    ensures LegacySteps(d, c).value.nodes[x].parent == d.nodes[x].parent
  {
    if !HasTag(d, c, "SECTION") && d.nodes[c].kind.tag !in Headings {
      var p := ParentElement(d, c).value;
      if x != p {
        assert LegacySteps(d, c).value.nodes[x] == d.nodes[x];
      }
    } else if x != c {
      assert LegacySteps(d, c).value.nodes[x] == d.nodes[x];
    }
  }

  /** A node whose parent an extension keeps keeps its parent element. */
  lemma SameParentElement(d: Doc, r: Doc, x: NodeId)
    requires WF(d) && WF(r) && Extends(d, r) && x < |d.nodes| && r.nodes[x].parent == d.nodes[x].parent
    ensures ParentElement(r, x) == ParentElement(d, x)
  {
    assert NodeOk(d, x);
  }

  lemma ElementChildKept(d: Doc, c: NodeId, x: NodeId)
    requires WF(d) && IsElement(d, c) && IsElement(d, x) && LegacyPrepareOne(d, c).Some?
    ensures var r := LegacyPrepareOne(d, c).value;
            ElementChildren(r, x) == [] <==> ElementChildren(d, x) == []
  {
    var r0 := LegacySteps(d, c).value;
    SameShapeElements(r0, KeepClassAttr(d, r0, c), x);
    StepsElementChildKept(d, c, x);
  }

  lemma StepsElementChildKept(d: Doc, c: NodeId, x: NodeId)
    requires WF(d) && IsElement(d, c) && IsElement(d, x) && LegacySteps(d, c).Some?
    ensures var r := LegacySteps(d, c).value;
            ElementChildren(r, x) == [] <==> ElementChildren(d, x) == []
  {
    var r := LegacySteps(d, c).value;
    if HasTag(d, c, "SECTION") && x == c {
      var f := FirstElementChild(d, c).value;
      assert r == SectionInsert(d, c, f, false);
      SectionKeepsElementChild(d, c, f);
    } else if !HasTag(d, c, "SECTION") && d.nodes[c].kind.tag !in Headings && x == ParentElement(d, c).value {
      WrapperIsElementChild(d, c, x);
    } else {
      assert r.nodes[x].children == d.nodes[x].children;
      SameChildren(d, r, x);
    }
  }

  /** The SECTION keeps its first element child. */
  lemma SectionKeepsElementChild(d: Doc, c: NodeId, f: NodeId)
    requires WF(d) && IsElement(d, c) && FirstElementChild(d, c) == Some(f)
    ensures ElementChildren(SectionInsert(d, c, f, false), c) != []
  {
    var r := SectionInsert(d, c, f, false);
    assert f in d.nodes[c].children && IsElement(d, f);
    assert f in r.nodes[c].children;
    assert r.nodes[f].kind == d.nodes[f].kind;
  }

  /** The wrapper takes the candidate's place among the parent's element
      children. */
  lemma WrapperIsElementChild(d: Doc, c: NodeId, p: NodeId)
    requires WF(d) && IsElement(d, c) && ParentElement(d, c) == Some(p)
    ensures var r := WrapBlock(d, c, p, false);
            ElementChildren(r, p) != [] && ElementChildren(d, p) != []
  {
    var w := |d.nodes|;
    var r := WrapBlock(d, c, p, false);
    assert c in d.nodes[p].children && IsElement(d, c);
    WrapBlockInSync(d, c, p, false);
    assert w in r.nodes[p].children && IsElement(r, w);
  }

  /** Element children are read from the child list and the children's
      kinds, which an extension keeps. */
  lemma SameChildren(d: Doc, r: Doc, x: NodeId)
    requires WF(d) && Extends(d, r) && x < |d.nodes| && r.nodes[x].children == d.nodes[x].children
    ensures ElementChildren(r, x) == ElementChildren(d, x)
  {
    assert NodeOk(d, x);
    assert forall y | y in d.nodes[x].children :: y < |d.nodes| && r.nodes[y].kind == d.nodes[y].kind;
    ElementsKept(d, r, d.nodes[x].children);
  }

  /** The legacy loop gets through every candidate exactly when none of
      them throws in the original document. */
  lemma {:induction false} LegacyCompletes(d: Doc, cs: seq<NodeId>)
    requires WF(d) && forall c | c in cs :: IsElement(d, c)
    ensures LegacyFrom(d, cs).completed <==> forall c | c in cs :: !LegacyThrows(d, c)
    decreases |cs|
  {
    if cs != [] {
      assert cs[0] in cs;
      match LegacyPrepareOne(d, cs[0])
      case None =>
      case Some(d1) =>
        var rest := cs[1..];
        assert forall c | c in rest :: c in cs;
        ExtendsElements(d, d1, rest);
        LegacyCompletes(d1, rest);
        forall x | x in rest ensures LegacyThrows(d1, x) <==> LegacyThrows(d, x) {
          LegacyThrowsStable(d, cs[0], x);
        }
        assert forall c | c in cs :: c == cs[0] || c in rest;
    }
  }

  /** The legacy preparation loop over the document's `.collapse` elements,
      in document order. Returns false when the JS throws part way; the
      candidates before that stay prepared. */
  method LegacyPrepareCollapseBlocks(page: Page, candidates: seq<NodeId>) returns (completed: bool)
    requires page.Valid() && forall c | c in candidates :: IsElement(page.doc, c)
    modifies page
    ensures var run := LegacyFrom(old(page.doc), candidates);
            page.Valid() && page.doc == run.doc && completed == run.completed
    ensures page.events == old(page.events)
  {
    ghost var d0 := page.doc;
    var i := 0;
    while i < |candidates|
      invariant 0 <= i <= |candidates| && page.Valid()
      invariant forall c | c in candidates :: IsElement(page.doc, c)
      invariant LegacyFrom(page.doc, candidates[i..]) == LegacyFrom(d0, candidates)
      invariant page.events == old(page.events)
    {
      var c := candidates[i];
      assert candidates[i..][0] == c && candidates[i..][1..] == candidates[i + 1..];
      var next := LegacyPrepareOne(page.doc, c);
      if next.None? {
        return false;
      }
      ExtendsElements(page.doc, next.value, candidates);
      page.doc := next.value;
      i := i + 1;
    }
    completed := true;
  }

  /*
    The legacy change listener.
  */

  /** Attaching one change listener to a button. */
  function ListenOne(d: Doc, b: NodeId): (r: Doc)
    requires WF(d) && b < |d.nodes|
    ensures WF(r)
  {
    Update(d, b, d.nodes[b].(changeListeners := d.nodes[b].changeListeners + 1))
  }

  /** The registration loop over the document's disclosure buttons. */
  function ListenAll(d: Doc, bs: seq<NodeId>): (r: Doc)
    requires WF(d) && forall b | b in bs :: b < |d.nodes|
    ensures WF(r) && |r.nodes| == |d.nodes|
    decreases |bs|
  {
    if bs == [] then d
    else
      assert bs[0] in bs && forall b | b in bs[1..] :: b in bs;
      ListenAll(ListenOne(d, bs[0]), bs[1..])
  }

  /** Registration adds one change listener per occurrence of a button in
      the list and changes nothing else. */
  lemma {:induction false} ListenAllEffect(d: Doc, bs: seq<NodeId>, n: NodeId)
    requires WF(d) && (forall b | b in bs :: b < |d.nodes|) && n < |d.nodes|
    ensures ListenAll(d, bs).nodes[n] ==
              d.nodes[n].(changeListeners := d.nodes[n].changeListeners + multiset(bs)[n])
    decreases |bs|
  {
    if bs != [] {
      assert bs[0] in bs && forall b | b in bs[1..] :: b in bs;
      var d1 := ListenOne(d, bs[0]);
      ListenAllEffect(d1, bs[1..], n);
      assert bs == [bs[0]] + bs[1..];
      assert multiset(bs)[n] == (if n == bs[0] then 1 else 0) + multiset(bs[1..])[n];
    }
  }

  /** Registration keeps the tree and every class list. */
  lemma {:induction false} ListenAllShape(d: Doc, bs: seq<NodeId>)
    requires WF(d) && forall b | b in bs :: b < |d.nodes|
    ensures SameShape(d, ListenAll(d, bs))
    ensures forall m | 0 <= m < |d.nodes| :: ListenAll(d, bs).nodes[m].classes == d.nodes[m].classes
    decreases |bs|
  {
    if bs != [] {
      assert bs[0] in bs && forall b | b in bs[1..] :: b in bs;
      ListenAllShape(ListenOne(d, bs[0]), bs[1..]);
    }
  }

  /** The registration loop. Each listener closes over the block that
      `closest(".collapse")` finds at registration time; `bound` lists those
      blocks, one per button, found in the document as it was before the
      loop (registration changes no class, so it is the same document for
      `closest`). */
  method LegacyAddChangeListeners(page: Page, buttons: seq<NodeId>) returns (bound: seq<Option<NodeId>>)
    requires page.Valid() && forall b | b in buttons :: b < |page.doc.nodes|
    modifies page
    ensures page.Valid() && page.doc == ListenAll(old(page.doc), buttons)
    ensures |bound| == |buttons|
    ensures forall i | 0 <= i < |buttons| ::
              buttons[i] < |old(page.doc).nodes| && bound[i] == Closest(old(page.doc), buttons[i], Collapse)
    ensures page.events == old(page.events)
  {
    ghost var d0 := page.doc;
    bound := [];
    var i := 0;
    while i < |buttons|
      invariant 0 <= i <= |buttons| && page.Valid() && SameClasses(d0, page.doc)
      invariant forall b | b in buttons[i..] :: b in buttons
      invariant ListenAll(page.doc, buttons[i..]) == ListenAll(d0, buttons)
      invariant |bound| == i
      invariant forall j | 0 <= j < i :: buttons[j] < |d0.nodes| && bound[j] == Closest(d0, buttons[j], Collapse)
      invariant page.events == old(page.events)
    {
      assert buttons[i..][0] == buttons[i] && buttons[i..][1..] == buttons[i + 1..];
      var block, next := ListenNext(d0, page.doc, buttons[i..]);
      bound := bound + [block];
      page.doc := next;
      i := i + 1;
    }
  }

  /** One iteration of the registration loop, over the buttons `rest` still
      to do: the block the listener binds to is found in the document as it
      was before the loop, and the rest of the loop goes on from the document
      with the listener. */
  method ListenNext(ghost d0: Doc, d: Doc, rest: seq<NodeId>) returns (block: Option<NodeId>, r: Doc)
    requires WF(d0) && WF(d) && SameClasses(d0, d) && rest != []
    requires forall b | b in rest :: b < |d.nodes|
    ensures WF(r) && SameClasses(d0, r) && rest[0] < |d0.nodes|
    ensures forall b | b in rest[1..] :: b in rest
    ensures block == Closest(d0, rest[0], Collapse)
    ensures ListenAll(r, rest[1..]) == ListenAll(d, rest)
  {
    var b := rest[0];
    assert b in rest;
    ClassesFrame(d0, d, b);
    ListenOneKeeps(d0, d, b);
    block := Closest(d, b, Collapse);
    r := ListenOne(d, b);
  }

  /** Registering listeners changes neither the tree nor any class. */
  ghost predicate SameClasses(d0: Doc, d: Doc)
  {
    && SameShape(d0, d) && |d.nodes| == |d0.nodes|
    && forall m | 0 <= m < |d0.nodes| :: d.nodes[m].classes == d0.nodes[m].classes
  }

  lemma ListenOneKeeps(d0: Doc, d: Doc, b: NodeId)
    requires WF(d) && SameClasses(d0, d) && b < |d.nodes|
    ensures SameClasses(d0, ListenOne(d, b))
  {
    ListenAllShape(d, [b]);
    assert ListenAll(d, [b]) == ListenOne(d, b);
  }

  lemma ClassesFrame(d: Doc, e: Doc, n: NodeId)
    requires WF(d) && SameClasses(d, e) && n < |d.nodes|
    ensures WF(e) && Closest(e, n, Collapse) == Closest(d, n, Collapse)
  {
    BlocksFrame(d, e, n);
  }

  /** The listener body: `collapseBlock.classList.toggle("expanded",
      button.checked)`. */
  function LegacyChangedDoc(d: Doc, k: NodeId, b: NodeId): (r: Doc)
    requires k < |d.nodes| && b < |d.nodes|
    ensures |r.nodes| == |d.nodes| && (IsCollapsed(r, k) <==> !d.nodes[b].checked)
    ensures forall m | 0 <= m < |d.nodes| && m != k :: r.nodes[m] == d.nodes[m]
    ensures r.nodes[k].classes - {Expanded} == d.nodes[k].classes - {Expanded}
  {
    ToggleClass(d, k, Expanded, d.nodes[b].checked)
  }

  /** The listener is idempotent: running it again with nothing changed in
      between changes nothing more. */
  lemma LegacyChangedIdempotent(d: Doc, k: NodeId, b: NodeId)
    requires k < |d.nodes| && b < |d.nodes| && k != b
    ensures LegacyChangedDoc(LegacyChangedDoc(d, k, b), k, b) == LegacyChangedDoc(d, k, b)
  {
    var r := LegacyChangedDoc(d, k, b);
    var r2 := LegacyChangedDoc(r, k, b);
    assert r.nodes[b] == d.nodes[b];
    assert r2.nodes[k].classes == r.nodes[k].classes;
    assert r2.nodes[k] == r.nodes[k];
    assert r2.nodes == r.nodes;
  }

  /** After the toggle, the code-block height fix reads
      `collapseBlock.lastElementChild.tagName` and, for a PRE, that PRE's
      last element child's tag: it throws when either is missing. */
  predicate HeightFixThrows(d: Doc, k: NodeId)
    requires WF(d) && k < |d.nodes|
  {
    var es := ElementChildren(d, k);
    || es == []
    || (HasTag(d, es[|es| - 1], "PRE") && ElementChildren(d, es[|es| - 1]) == [])
  }

  /** The change listener of a button whose registration bound `block`:
      `None` (a button outside any block) throws before anything changes;
      otherwise the block's `expanded` class follows the button, and the
      listener then throws or not by `HeightFixThrows`. The reset of the code
      block's height is layout and is not modelled. */
  method LegacyStateChanged(page: Page, block: Option<NodeId>, b: NodeId) returns (ok: bool)
    requires page.Valid() && b < |page.doc.nodes| && (block.Some? ==> block.value < |page.doc.nodes|)
    modifies page
    ensures page.Valid() && page.events == old(page.events)
    ensures block.None? ==> !ok && page.doc == old(page.doc)
    ensures block.Some? ==>
              && page.doc == LegacyChangedDoc(old(page.doc), block.value, b)
              && ok == !HeightFixThrows(page.doc, block.value)
  {
    if block.None? {
      return false;
    }
    var k := block.value;
    page.doc := ToggleClass(page.doc, k, Expanded, page.doc.nodes[b].checked);
    ok := !HeightFixThrows(page.doc, k);
  }
}
