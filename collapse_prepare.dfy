/**
  `prepareCollapseBlocks` in js/collapse.js: every element with class
  `collapse` becomes (or is given) a collapse block holding a checkbox
  disclosure button, checked and `expanded` from the start when the element
  contains the element the URL hash targets.
*/
module CollapsePrepare {
  import opened Dom
  import opened DomEdit
  import opened CollapseState

  const PrepareEvent := Event("Collapse.collapseStateDidChange", Some("prepareCollapseBlocks"))
  const Headings: set<string> := {"H1", "H2", "H3", "H4", "H5", "H6"}

  /** The parsed `<input type='checkbox' class='disclosure-button' ...>`,
      with `checked='checked'` when `flag` holds. */
  function ButtonNode(flag: bool, rank: real): (nd: Node)
    ensures nd.kind == Element("INPUT") && nd.classes == {DisclosureButton} && nd.checked == flag
    ensures nd.parent.None? && nd.children == [] && nd.rank == rank
  {
    NewElement("INPUT", {DisclosureButton}, rank).(checked := flag)
  }

  /** `collapseBlock.contains(getHashTargetedElement())`: false for a null
      target. */
  predicate Targets(d: Doc, c: NodeId, target: Option<NodeId>)
    requires WF(d)
  {
    target.Some? && target.value < |d.nodes| && Contains(d, c, target.value)
  }

  /** Class list `cls` gains `Expanded` when `flag` holds. */
  function WithExpanded(cls: set<string>, flag: bool): set<string> {
    if flag then cls + {Expanded} else cls
  }

  /** A SECTION keeps its class and gets its button right after its first
      element child; `None` when it has no element child (the JS throws). */
  function SectionBlock(d: Doc, c: NodeId, flag: bool): (r: Option<Doc>)
    requires WF(d) && IsElement(d, c)
    ensures r.None? <==> FirstElementChild(d, c).None?
    ensures r.Some? ==> WF(r.value) && r.value == SectionInsert(d, c, FirstElementChild(d, c).value, flag)
  {
    match FirstElementChild(d, c)
    case None => None
    case Some(first) => Some(SectionInsert(d, c, first, flag))
  }

  /** The SECTION's button goes in right after its first element child
      `first`. */
  function SectionInsert(d: Doc, c: NodeId, first: NodeId, flag: bool): (r: Doc)
    requires WF(d) && IsElement(d, c) && FirstElementChild(d, c) == Some(first)
    ensures var b, s := |d.nodes|, d.nodes[c].children;
            var i := IndexOf(s, first);
            && WF(r) && |r.nodes| == b + 1
            && r.nodes[c] == d.nodes[c].(children := SeqInsert(s, i + 1, b),
                                         classes := WithExpanded(d.nodes[c].classes, flag),
                                         hasClassAttr := flag || d.nodes[c].hasClassAttr)
            && r.nodes[b] == ButtonNode(flag, d.nodes[c].rank + 1.0).(parent := Some(c))
            && forall m | 0 <= m < |d.nodes| && m != c :: r.nodes[m] == d.nodes[m]
  {
    var s := d.nodes[c].children;
    var i := IndexOf(s, first);
    var b := |d.nodes|;
    var d1 := AddNode(d, ButtonNode(flag, d.nodes[c].rank + 1.0));
    assert d1.nodes[c] == d.nodes[c] && d1.nodes[b] == ButtonNode(flag, d.nodes[c].rank + 1.0);
    var d2 := Insert(d1, c, i + 1, b);
    assert d2.nodes[c] == d.nodes[c].(children := SeqInsert(s, i + 1, b));
    assert forall m | 0 <= m < |d.nodes| && m != c :: d2.nodes[m] == d1.nodes[m] == d.nodes[m];
    if flag then AddClass(d2, c, Expanded) else d2
  }

  /** A heading loses class `collapse` (and its `class` attribute when that
      leaves it empty) and nothing else happens. */
  function HeadingBlock(d: Doc, c: NodeId): (r: Doc)
    requires WF(d) && c < |d.nodes|
    ensures WF(r) && SameShape(d, r)
    ensures r.nodes[c] == d.nodes[c].(classes := d.nodes[c].classes - {Collapse},
                                      hasClassAttr := d.nodes[c].hasClassAttr && d.nodes[c].classes - {Collapse} != {})
    ensures forall m | 0 <= m < |d.nodes| && m != c :: r.nodes[m] == d.nodes[m]
  {
    DropClasses(d, c, {Collapse})
  }

  /** The parent DIV of an only child becomes the block: it gains
      `collapse`, and the button becomes its first child; the element
      itself loses `collapse`. */
  function PromoteBlock(d: Doc, c: NodeId, p: NodeId, flag: bool): (r: Doc)
    requires WF(d) && IsElement(d, c) && ParentElement(d, c) == Some(p)
    ensures var b := |d.nodes|;
            && WF(r) && |r.nodes| == b + 1 && p != c
            && r.nodes[p] == d.nodes[p].(classes := WithExpanded(d.nodes[p].classes + {Collapse}, flag),
                                         hasClassAttr := true,
                                         children := [b] + d.nodes[p].children)
            && r.nodes[b] == ButtonNode(flag, d.nodes[c].rank + 1.0).(parent := Some(p))
            && r.nodes[c] == d.nodes[c].(classes := d.nodes[c].classes - {Collapse},
                                         hasClassAttr := d.nodes[c].hasClassAttr && d.nodes[c].classes - {Collapse} != {})
            && forall m | 0 <= m < |d.nodes| && m != p && m != c :: r.nodes[m] == d.nodes[m]
  {
    var b := |d.nodes|;
    var d1 := AddClass(d, p, Collapse);
    var d2 := AddNode(d1, ButtonNode(flag, d.nodes[c].rank + 1.0));
    var d3 := Insert(d2, p, 0, b);
    assert SeqInsert(d.nodes[p].children, 0, b) == [b] + d.nodes[p].children;
    var d4 := if flag then AddClass(d3, p, Expanded) else d3;
    DropClasses(d4, c, {Collapse})
  }

  /** Any other element is wrapped: a new `div.collapse` takes its place,
      holding the button and then the element, which loses `collapse`. */
  function WrapBlock(d: Doc, c: NodeId, p: NodeId, flag: bool): (r: Doc)
    requires WF(d) && IsElement(d, c) && ParentElement(d, c) == Some(p)
    ensures var w, b, s := |d.nodes|, |d.nodes| + 1, d.nodes[p].children;
            && WF(r) && |r.nodes| == b + 1 && p != c && c in s
            && r.nodes[p] == d.nodes[p].(children := s[..IndexOf(s, c)] + [w] + s[IndexOf(s, c) + 1..])
            && r.nodes[w].kind == Element("DIV")
            && r.nodes[w].classes == WithExpanded({Collapse}, flag)
            && r.nodes[w].parent == Some(p) && r.nodes[w].children == [b, c]
            && r.nodes[b] == ButtonNode(flag, WrapRank(d, c, p) + 1.0).(parent := Some(w))
            && r.nodes[c] == d.nodes[c].(parent := Some(w),
                                         classes := d.nodes[c].classes - {Collapse},
                                         hasClassAttr := d.nodes[c].hasClassAttr && d.nodes[c].classes - {Collapse} != {})
            && forall m | 0 <= m < |d.nodes| && m != p && m != c :: r.nodes[m] == d.nodes[m]
  {
    DropClasses(WrapAround(d, c, p, flag), c, {Collapse})
  }

  /** The fresh wrapper takes the element's place under its parent and
      holds the button and then the element. */
  function WrapAround(d: Doc, c: NodeId, p: NodeId, flag: bool): (r: Doc)
    requires WF(d) && IsElement(d, c) && ParentElement(d, c) == Some(p)
    ensures var w, b, s := |d.nodes|, |d.nodes| + 1, d.nodes[p].children;
            && WF(r) && |r.nodes| == b + 1 && p != c && c in s
            && r.nodes[p] == d.nodes[p].(children := s[..IndexOf(s, c)] + [w] + s[IndexOf(s, c) + 1..])
            && r.nodes[w] == NewElement("DIV", WithExpanded({Collapse}, flag), WrapRank(d, c, p)).(parent := Some(p), children := [b, c])
            && r.nodes[b] == ButtonNode(flag, WrapRank(d, c, p) + 1.0).(parent := Some(w))
            && r.nodes[c] == d.nodes[c].(parent := Some(w))
            && forall m | 0 <= m < |d.nodes| && m != p && m != c :: r.nodes[m] == d.nodes[m]
  {
    WrapWith(NewWrapper(d, c, p, flag), c, |d.nodes|)
  }

  /** The detached wrapper `div.collapse` (node `|d.nodes|`) already holding
      its button (the next node). */
  function NewWrapper(d: Doc, c: NodeId, p: NodeId, flag: bool): (r: Doc)
    requires WF(d) && IsElement(d, c) && ParentElement(d, c) == Some(p)
    ensures var w, b, rank := |d.nodes|, |d.nodes| + 1, WrapRank(d, c, p);
            && WF(r) && |r.nodes| == b + 1
            && r.nodes[w] == NewElement("DIV", WithExpanded({Collapse}, flag), rank).(children := [b])
            && r.nodes[b] == ButtonNode(flag, rank + 1.0).(parent := Some(w))
            && forall m | 0 <= m < |d.nodes| :: r.nodes[m] == d.nodes[m]
  {
    var w, b := |d.nodes|, |d.nodes| + 1;
    var rank := WrapRank(d, c, p);
    var d1 := AddNode(d, NewElement("DIV", WithExpanded({Collapse}, flag), rank));
    var d2 := AddNode(d1, ButtonNode(flag, rank + 1.0));
    assert SeqInsert([], 0, b) == [b];
    Insert(d2, w, 0, b)
  }

  /** A wrapped element ends up inside a fresh block whose disclosure
      button is the first child, checked exactly when the block starts
      expanded; the element itself is no longer a block. */
  lemma WrapBlockInSync(d: Doc, c: NodeId, p: NodeId, flag: bool)
    requires WF(d) && IsElement(d, c) && ParentElement(d, c) == Some(p)
    ensures var r, w, b := WrapBlock(d, c, p, flag), |d.nodes|, |d.nodes| + 1;
            && HasClass(r, w, Collapse) && !HasClass(r, c, Collapse)
            && ButtonOf(r, w) == Some(b) && r.nodes[b].checked == flag
            && (IsCollapsed(r, w) <==> !flag)
            && ParentElement(r, c) == Some(w) && ParentElement(r, w) == Some(p)
  {
    var r, w, b := WrapBlock(d, c, p, flag), |d.nodes|, |d.nodes| + 1;
    assert r.nodes[w].children == [b, c];
    assert HasClass(r, b, DisclosureButton);
    assert WithClass(r, [b, c], DisclosureButton)[0] == b;
  }

  /** A promoted parent becomes the block, its new first child the button,
      checked exactly when the block starts expanded (the parent carried no
      `expanded` class before). */
  lemma PromoteBlockInSync(d: Doc, c: NodeId, p: NodeId, flag: bool)
    requires WF(d) && IsElement(d, c) && ParentElement(d, c) == Some(p)
    requires !HasClass(d, p, Expanded)
    ensures var r, b := PromoteBlock(d, c, p, flag), |d.nodes|;
            && HasClass(r, p, Collapse) && !HasClass(r, c, Collapse)
            && ButtonOf(r, p) == Some(b) && r.nodes[b].checked == flag
            && (IsCollapsed(r, p) <==> !flag)
  {
    var r, b := PromoteBlock(d, c, p, flag), |d.nodes|;
    var s := r.nodes[p].children;
    assert s == [b] + d.nodes[p].children;
    assert HasClass(r, b, DisclosureButton);
    assert s[0] == b;
    assert WithClass(r, s, DisclosureButton)[0] == b;
  }

  /** A SECTION stays the block; when none of its children was a
      disclosure button and it was not `expanded`, the inserted button is
      its button and agrees with its state. */
  lemma SectionBlockInSync(d: Doc, c: NodeId, flag: bool)
    requires WF(d) && IsElement(d, c) && SectionBlock(d, c, flag).Some?
    requires !HasClass(d, c, Expanded)
    requires forall x | x in d.nodes[c].children :: !HasClass(d, x, DisclosureButton)
    ensures var r, b := SectionBlock(d, c, flag).value, |d.nodes|;
            && HasClass(r, c, Collapse) == HasClass(d, c, Collapse)
            && ButtonOf(r, c) == Some(b) && r.nodes[b].checked == flag
            && (IsCollapsed(r, c) <==> !flag)
  {
    var r, b := SectionBlock(d, c, flag).value, |d.nodes|;
    var s := d.nodes[c].children;
    var i := IndexOf(s, FirstElementChild(d, c).value);
    assert r.nodes[c].children == SeqInsert(s, i + 1, b);
    SectionChildrenUnmarked(d, c, flag);
    FirstMarked(r, s[..i + 1], b, s[i + 1..], DisclosureButton);
  }

  lemma SectionChildrenUnmarked(d: Doc, c: NodeId, flag: bool)
    requires WF(d) && IsElement(d, c) && SectionBlock(d, c, flag).Some?
    requires forall x | x in d.nodes[c].children :: !HasClass(d, x, DisclosureButton)
    ensures var r := SectionBlock(d, c, flag).value;
            forall x | x in d.nodes[c].children :: !HasClass(r, x, DisclosureButton)
  {
    var r := SectionBlock(d, c, flag).value;
    assert NodeOk(d, c);
    forall x | x in d.nodes[c].children ensures !HasClass(r, x, DisclosureButton) {
      assert x < |d.nodes| && x != c;
      assert r.nodes[x] == d.nodes[x];
    }
  }

  /** In `u + [b] + v` with no member of `u` carrying `cls` and `b`
      carrying it, `b` is the first member carrying it. */
  lemma FirstMarked(d: Doc, u: seq<NodeId>, b: NodeId, v: seq<NodeId>, cls: string)
    requires forall x | x in u :: !HasClass(d, x, cls)
    requires HasClass(d, b, cls)
    ensures WithClass(d, u + [b] + v, cls) != [] && WithClass(d, u + [b] + v, cls)[0] == b
  {
    NoneWithClass(d, u, cls);
    WithClassAppend(d, u, [b] + v, cls);
    assert u + [b] + v == u + ([b] + v);
    assert ([b] + v)[1..] == v;
  }

  lemma {:induction false} NoneWithClass(d: Doc, s: seq<NodeId>, cls: string)
    requires forall x | x in s :: !HasClass(d, x, cls)
    ensures WithClass(d, s, cls) == []
  {
    if s != [] {
      NoneWithClass(d, s[1..], cls);
    }
  }

  /** What one candidate becomes, by the branches of the JS: SECTION,
      heading, only child of a DIV, anything else. `None` when the JS throws:
      a SECTION without an element child, or a non-heading candidate
      without a parent element. */
  function PrepareOne(d: Doc, c: NodeId, flag: bool): (r: Option<Doc>)
    requires WF(d) && IsElement(d, c)
    ensures r.None? <==>
              || (HasTag(d, c, "SECTION") && FirstElementChild(d, c).None?)
              || (!HasTag(d, c, "SECTION") && d.nodes[c].kind.tag !in Headings && ParentElement(d, c).None?)
    ensures r.Some? ==> WF(r.value) && Extends(d, r.value)
  {
    if HasTag(d, c, "SECTION") then
      var r := SectionBlock(d, c, flag);
      if r.Some? then SectionExtends(d, c, flag); r else r
    else if d.nodes[c].kind.tag in Headings then
      var r := HeadingBlock(d, c);
      assert Extends(d, r) by { HeadingExtends(d, c); }
      Some(r)
    else match ParentElement(d, c)
      case None => None
      case Some(p) =>
        if HasTag(d, p, "DIV") && |ElementChildren(d, p)| == 1 then
          PromoteExtends(d, c, p, flag);
          Some(PromoteBlock(d, c, p, flag))
        else
          WrapExtends(d, c, p, flag);
          Some(WrapBlock(d, c, p, flag))
  }

  lemma SectionExtends(d: Doc, c: NodeId, flag: bool)
    requires WF(d) && IsElement(d, c) && SectionBlock(d, c, flag).Some?
    ensures Extends(d, SectionBlock(d, c, flag).value)
  {
    var r := SectionBlock(d, c, flag).value;
    forall n | 0 <= n < |d.nodes| ensures r.nodes[n].kind == d.nodes[n].kind && r.nodes[n].parent == d.nodes[n].parent {
      if n != c {
        assert r.nodes[n] == d.nodes[n];
      }
    }
  }

  lemma HeadingExtends(d: Doc, c: NodeId)
    requires WF(d) && c < |d.nodes|
    ensures Extends(d, HeadingBlock(d, c))
  {
    var r := HeadingBlock(d, c);
    forall n | 0 <= n < |d.nodes| ensures r.nodes[n].kind == d.nodes[n].kind && r.nodes[n].parent == d.nodes[n].parent {
      if n != c {
        assert r.nodes[n] == d.nodes[n];
      }
    }
  }

  lemma PromoteExtends(d: Doc, c: NodeId, p: NodeId, flag: bool)
    requires WF(d) && IsElement(d, c) && ParentElement(d, c) == Some(p)
    ensures Extends(d, PromoteBlock(d, c, p, flag))
  {
    var r := PromoteBlock(d, c, p, flag);
    forall n | 0 <= n < |d.nodes| ensures r.nodes[n].kind == d.nodes[n].kind && r.nodes[n].parent == d.nodes[n].parent {
      if n != c && n != p {
        assert r.nodes[n] == d.nodes[n];
      }
    }
  }

  lemma WrapExtends(d: Doc, c: NodeId, p: NodeId, flag: bool)
    requires WF(d) && IsElement(d, c) && ParentElement(d, c) == Some(p)
    ensures Extends(d, WrapBlock(d, c, p, flag))
  {
    var r := WrapBlock(d, c, p, flag);
    var w := |d.nodes|;
    forall n | 0 <= n < |d.nodes|
      ensures r.nodes[n].kind == d.nodes[n].kind
      ensures || r.nodes[n].parent == d.nodes[n].parent
              || (&& r.nodes[n].parent.Some?
                  && |d.nodes| <= r.nodes[n].parent.value < |r.nodes|
                  && r.nodes[r.nodes[n].parent.value].kind.Element?
                  && r.nodes[r.nodes[n].parent.value].parent == d.nodes[n].parent)
    {
      if n == c {
        assert r.nodes[n].parent == Some(w);
      } else if n != p {
        assert r.nodes[n] == d.nodes[n];
      }
    }
  }

  /** The state of the loop over the candidates: the document, whether
      every candidate has been handled without the JS throwing, and
      `aBlockDidStartExpanded`. */
  datatype PrepareRun = PrepareRun(doc: Doc, completed: bool, started: bool)

  /** The loop from some point on, with the flag accumulated so far. */
  function PrepareFrom(d: Doc, cs: seq<NodeId>, target: Option<NodeId>, started: bool): (run: PrepareRun)
    requires WF(d) && forall c | c in cs :: IsElement(d, c)
    ensures WF(run.doc) && (started ==> run.started)
    decreases |cs|
  {
    if cs == [] then PrepareRun(d, true, started)
    else
      assert cs[0] in cs;
      var flag := Targets(d, cs[0], target);
      match PrepareOne(d, cs[0], flag)
      case None => PrepareRun(d, false, started || flag)
      case Some(d1) =>
        ExtendsElements(d, d1, cs[1..]);
        PrepareFrom(d1, cs[1..], target, started || flag)
  }

  /** One iteration of the loop over `candidates` at index `i`: decides
      whether the candidate contains the target and prepares it. The rest of
      the run is the run from the prepared document, or the run stops here
      when the candidate throws. */
  method PrepareNext(d: Doc, candidates: seq<NodeId>, i: nat, target: Option<NodeId>, started: bool)
    returns (next: Option<Doc>, now: bool)
    requires WF(d) && i < |candidates| && forall c | c in candidates :: IsElement(d, c)
    ensures now == (started || Targets(d, candidates[i], target))
    ensures next.None? ==> PrepareFrom(d, candidates[i..], target, started) == PrepareRun(d, false, now)
    ensures next.Some? ==>
              && WF(next.value) && (forall c | c in candidates :: IsElement(next.value, c))
              && PrepareFrom(d, candidates[i..], target, started) == PrepareFrom(next.value, candidates[i + 1..], target, now)
  {
    var c := candidates[i];
    assert candidates[i..][0] == c && candidates[i..][1..] == candidates[i + 1..];
    assert c in candidates;
    var checked := Targets(d, c, target);
    now := started || checked;
    next := PrepareOne(d, c, checked);
    if next.Some? {
      PrepareFromStep(d, candidates[i..], target, started, next.value);
      ExtendsElements(d, next.value, candidates);
    }
  }

  /** One step of the loop that does not throw: the rest of the run is the
      run from the prepared document. */
  lemma PrepareFromStep(d: Doc, cs: seq<NodeId>, target: Option<NodeId>, started: bool, d1: Doc)
    requires WF(d) && cs != [] && forall c | c in cs :: IsElement(d, c)
    requires PrepareOne(d, cs[0], Targets(d, cs[0], target)) == Some(d1)
    ensures WF(d1) && forall c | c in cs[1..] :: IsElement(d1, c)
    ensures PrepareFrom(d, cs, target, started) == PrepareFrom(d1, cs[1..], target, started || Targets(d, cs[0], target))
  {
    assert cs[0] in cs;
    ExtendsElements(d, d1, cs[1..]);
  }

  /** The old candidates are still elements after an extension. */
  lemma ExtendsElements(d: Doc, r: Doc, cs: seq<NodeId>)
    requires Extends(d, r) && forall c | c in cs :: IsElement(d, c)
    ensures forall c | c in cs :: IsElement(r, c)
  {
    forall c | c in cs ensures IsElement(r, c) {
      assert IsElement(d, c);
      assert r.nodes[c].kind == d.nodes[c].kind;
    }
  }

  /** Whether a block starts expanded is decided in the original document:
      preparing other candidates (adding buttons, wrapping elements) never
      changes which elements contain the target. So when the loop finishes,
      the flag says whether any candidate contained the target. */
  lemma {:induction false} PrepareStartedIff(d: Doc, cs: seq<NodeId>, target: Option<NodeId>, started: bool)
    requires WF(d) && forall c | c in cs :: IsElement(d, c)
    requires target.Some? ==> target.value < |d.nodes|
    ensures var run := PrepareFrom(d, cs, target, started);
            run.completed ==> (run.started <==> started || exists k | 0 <= k < |cs| :: Targets(d, cs[k], target))
    decreases |cs|
  {
    if cs != [] {
      assert cs[0] in cs;
      var flag := Targets(d, cs[0], target);
      match PrepareOne(d, cs[0], flag)
      case None =>
      case Some(d1) =>
        var rest := cs[1..];
        assert forall c | c in rest :: c in cs;
        PrepareStartedIff(d1, rest, target, started || flag);
        forall k | 0 <= k < |rest| ensures Targets(d1, rest[k], target) == Targets(d, rest[k], target) {
          assert rest[k] in cs;
          if target.Some? {
            ExtendsContains(d, d1, rest[k], target.value);
          }
        }
        if exists k | 0 <= k < |cs| :: Targets(d, cs[k], target) {
          var k :| 0 <= k < |cs| && Targets(d, cs[k], target);
          if k > 0 {
            assert Targets(d1, rest[k - 1], target);
          }
        }
    }
  }

  /** `prepareCollapseBlocks` over the document's `.collapse` elements
      `candidates`, in document order, with `target` the element the URL
      hash points to (`None`: no target). Returns false when the JS throws
      part way; the candidates before that stay prepared and no
      notification fires. */
  method PrepareCollapseBlocks(page: Page, candidates: seq<NodeId>, target: Option<NodeId>) returns (completed: bool)
    requires page.Valid() && forall c | c in candidates :: IsElement(page.doc, c)
    requires target.Some? ==> target.value < |page.doc.nodes|
    modifies page
    ensures var run := PrepareFrom(old(page.doc), candidates, target, false);
            && page.Valid() && page.doc == run.doc && completed == run.completed
            && page.events == old(page.events) + (if run.completed && run.started then [PrepareEvent] else [])
    ensures page.events == old(page.events) +
              (if completed && exists k | 0 <= k < |candidates| :: Targets(old(page.doc), candidates[k], target)
               then [PrepareEvent] else [])
  {
    ghost var d0 := page.doc;
    PrepareStartedIff(d0, candidates, target, false);
    var aBlockDidStartExpanded;
    completed, aBlockDidStartExpanded := PrepareLoop(page, candidates, target);
    if completed && aBlockDidStartExpanded {
      Fire(page, PrepareEvent);
    }
  }

  /** The loop of `prepareCollapseBlocks`: prepares the candidates one after
      another and reports whether it got through all of them and whether a
      block started expanded. */
  method PrepareLoop(page: Page, candidates: seq<NodeId>, target: Option<NodeId>) returns (completed: bool, started: bool)
    requires page.Valid() && forall c | c in candidates :: IsElement(page.doc, c)
    requires target.Some? ==> target.value < |page.doc.nodes|
    modifies page
    ensures var run := PrepareFrom(old(page.doc), candidates, target, false);
            && page.Valid() && page.doc == run.doc && completed == run.completed
            && (completed ==> started == run.started)
    ensures page.events == old(page.events)
  {
    ghost var d0 := page.doc;
    started := false;
    var i := 0;
    while i < |candidates|
      invariant 0 <= i <= |candidates| && page.Valid()
      invariant forall c | c in candidates :: IsElement(page.doc, c)
      invariant PrepareFrom(page.doc, candidates[i..], target, started)
                == PrepareFrom(d0, candidates, target, false)
      invariant page.events == old(page.events)
    {
      var next, now := PrepareNext(page.doc, candidates, i, target, started);
      if next.None? {
        return false, now;
      }
      page.doc := next.value;
      started := now;
      i := i + 1;
    }
    completed := true;
  }
}
