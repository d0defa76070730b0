/**
  `activateCollapseBlockDisclosureButtons` in js/collapse.js: every
  disclosure button gets, once, a change handler that keeps its block's
  `expanded` class equal to its `checked` state, and a hover preview that
  expands a collapsed block while the mouse rests on its button, reverts
  when the mouse leaves the block and becomes permanent on a click inside
  the block.

  The handler and the listeners are closures over the button and over the
  block found by `closest(".collapse")` at activation time; the model keeps
  them as counters on the button's node (`Node.handler`,
  `Node.changeListeners` and so on). The hover delay is a timer: here its
  firing is the discrete step `HoverFire`.
*/
module CollapseButtons {
  import opened Dom
  import opened DomEdit
  import opened CollapseState
  import opened CollapseReveal

  const ChangeEvent := Event("Collapse.collapseStateDidChange", Some("Collapse.collapseBlockDisclosureButtonStateChanged"))
  const ExpandedTemp := "expanded-temp"

  /** What the handlers keep true of a button: a handler's block is a node
      of the document; preview listeners exist only when the handler has a
      block (adding them to a null block would have thrown); a button has at
      most one mouseleave listener, only while it is checked, and never
      more mouseleave than click listeners (they are added in pairs, and a
      click listener takes its partner with it); and a handler's block, the
      one `closest` found, encloses the button. */
  ghost predicate ButtonOk(d: Doc, n: NodeId)
    requires WF(d) && n < |d.nodes|
  {
    HandlerOk(d, n) && Encloses(d, n) && ListenersOk(d.nodes[n])
  }

  predicate ListenersOk(nd: Node) {
    && (nd.clickListeners > 0 ==> nd.handler.Installed? && nd.handler.block.Some?)
    && nd.leaveListeners <= nd.clickListeners
    && nd.leaveListeners <= 1
    && (nd.leaveListeners == 1 ==> nd.checked)
  }

  /** Two versions of a node that agree on everything a button's handler
      and listeners look at. */
  predicate SameButton(a: Node, c: Node) {
    a.handler == c.handler && a.checked == c.checked &&
    a.leaveListeners == c.leaveListeners && a.clickListeners == c.clickListeners
  }

  predicate Encloses(d: Doc, n: NodeId)
    requires WF(d) && n < |d.nodes|
  {
    d.nodes[n].handler.Installed? && d.nodes[n].handler.block.Some? ==> Contains(d, d.nodes[n].handler.block.value, n)
  }

  /** Whether a button is in order depends on the tree only through its
      ancestors, which an edit keeping the shape keeps. */
  lemma ButtonOkFrame(d: Doc, e: Doc, n: NodeId)
    requires WF(d) && SameShape(d, e) && n < |d.nodes| && ButtonOk(d, n)
    requires e.nodes[n].handler == d.nodes[n].handler && ListenersOk(e.nodes[n])
    ensures WF(e) && ButtonOk(e, n)
  {
    SameShapeChain(d, e, n);
  }

  /** The block a handler toggles is a node of the document. */
  predicate HandlerOk(d: Doc, n: NodeId)
    requires n < |d.nodes|
  {
    d.nodes[n].handler.Installed? && d.nodes[n].handler.block.Some? ==> d.nodes[n].handler.block.value < |d.nodes|
  }

  ghost predicate ButtonsOk(d: Doc)
    requires WF(d)
  {
    forall n | 0 <= n < |d.nodes| :: ButtonOk(d, n)
  }

  /** Same tree, same classes: only `checked` and listener state differ. */
  ghost predicate SameClasses(d: Doc, e: Doc) {
    && SameShape(d, e)
    && forall m | 0 <= m < |d.nodes| :: d.nodes[m].classes == e.nodes[m].classes
  }

  lemma ClosestFrame(d: Doc, e: Doc, n: NodeId)
    requires WF(d) && SameClasses(d, e) && n < |d.nodes|
    ensures WF(e) && Closest(e, n, Collapse) == Closest(d, n, Collapse)
  {
    BlocksFrame(d, e, n);
  }

  /*
    Activation.
  */

  /** The button node once its handler and its two listeners are attached. */
  function Activated(d: Doc, b: NodeId): (nd: Node)
    requires WF(d) && b < |d.nodes|
  {
    d.nodes[b].(handler := Installed(Closest(d, b, Collapse)),
                changeListeners := d.nodes[b].changeListeners + 1,
                hoverListeners := d.nodes[b].hoverListeners + 1)
  }

  /** One iteration: a button that already has a `stateChangedHandler` is
      skipped. */
  function ActivateOne(d: Doc, b: NodeId): (r: Doc)
    requires WF(d) && b < |d.nodes|
    ensures WF(r) && SameClasses(d, r) && |r.nodes| == |d.nodes|
  {
    if d.nodes[b].handler.Installed? then d else Update(d, b, Activated(d, b))
  }

  /** The whole loop over the document's disclosure buttons. */
  function ActivateAll(d: Doc, bs: seq<NodeId>): (r: Doc)
    requires WF(d) && forall b | b in bs :: b < |d.nodes|
    ensures WF(r) && SameShape(d, r)
    decreases |bs|
  {
    if bs == [] then d
    else
      assert bs[0] in bs && forall b | b in bs[1..] :: b in bs;
      ActivateAll(ActivateOne(d, bs[0]), bs[1..])
  }

  /** After activation every listed button has a handler, on the block
      enclosing it; a button that had one already is untouched, so each
      button gets its change and hover listeners at most once, whatever the
      number of passes; no other node changes. */
  lemma ActivateAllNodes(d: Doc, bs: seq<NodeId>)
    requires WF(d) && forall b | b in bs :: b < |d.nodes|
    ensures var r := ActivateAll(d, bs);
            forall n | 0 <= n < |d.nodes| ::
              r.nodes[n] == if n in bs && d.nodes[n].handler.NoHandler? then Activated(d, n) else d.nodes[n]
  {
    forall n | 0 <= n < |d.nodes|
      ensures ActivateAll(d, bs).nodes[n] ==
                if n in bs && d.nodes[n].handler.NoHandler? then Activated(d, n) else d.nodes[n]
    {
      ActivateAllNode(d, bs, n);
    }
  }

  lemma {:induction false} ActivateAllNode(d: Doc, bs: seq<NodeId>, n: NodeId)
    requires WF(d) && (forall b | b in bs :: b < |d.nodes|) && n < |d.nodes|
    ensures ActivateAll(d, bs).nodes[n] ==
              if n in bs && d.nodes[n].handler.NoHandler? then Activated(d, n) else d.nodes[n]
    decreases |bs|
  {
    if bs != [] {
      assert bs[0] in bs;
      var d1 := ActivateOne(d, bs[0]);
      var rest := bs[1..];
      assert forall b | b in rest :: b in bs;
      assert ActivateAll(d, bs) == ActivateAll(d1, rest);
      ActivateAllNode(d1, rest, n);
      assert n in bs <==> n == bs[0] || n in rest;
      if n == bs[0] {
        ActivateOneSelf(d, n);
      } else {
        ActivateOneOther(d, bs[0], n);
      }
    }
  }

  lemma ActivateOneSelf(d: Doc, n: NodeId)
    requires WF(d) && n < |d.nodes|
    ensures var d1 := ActivateOne(d, n);
            && d1.nodes[n].handler.Installed?
            && d1.nodes[n] == if d.nodes[n].handler.NoHandler? then Activated(d, n) else d.nodes[n]
  {
  }

  lemma ActivateOneOther(d: Doc, b: NodeId, n: NodeId)
    requires WF(d) && b < |d.nodes| && n < |d.nodes| && b != n
    ensures var d1 := ActivateOne(d, b);
            && d1.nodes[n] == d.nodes[n]
            && Activated(d1, n) == Activated(d, n)
  {
    var d1 := ActivateOne(d, b);
    ClosestFrame(d, d1, n);
  }

  /** Running the activation a second time changes nothing. */
  lemma ActivateIdempotent(d: Doc, bs: seq<NodeId>)
    requires WF(d) && forall b | b in bs :: b < |d.nodes|
    ensures ActivateAll(ActivateAll(d, bs), bs) == ActivateAll(d, bs)
  {
    var r1 := ActivateAll(d, bs);
    var r2 := ActivateAll(r1, bs);
    ActivateAllNodes(d, bs);
    ActivateAllNodes(r1, bs);
    assert r2.nodes == r1.nodes;
  }

  /** Each button ends with exactly one more change listener than it had
      when it had no handler, and with the same number otherwise. */
  lemma ActivateAttachesOnce(d: Doc, bs: seq<NodeId>, n: NodeId)
    requires WF(d) && (forall b | b in bs :: b < |d.nodes|) && n < |d.nodes|
    ensures var r := ActivateAll(d, bs);
            && r.nodes[n].changeListeners ==
                 d.nodes[n].changeListeners + (if n in bs && d.nodes[n].handler.NoHandler? then 1 else 0)
            && (n in bs ==> r.nodes[n].handler.Installed?)
  {
    ActivateAllNodes(d, bs);
  }

  lemma ActivateKeepsOk(d: Doc, bs: seq<NodeId>)
    requires WF(d) && ButtonsOk(d) && forall b | b in bs :: b < |d.nodes|
    ensures ButtonsOk(ActivateAll(d, bs))
  {
    var r := ActivateAll(d, bs);
    ActivateAllNodes(d, bs);
    forall n | 0 <= n < |r.nodes| ensures ButtonOk(r, n) {
      assert ButtonOk(d, n);
      SameShapeChain(d, r, n);
      if n in bs && d.nodes[n].handler.NoHandler? {
        ActivatedOk(d, r, n);
      } else {
        assert r.nodes[n] == d.nodes[n];
      }
    }
  }

  lemma ActivatedOk(d: Doc, r: Doc, n: NodeId)
    requires WF(d) && WF(r) && n < |d.nodes| && |r.nodes| == |d.nodes| && ButtonOk(d, n)
    requires Chain(r, n) == Chain(d, n)
    requires d.nodes[n].handler.NoHandler? && r.nodes[n] == Activated(d, n)
    ensures ButtonOk(r, n)
  {
    var ws := WithClass(d, Chain(d, n), Collapse);
    if ws != [] {
      assert ws[0] in ws;
    }
  }

  /** `activateCollapseBlockDisclosureButtons` over the document's
      `.disclosure-button` elements `buttons`. */
  method ActivateCollapseBlockDisclosureButtons(page: Page, buttons: seq<NodeId>)
    requires page.Valid() && forall b | b in buttons :: b < |page.doc.nodes|
    modifies page
    ensures page.Valid() && page.doc == ActivateAll(old(page.doc), buttons)
    ensures page.events == old(page.events)
  {
    ghost var d0 := page.doc;
    var i := 0;
    while i < |buttons|
      invariant 0 <= i <= |buttons| && page.Valid() && |page.doc.nodes| == |d0.nodes|
      invariant forall b | b in buttons :: b < |page.doc.nodes|
      invariant forall b | b in buttons[i..] :: b in buttons
      invariant ActivateAll(page.doc, buttons[i..]) == ActivateAll(d0, buttons)
      invariant page.events == old(page.events)
    {
      assert buttons[i..][0] == buttons[i] && buttons[i..][1..] == buttons[i + 1..];
      page.doc := ActivateNext(page.doc, buttons[i..]);
      i := i + 1;
    }
  }

  /** One pass of the loop body on the remaining buttons `rest`: the first
      one gets its handler and listeners unless it has a handler already. */
  method ActivateNext(d: Doc, rest: seq<NodeId>) returns (r: Doc)
    requires WF(d) && rest != [] && forall b | b in rest :: b < |d.nodes|
    ensures WF(r) && |r.nodes| == |d.nodes|
    ensures forall b | b in rest[1..] :: b in rest
    ensures ActivateAll(r, rest[1..]) == ActivateAll(d, rest)
  {
    var b := rest[0];
    assert b in rest;
    SliceMembers(rest, 1);
    r := d;
    var collapseBlock := Closest(d, b, Collapse);
    if d.nodes[b].handler.NoHandler? {
      var nd := d.nodes[b];
      r := Update(d, b, nd.(handler := Installed(collapseBlock),
                            changeListeners := nd.changeListeners + 1,
                            hoverListeners := nd.hoverListeners + 1));
    }
    assert r == ActivateOne(d, b);
  }

  lemma SliceMembers(s: seq<NodeId>, i: nat)
    requires i <= |s|
    ensures forall x | x in s[i..] :: x in s
  {
    forall x | x in s[i..] ensures x in s {
      var k :| 0 <= k < |s[i..]| && s[i..][k] == x;
      assert s[i + k] == x;
    }
  }

  /*
    The change handler.
  */

  /** The handler's effect: its block's `expanded` class follows the
      button's `checked` state. A handler over a null block throws before
      changing anything. */
  function ChangedDoc(d: Doc, b: NodeId): (r: Doc)
    requires b < |d.nodes| && d.nodes[b].handler.Installed? && HandlerOk(d, b)
    ensures SameShape(d, r) && (WF(d) ==> WF(r))
  {
    match d.nodes[b].handler.block
    case None => d
    case Some(k) => ToggleClass(d, k, Expanded, d.nodes[b].checked)
  }

  /** After the handler the block is expanded exactly when the button is
      checked; nothing else changes but the block's classes. */
  lemma ChangedSyncs(d: Doc, b: NodeId)
    requires b < |d.nodes| && d.nodes[b].handler.Installed? && HandlerOk(d, b)
    requires d.nodes[b].handler.block.Some?
    ensures var k, r := d.nodes[b].handler.block.value, ChangedDoc(d, b);
            && k < |r.nodes|
            && (IsCollapsed(r, k) <==> !d.nodes[b].checked)
            && r.nodes[k].classes - {Expanded} == d.nodes[k].classes - {Expanded}
            && (k != b ==> r.nodes[b] == d.nodes[b])
            && forall m | 0 <= m < |d.nodes| && m != k :: r.nodes[m] == d.nodes[m]
  {
  }

  /** The handler changes classes only: no button's handler, listeners or
      `checked` state. */
  lemma ChangedKeepsButtons(d: Doc, b: NodeId)
    requires b < |d.nodes| && d.nodes[b].handler.Installed? && HandlerOk(d, b)
    ensures var r := ChangedDoc(d, b);
            forall m | 0 <= m < |d.nodes| :: SameButton(r.nodes[m], d.nodes[m])
  {
  }

  /** Running the handler again, with nothing changed in between, changes
      nothing more. */
  lemma ChangedIdempotent(d: Doc, b: NodeId)
    requires b < |d.nodes| && d.nodes[b].handler.Installed? && HandlerOk(d, b)
    ensures HandlerOk(ChangedDoc(d, b), b)
    ensures ChangedDoc(ChangedDoc(d, b), b) == ChangedDoc(d, b)
  {
    var r := ChangedDoc(d, b);
    match d.nodes[b].handler.block
    case None =>
    case Some(k) =>
      var v := d.nodes[b].checked;
      assert r.nodes[b].checked == v && r.nodes[b].handler == d.nodes[b].handler;
      var r2 := ChangedDoc(r, b);
      assert r2 == ToggleClass(r, k, Expanded, v);
      var cs := if v then d.nodes[k].classes + {Expanded} else d.nodes[k].classes - {Expanded};
      assert r.nodes[k].classes == cs;
      assert r2.nodes[k].classes == cs;
      assert r2.nodes[k] == r.nodes[k];
      assert forall m | 0 <= m < |r.nodes| :: r2.nodes[m] == r.nodes[m];
      assert r2.nodes == r.nodes;
  }

  /** The button's `change` event: the handler runs and, unless it throws,
      fires one notification. Returns whether it completed. */
  method StateChanged(page: Page, b: NodeId) returns (ok: bool)
    requires page.Valid() && b < |page.doc.nodes| && page.doc.nodes[b].handler.Installed?
    requires HandlerOk(page.doc, b)
    modifies page
    ensures page.Valid() && page.doc == ChangedDoc(old(page.doc), b)
    ensures ok == old(page.doc.nodes[b].handler.block.Some?)
    ensures page.events == old(page.events) + (if ok then [ChangeEvent] else [])
  {
    var collapseBlock := page.doc.nodes[b].handler.block;
    if collapseBlock.None? {
      return false;
    }
    page.doc := ToggleClass(page.doc, collapseBlock.value, Expanded, page.doc.nodes[b].checked);
    Fire(page, ChangeEvent);
    ok := true;
  }

  /*
    The hover preview.
  */

  /** The delayed mouseenter callback: nothing on a checked button;
      otherwise check it, run the handler (which throws on a null block,
      leaving the button checked), mark the button `expanded-temp` and put a
      mouseleave and a click listener on the block. */
  function HoverDoc(d: Doc, b: NodeId): (r: Doc)
    requires WF(d) && b < |d.nodes| && d.nodes[b].handler.Installed? && ButtonOk(d, b)
    ensures WF(r) && SameShape(d, r)
  {
    if d.nodes[b].checked then d
    else
      var d1 := SetChecked(d, b, true);
      match d.nodes[b].handler.block
      case None => d1
      case Some(k) =>
        var d2 := ToggleClass(d1, k, Expanded, true);
        var d3 := AddClass(d2, b, ExpandedTemp);
        Update(d3, b, d3.nodes[b].(leaveListeners := d3.nodes[b].leaveListeners + 1,
                                   clickListeners := d3.nodes[b].clickListeners + 1))
  }

  /** The mouseleave listener, if the button has one on its block: uncheck
      the button, run the handler, drop `expanded-temp` and remove the
      mouseleave listener, but not the click listener. */
  function LeaveDoc(d: Doc, b: NodeId): (r: Doc)
    requires WF(d) && b < |d.nodes| && ButtonOk(d, b)
    ensures WF(r) && SameShape(d, r)
  {
    if d.nodes[b].leaveListeners == 0 then d
    else
      var k := d.nodes[b].handler.block.value;
      var d1 := SetChecked(d, b, false);
      var d2 := ToggleClass(d1, k, Expanded, false);
      var d3 := RemoveClasses(d2, b, {ExpandedTemp});
      Update(d3, b, d3.nodes[b].(leaveListeners := d3.nodes[b].leaveListeners - 1))
  }

  /** A button once the click listeners its previews left on the block
      have run: `expanded-temp` gone, no preview listener left. */
  function Clicked(nd: Node): (c: Node)
    ensures c.checked == nd.checked && c.handler == nd.handler
    ensures c.classes - {ExpandedTemp} == nd.classes - {ExpandedTemp}
    ensures c.clickListeners == 0
    ensures nd.clickListeners > 0 ==> c.leaveListeners == 0 && ExpandedTemp !in c.classes
    ensures nd.clickListeners == 0 ==> c == nd
    ensures ListenersOk(nd) || nd.clickListeners > 0 ==> ListenersOk(c)
  {
    if nd.clickListeners == 0 then nd
    else nd.(classes := nd.classes - {ExpandedTemp}, leaveListeners := 0, clickListeners := 0)
  }

  /** The click listeners the button's previews left on its block (stale
      ones included): each drops `expanded-temp` and removes itself and its
      mouseleave partner. Only the button's node changes. */
  function ClickDoc(d: Doc, b: NodeId): (r: Doc)
    requires WF(d) && b < |d.nodes|
    ensures WF(r) && SameShape(d, r)
    ensures r.nodes[b] == Clicked(d.nodes[b])
    ensures forall m | 0 <= m < |d.nodes| && m != b :: r.nodes[m] == d.nodes[m]
  {
    if d.nodes[b].clickListeners == 0 then d
    else
      var d1 := RemoveClasses(d, b, {ExpandedTemp});
      Update(d1, b, d1.nodes[b].(leaveListeners := 0, clickListeners := 0))
  }

  /** The preview listeners of button `n`, if it has any, sit on a block
      that a click on `x` passes through as it bubbles up the tree. */
  predicate Hears(d: Doc, x: NodeId, n: NodeId)
    requires WF(d) && x < |d.nodes| && n < |d.nodes|
  {
    d.nodes[n].handler.Installed? && d.nodes[n].handler.block.Some? &&
    Contains(d, d.nodes[n].handler.block.value, x)
  }

  /** The click listeners of the buttons below `k` that hear a click on `x`
      have run. */
  function ClickUpTo(d: Doc, x: NodeId, k: nat): (r: Doc)
    requires WF(d) && x < |d.nodes| && k <= |d.nodes|
    ensures WF(r) && SameShape(d, r)
  {
    if k == 0 then d
    else
      var r := ClickUpTo(d, x, k - 1);
      if Hears(d, x, k - 1) then ClickDoc(r, k - 1) else r
  }

  /** Each button below `k` that hears the click is `Clicked`; every other
      node is as it was. */
  lemma {:induction false} ClickUpToNode(d: Doc, x: NodeId, k: nat, n: NodeId)
    requires WF(d) && x < |d.nodes| && k <= |d.nodes| && n < |d.nodes|
    ensures ClickUpTo(d, x, k).nodes[n] == if n < k && Hears(d, x, n) then Clicked(d.nodes[n]) else d.nodes[n]
  {
    if k > 0 {
      ClickUpToNode(d, x, k - 1, n);
      var r := ClickUpTo(d, x, k - 1);
      if Hears(d, x, k - 1) {
        assert ClickUpTo(d, x, k) == ClickDoc(r, k - 1);
      } else {
        assert ClickUpTo(d, x, k) == r;
      }
    }
  }

  /** One more button of the fold: whether it hears the click is the same
      in the document reached so far as in the original one. */
  lemma ClickUpToStep(d: Doc, x: NodeId, k: nat)
    requires WF(d) && x < |d.nodes| && k < |d.nodes|
    ensures var e := ClickUpTo(d, x, k);
            && Hears(e, x, k) == Hears(d, x, k)
            && ClickUpTo(d, x, k + 1) == if Hears(e, x, k) then ClickDoc(e, k) else e
  {
    var e := ClickUpTo(d, x, k);
    ClickUpToNode(d, x, k, k);
    SameShapeChain(d, e, x);
  }

  /** A click on `x`: it bubbles through every block enclosing `x`, and the
      click listeners on each of them run, whichever button's preview left
      them there. Every button that hears it loses its click listeners and,
      with them, its mouseleave listener and its `expanded-temp` mark; no
      `checked` state, no handler and no class other than `expanded-temp`
      changes, so no block is expanded or collapsed by it; a button that
      does not hear it, or has no click listener, is untouched. */
  function ClickAt(d: Doc, x: NodeId): (r: Doc)
    requires WF(d) && x < |d.nodes|
    ensures WF(r) && SameShape(d, r)
    ensures forall m | 0 <= m < |d.nodes| ::
              && r.nodes[m].checked == d.nodes[m].checked
              && r.nodes[m].handler == d.nodes[m].handler
              && r.nodes[m].classes - {ExpandedTemp} == d.nodes[m].classes - {ExpandedTemp}
              && (Hears(d, x, m) ==> r.nodes[m].clickListeners == 0)
              && (Hears(d, x, m) && d.nodes[m].clickListeners > 0 ==>
                    r.nodes[m].leaveListeners == 0 && ExpandedTemp !in r.nodes[m].classes)
              && (!Hears(d, x, m) || d.nodes[m].clickListeners == 0 ==> r.nodes[m] == d.nodes[m])
  {
    ClickUpToNodes(d, x);
    ClickUpTo(d, x, |d.nodes|)
  }

  lemma ClickUpToNodes(d: Doc, x: NodeId)
    requires WF(d) && x < |d.nodes|
    ensures forall n | 0 <= n < |d.nodes| ::
              ClickUpTo(d, x, |d.nodes|).nodes[n] == if Hears(d, x, n) then Clicked(d.nodes[n]) else d.nodes[n]
  {
    forall n | 0 <= n < |d.nodes|
      ensures ClickUpTo(d, x, |d.nodes|).nodes[n] == if Hears(d, x, n) then Clicked(d.nodes[n]) else d.nodes[n]
    {
      ClickUpToNode(d, x, |d.nodes|, n);
    }
  }

  /** The user clicks the checkbox: the browser flips `checked`, the click
      reaches the click listeners of every block around the checkbox, then
      the change handler runs. */
  function ToggleDoc(d: Doc, b: NodeId): (r: Doc)
    requires WF(d) && b < |d.nodes| && d.nodes[b].handler.Installed? && ButtonOk(d, b)
    ensures WF(r) && SameShape(d, r)
  {
    var d1 := SetChecked(d, b, !d.nodes[b].checked);
    var d2 := ClickAt(d1, b);
    assert d2.nodes[b].handler == d.nodes[b].handler;
    ChangedDoc(d2, b)
  }

  lemma HoverKeepsOk(d: Doc, b: NodeId)
    requires WF(d) && ButtonsOk(d) && b < |d.nodes| && d.nodes[b].handler.Installed?
    ensures ButtonsOk(HoverDoc(d, b))
  {
    var r := HoverDoc(d, b);
    forall n | 0 <= n < |r.nodes| ensures ButtonOk(r, n) {
      assert ButtonOk(d, n);
      HoverNode(d, b, n);
      ButtonOkFrame(d, r, n);
    }
  }

  /** The hover preview changes the listeners and the `checked` state of
      its own button only, and keeps that button in order. */
  lemma HoverNode(d: Doc, b: NodeId, n: NodeId)
    requires WF(d) && b < |d.nodes| && d.nodes[b].handler.Installed? && ButtonOk(d, b) && n < |d.nodes|
    requires ListenersOk(d.nodes[n])
    ensures var r := HoverDoc(d, b);
            r.nodes[n].handler == d.nodes[n].handler && ListenersOk(r.nodes[n])
  {
    if !d.nodes[b].checked && d.nodes[b].handler.block.Some? {
      var d1 := SetChecked(d, b, true);
      var d3 := AddClass(ToggleClass(d1, d.nodes[b].handler.block.value, Expanded, true), b, ExpandedTemp);
      assert d3.nodes[n].handler == d1.nodes[n].handler;
      assert d3.nodes[n].leaveListeners == d.nodes[n].leaveListeners;
      assert d3.nodes[n].clickListeners == d.nodes[n].clickListeners;
    }
  }

  lemma LeaveKeepsOk(d: Doc, b: NodeId)
    requires WF(d) && ButtonsOk(d) && b < |d.nodes|
    ensures ButtonsOk(LeaveDoc(d, b))
  {
    var r := LeaveDoc(d, b);
    forall n | 0 <= n < |r.nodes| ensures ButtonOk(r, n) {
      assert ButtonOk(d, n);
      ButtonOkFrame(d, r, n);
    }
  }

  lemma ClickKeepsOk(d: Doc, x: NodeId)
    requires WF(d) && ButtonsOk(d) && x < |d.nodes|
    ensures ButtonsOk(ClickAt(d, x))
  {
    var r := ClickAt(d, x);
    forall n | 0 <= n < |r.nodes| ensures ButtonOk(r, n) {
      assert ButtonOk(d, n);
      ButtonOkFrame(d, r, n);
    }
  }

  lemma ToggleKeepsOk(d: Doc, b: NodeId)
    requires WF(d) && ButtonsOk(d) && b < |d.nodes| && d.nodes[b].handler.Installed?
    ensures ButtonsOk(ToggleDoc(d, b))
  {
    var d2 := ClickAt(SetChecked(d, b, !d.nodes[b].checked), b);
    FlipThenClickOk(d, b);
    assert ButtonOk(d2, b);
    var r := ChangedDoc(d2, b);
    ChangedKeepsButtons(d2, b);
    forall n | 0 <= n < |r.nodes| ensures ButtonOk(r, n) {
      assert ButtonOk(d2, n);
      ButtonOkFrame(d2, r, n);
    }
  }

  /** Flipping `checked` may leave the button with a mouseleave listener
      while unchecked, but the click that flipped it reaches that listener's
      partner on the enclosing block, which removes it. */
  lemma FlipThenClickOk(d: Doc, b: NodeId)
    requires WF(d) && ButtonsOk(d) && b < |d.nodes| && d.nodes[b].handler.Installed?
    ensures ButtonsOk(ClickAt(SetChecked(d, b, !d.nodes[b].checked), b))
  {
    var d2 := ClickAt(SetChecked(d, b, !d.nodes[b].checked), b);
    forall n | 0 <= n < |d2.nodes| ensures ButtonOk(d2, n) {
      FlipThenClickNode(d, b, n);
    }
  }

  lemma FlipThenClickNode(d: Doc, b: NodeId, n: NodeId)
    requires WF(d) && b < |d.nodes| && ButtonOk(d, b) && d.nodes[b].handler.Installed?
    requires n < |d.nodes| && ButtonOk(d, n)
    ensures ButtonOk(ClickAt(SetChecked(d, b, !d.nodes[b].checked), b), n)
  {
    var d1 := SetChecked(d, b, !d.nodes[b].checked);
    var d2 := ClickAt(d1, b);
    SameShapeChain(d, d1, b);
    ClickUpToNode(d1, b, |d1.nodes|, n);
    if n == b && d.nodes[b].clickListeners > 0 {
      assert Hears(d1, b, b);
    }
    ButtonOkFrame(d, d2, n);
  }

  /** A click inside a block makes a preview of it permanent: a button
      whose listeners hear the click keeps its `checked` state but loses
      its preview listeners and its `expanded-temp` mark, so the mouse
      leaving afterwards changes nothing. */
  lemma ClickSettles(d: Doc, x: NodeId, n: NodeId)
    requires WF(d) && ButtonsOk(d) && x < |d.nodes| && n < |d.nodes| && Hears(d, x, n)
    ensures var r := ClickAt(d, x);
            && r.nodes[n].leaveListeners == 0 && r.nodes[n].clickListeners == 0
            && r.nodes[n].checked == d.nodes[n].checked
            && (d.nodes[n].clickListeners > 0 ==> ExpandedTemp !in r.nodes[n].classes)
            && ButtonOk(r, n) && LeaveDoc(r, n) == r
  {
    ClickKeepsOk(d, x);
    assert ButtonOk(d, n);
  }

  /** Clicking a checkbox nested in a block that another button is
      previewing makes that preview permanent too: afterwards the outer
      button has no preview listener left and the mouse leaving the outer
      block changes nothing. */
  lemma ToggleSettles(d: Doc, b: NodeId, n: NodeId)
    requires WF(d) && ButtonsOk(d) && b < |d.nodes| && d.nodes[b].handler.Installed?
    requires n < |d.nodes| && Hears(d, b, n)
    ensures var r := ToggleDoc(d, b);
            && r.nodes[n].leaveListeners == 0 && r.nodes[n].clickListeners == 0
            && ButtonOk(r, n) && LeaveDoc(r, n) == r
  {
    ToggleKeepsOk(d, b);
    var d1 := SetChecked(d, b, !d.nodes[b].checked);
    SameShapeChain(d, d1, b);
    assert Hears(d1, b, n);
  }

  /** A preview that ends with the mouse leaving the block puts everything
      back as it was, except that the click listener stays on the block. */
  lemma PreviewThenLeave(d: Doc, b: NodeId)
    requires WF(d) && b < |d.nodes| && ButtonOk(d, b)
    requires d.nodes[b].handler.Installed? && d.nodes[b].handler.block.Some?
    requires var k := d.nodes[b].handler.block.value;
             && k != b && IsCollapsed(d, k) && d.nodes[k].hasClassAttr
             && !d.nodes[b].checked && ExpandedTemp !in d.nodes[b].classes && d.nodes[b].hasClassAttr
    ensures var h := HoverDoc(d, b);
            ButtonOk(h, b) &&
            var r := LeaveDoc(h, b);
            && r.nodes[b] == d.nodes[b].(clickListeners := d.nodes[b].clickListeners + 1)
            && forall m | 0 <= m < |d.nodes| && m != b :: r.nodes[m] == d.nodes[m]
  {
    var k := d.nodes[b].handler.block.value;
    var h := HoverDoc(d, b);
    assert h.nodes[b].leaveListeners == 1;
    ButtonOkFrame(d, h, b);
    var r := LeaveDoc(h, b);
    assert d.nodes[b].classes + {ExpandedTemp} - {ExpandedTemp} == d.nodes[b].classes;
    assert d.nodes[k].classes + {Expanded} - {Expanded} == d.nodes[k].classes;
  }

  /** A preview that ends with a click inside the block leaves it expanded
      for good: the button checked, the block `expanded`, the preview marker
      and every preview listener gone. When the button is the block's
      disclosure button and had no stale click listener, that is exactly the
      state a reveal leaves the block in. */
  lemma PreviewThenClick(d: Doc, b: NodeId)
    requires WF(d) && b < |d.nodes| && ButtonOk(d, b)
    requires d.nodes[b].handler.Installed? && d.nodes[b].handler.block.Some?
    requires var k := d.nodes[b].handler.block.value;
             && k != b && !d.nodes[b].checked && ExpandedTemp !in d.nodes[b].classes && d.nodes[b].hasClassAttr
    ensures var k, r := d.nodes[b].handler.block.value, ClickDoc(HoverDoc(d, b), b);
            && r.nodes[b] == d.nodes[b].(checked := true, clickListeners := 0)
            && r.nodes[k] == d.nodes[k].(classes := d.nodes[k].classes + {Expanded}, hasClassAttr := true)
            && (forall m | 0 <= m < |d.nodes| && m != b && m != k :: r.nodes[m] == d.nodes[m])
            && (ButtonOf(d, k) == Some(b) && d.nodes[b].clickListeners == 0 ==> r == ExpandBlock(d, k))
  {
    var k := d.nodes[b].handler.block.value;
    var h := HoverDoc(d, b);
    var r := ClickDoc(h, b);
    assert d.nodes[b].classes + {ExpandedTemp} - {ExpandedTemp} == d.nodes[b].classes;
    if ButtonOf(d, k) == Some(b) && d.nodes[b].clickListeners == 0 {
      var e := ExpandBlock(d, k);
      assert Btn(d, k) == b;
      assert r.nodes == e.nodes;
    }
  }

  /** The timer of the mouseenter listener fires. Returns false when the
      handler throws. */
  method HoverFire(page: Page, b: NodeId) returns (ok: bool)
    requires page.Valid() && b < |page.doc.nodes| && page.doc.nodes[b].handler.Installed?
    requires ButtonOk(page.doc, b)
    modifies page
    ensures page.Valid() && page.doc == HoverDoc(old(page.doc), b)
    ensures ok == (old(page.doc.nodes[b].checked) || old(page.doc.nodes[b].handler.block.Some?))
    ensures page.events == old(page.events) +
              (if !old(page.doc.nodes[b].checked) && ok then [ChangeEvent] else [])
  {
    if page.doc.nodes[b].checked {
      return true;
    }
    page.doc := SetChecked(page.doc, b, true);
    ok := StateChanged(page, b);
    if !ok {
      return;
    }
    page.doc := AddClass(page.doc, b, ExpandedTemp);
    var nd := page.doc.nodes[b];
    page.doc := Update(page.doc, b, nd.(leaveListeners := nd.leaveListeners + 1,
                                         clickListeners := nd.clickListeners + 1));
  }

  /** The mouse leaves the button's block. */
  method BlockMouseLeave(page: Page, b: NodeId)
    requires page.Valid() && b < |page.doc.nodes| && ButtonOk(page.doc, b)
    modifies page
    ensures page.Valid() && page.doc == LeaveDoc(old(page.doc), b)
    ensures page.events == old(page.events) +
              (if old(page.doc.nodes[b].leaveListeners) == 0 then [] else [ChangeEvent])
  {
    if page.doc.nodes[b].leaveListeners == 0 {
      return;
    }
    page.doc := SetChecked(page.doc, b, false);
    var ok := StateChanged(page, b);
    page.doc := RemoveClasses(page.doc, b, {ExpandedTemp});
    var nd := page.doc.nodes[b];
    page.doc := Update(page.doc, b, nd.(leaveListeners := nd.leaveListeners - 1));
  }

  /** The click listeners on button `b`'s block run. */
  method BlockClick(page: Page, b: NodeId)
    requires page.Valid() && b < |page.doc.nodes|
    modifies page
    ensures page.Valid() && page.doc == ClickDoc(old(page.doc), b)
    ensures page.events == old(page.events)
  {
    if page.doc.nodes[b].clickListeners == 0 {
      return;
    }
    page.doc := RemoveClasses(page.doc, b, {ExpandedTemp});
    var nd := page.doc.nodes[b];
    page.doc := Update(page.doc, b, nd.(leaveListeners := 0, clickListeners := 0));
  }

  /** A click on `x` bubbles up the tree: the click listeners on every
      block it passes through run, in node order (each touches only its own
      button, so the order does not matter). */
  method Click(page: Page, x: NodeId)
    requires page.Valid() && x < |page.doc.nodes|
    modifies page
    ensures page.Valid() && page.doc == ClickAt(old(page.doc), x)
    ensures page.events == old(page.events)
  {
    ghost var d0 := page.doc;
    var n := 0;
    while n < |page.doc.nodes|
      invariant page.Valid() && 0 <= n <= |d0.nodes| && page.doc == ClickUpTo(d0, x, n)
      invariant page.events == old(page.events)
    {
      ClickUpToStep(d0, x, n);
      if Hears(page.doc, x, n) {
        BlockClick(page, n);
      }
      n := n + 1;
    }
  }

  /** The user clicks the checkbox itself. Returns false when the handler
      throws. */
  method UserToggle(page: Page, b: NodeId) returns (ok: bool)
    requires page.Valid() && b < |page.doc.nodes| && page.doc.nodes[b].handler.Installed?
    requires ButtonOk(page.doc, b)
    modifies page
    ensures page.Valid() && page.doc == ToggleDoc(old(page.doc), b)
    ensures ok == old(page.doc.nodes[b].handler.block.Some?)
    ensures page.events == old(page.events) + (if ok then [ChangeEvent] else [])
  {
    page.doc := SetChecked(page.doc, b, !page.doc.nodes[b].checked);
    Click(page, b);
    ok := StateChanged(page, b);
  }
}
