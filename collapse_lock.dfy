/**
  `expandLockCollapseBlocks` in js/collapse.js: where collapsing is not
  allowed, the disclosure buttons are removed and every collapse block is
  turned back into an ordinary block, unwrapping a redundant DIV on the way.
*/
module CollapseLock {
  import opened Dom
  import opened DomEdit
  import opened CollapseState
  import opened CollapseReveal

  const LockEvent := Event("Collapse.collapseStateDidChange", Some("Collapse.expandLockCollapseBlocks"))

  /** `isOnlyChild(n)`: `n` is the single child node of its parent. */
  predicate IsOnlyChild(d: Doc, n: NodeId)
    requires WF(d) && n < |d.nodes|
  {
    assert NodeOk(d, n);
    d.nodes[n].parent.Some? && d.nodes[d.nodes[n].parent.value].children == [n]
  }

  /** `className == ""`: no class at all. */
  predicate Classless(d: Doc, n: NodeId)
    requires n < |d.nodes|
  {
    d.nodes[n].classes == {}
  }

  /*
    Removing the buttons.
  */

  /** `remove()` on each of `bs` in turn. */
  function RemoveAll(d: Doc, bs: seq<NodeId>): (r: Doc)
    requires WF(d) && forall b | b in bs :: b < |d.nodes|
    ensures WF(r) && |r.nodes| == |d.nodes|
    decreases |bs|
  {
    if bs == [] then d
    else
      assert bs[0] in bs && forall b | b in bs[1..] :: b in bs;
      RemoveAll(Detach(d, bs[0]), bs[1..])
  }

  /** Detaching never gives a detached node a parent, nor touches a class. */
  lemma DetachKeeps(d: Doc, x: NodeId)
    requires WF(d) && x < |d.nodes|
    ensures var r := Detach(d, x);
            forall m | 0 <= m < |d.nodes| ::
              && r.nodes[m].classes == d.nodes[m].classes
              && (d.nodes[m].parent.None? ==> r.nodes[m].parent.None?)
  {
  }

  /** Every removed button is out of the tree; classes are untouched and
      nothing that was detached gets attached. */
  lemma {:induction false} RemoveAllEffect(d: Doc, bs: seq<NodeId>)
    requires WF(d) && forall b | b in bs :: b < |d.nodes|
    ensures var r := RemoveAll(d, bs);
            && (forall b | b in bs :: r.nodes[b].parent.None?)
            && forall m | 0 <= m < |d.nodes| ::
                 && r.nodes[m].classes == d.nodes[m].classes
                 && (d.nodes[m].parent.None? ==> r.nodes[m].parent.None?)
    decreases |bs|
  {
    if bs != [] {
      assert bs[0] in bs && forall b | b in bs[1..] :: b in bs;
      var d1 := Detach(d, bs[0]);
      DetachKeeps(d, bs[0]);
      RemoveAllEffect(d1, bs[1..]);
      forall b | b in bs ensures RemoveAll(d, bs).nodes[b].parent.None? {
        assert b == bs[0] || b in bs[1..];
      }
    }
  }

  /*
    Flattening one block.
  */

  /** What is left after one block: the document, whether the JS went on
      (it throws on a block without an element child, after the classes are
      already gone), and whether the block was collapsed. */
  datatype LockStep = LockStep(doc: Doc, ok: bool, wasCollapsed: bool)

  /** One block: strip `collapse` and `expanded` (and an emptied `class`
      attribute); then unwrap its first element child when that is a
      classless DIV and an only child, or else unwrap the block itself when
      it is now a classless DIV whose first element child is an only
      child. */
  function LockOne(d: Doc, c: NodeId): (s: LockStep)
    requires WF(d) && c < |d.nodes|
    ensures WF(s.doc) && |s.doc.nodes| == |d.nodes|
    ensures s.wasCollapsed == IsCollapsed(d, c)
  {
    var wasCollapsed := IsCollapsed(d, c);
    var d1 := DropClasses(d, c, {Collapse, Expanded});
    match FirstElementChild(d1, c)
    case None => LockStep(d1, false, wasCollapsed)
    case Some(f) =>
      match UnwrapTarget(d1, c, f)
      case None => LockStep(d1, true, wasCollapsed)
      case Some(x) => LockStep(Unwrap(d1, x), true, wasCollapsed)
  }

  /** Which element, if any, the block's flattening unwraps, once its
      classes are stripped and `f` is its first element child. */
  function UnwrapTarget(d: Doc, c: NodeId, f: NodeId): (x: Option<NodeId>)
    requires WF(d) && c < |d.nodes| && FirstElementChild(d, c) == Some(f)
    ensures x.Some? ==> x.value < |d.nodes|
  {
    assert f in d.nodes[c].children && NodeOk(d, c);
    if HasTag(d, f, "DIV") && Classless(d, f) && IsOnlyChild(d, f) then Some(f)
    else if HasTag(d, c, "DIV") && Classless(d, c) && IsOnlyChild(d, f) then Some(c)
    else None
  }

  /** Unwrapping moves nodes but never touches a class, and a detached node
      stays detached. */
  lemma UnwrapKeeps(d: Doc, x: NodeId)
    requires WF(d) && x < |d.nodes|
    ensures var r := Unwrap(d, x);
            forall m | 0 <= m < |d.nodes| ::
              && r.nodes[m].classes == d.nodes[m].classes
              && (d.nodes[m].parent.None? ==> r.nodes[m].parent.None?)
  {
    var r := Unwrap(d, x);
    UnwrapEffect(d, x);
    forall m | 0 <= m < |d.nodes|
      ensures r.nodes[m].classes == d.nodes[m].classes
      ensures d.nodes[m].parent.None? ==> r.nodes[m].parent.None?
    {
      assert NodeOk(d, m) && NodeOk(d, x);
    }
  }

  /** The block loses `collapse` and `expanded`, keeps its other classes, and
      no other node's classes change; detached nodes stay detached. The JS
      throws exactly when the block has no element child. */
  lemma LockOneEffect(d: Doc, c: NodeId)
    requires WF(d) && c < |d.nodes|
    ensures var s := LockOne(d, c);
            && (s.ok <==> FirstElementChild(d, c).Some?)
            && s.doc.nodes[c].classes == d.nodes[c].classes - {Collapse, Expanded}
            && forall m | 0 <= m < |d.nodes| ::
                 && (m != c ==> s.doc.nodes[m].classes == d.nodes[m].classes)
                 && (d.nodes[m].parent.None? ==> s.doc.nodes[m].parent.None?)
  {
    var d1 := DropClasses(d, c, {Collapse, Expanded});
    FirstChildFrame(d, d1, c);
    match FirstElementChild(d1, c)
    case None =>
    case Some(f) =>
      match UnwrapTarget(d1, c, f)
      case None =>
      case Some(x) => UnwrapKeeps(d1, x);
  }

  lemma FirstChildFrame(d: Doc, e: Doc, c: NodeId)
    requires SameShape(d, e) && c < |d.nodes|
    ensures FirstElementChild(e, c) == FirstElementChild(d, c)
  {
    ElementsFrame(d, e, d.nodes[c].children);
  }

  lemma {:induction false} ElementsFrame(d: Doc, e: Doc, s: seq<NodeId>)
    requires |d.nodes| == |e.nodes| && forall m | 0 <= m < |d.nodes| :: d.nodes[m].kind == e.nodes[m].kind
    ensures ElementsOf(d, s) == ElementsOf(e, s)
  {
    if s != [] {
      ElementsFrame(d, e, s[1..]);
    }
  }

  /** The redundant DIV goes away: when the first element child is a
      classless DIV and an only child, the block ends up holding that DIV's
      child nodes directly and the DIV is out of the tree. */
  lemma LockUnwrapsChild(d: Doc, c: NodeId, f: NodeId)
    requires WF(d) && c < |d.nodes|
    requires FirstElementChild(d, c) == Some(f) && HasTag(d, f, "DIV") && Classless(d, f) && IsOnlyChild(d, f)
    ensures var s := LockOne(d, c);
            && s.ok
            && s.doc.nodes[c].children == d.nodes[f].children
            && s.doc.nodes[f].parent.None? && s.doc.nodes[f].children == []
  {
    var d1 := DropClasses(d, c, {Collapse, Expanded});
    assert f in d.nodes[c].children && NodeOk(d, c);
    ElementsFrame(d, d1, d.nodes[c].children);
    assert d1.nodes[f] == d.nodes[f];
    assert UnwrapTarget(d1, c, f) == Some(f);
    assert d1.nodes[c].children == [f];
    UnwrapOnlyChild(d1, c, f);
  }

  /** Unwrapping the only child `f` of `c` hands `f`'s children to `c`. */
  lemma UnwrapOnlyChild(d: Doc, c: NodeId, f: NodeId)
    requires WF(d) && c < |d.nodes| && f < |d.nodes|
    requires d.nodes[f].parent == Some(c) && d.nodes[c].children == [f]
    ensures var r := Unwrap(d, f);
            && r.nodes[c].children == d.nodes[f].children
            && r.nodes[f].parent.None? && r.nodes[f].children == []
  {
    UnwrapEffect(d, f);
    assert IndexOf([f], f) == 0;
    assert [f][..0] + d.nodes[f].children + [f][1..] == d.nodes[f].children;
  }

  /** Otherwise, a block that is now a classless DIV around an only child
      is itself replaced by its child nodes, in its place. */
  lemma LockUnwrapsBlock(d: Doc, c: NodeId, f: NodeId)
    requires WF(d) && c < |d.nodes| && d.nodes[c].parent.Some?
    requires FirstElementChild(d, c) == Some(f) && !(HasTag(d, f, "DIV") && Classless(d, f))
    requires HasTag(d, c, "DIV") && d.nodes[c].classes <= {Collapse, Expanded} && f < |d.nodes| && IsOnlyChild(d, f)
    ensures var s, p := LockOne(d, c), d.nodes[c].parent.value;
            && s.ok && p < |d.nodes|
            && s.doc.nodes[c].parent.None? && s.doc.nodes[c].children == []
            && var u := d.nodes[p].children;
               c in u && s.doc.nodes[p].children == u[..IndexOf(u, c)] + [f] + u[IndexOf(u, c) + 1..]
  {
    var d1 := DropClasses(d, c, {Collapse, Expanded});
    BlockBecomesWrapper(d, c, f);
    LockOneFlattened(d, c, f, Unwrap(d1, c));
    UnwrapAround(d1, c, f);
  }

  /** Once its classes are dropped, such a block is the node to unwrap, and
      dropping them moved nothing. */
  lemma BlockBecomesWrapper(d: Doc, c: NodeId, f: NodeId)
    requires WF(d) && c < |d.nodes| && d.nodes[c].parent.Some?
    requires FirstElementChild(d, c) == Some(f) && !(HasTag(d, f, "DIV") && Classless(d, f))
    requires HasTag(d, c, "DIV") && d.nodes[c].classes <= {Collapse, Expanded} && f < |d.nodes| && IsOnlyChild(d, f)
    ensures var d1, p := DropClasses(d, c, {Collapse, Expanded}), d.nodes[c].parent.value;
            && WF(d1) && FirstElementChild(d1, c) == Some(f) && UnwrapTarget(d1, c, f) == Some(c)
            && d1.nodes[c].children == [f] && d1.nodes[c].parent == d.nodes[c].parent
            && p < |d.nodes| && d1.nodes[p] == d.nodes[p]
  {
    var d1 := DropClasses(d, c, {Collapse, Expanded});
    assert f in d.nodes[c].children && NodeOk(d, c);
    ElementsFrame(d, d1, d.nodes[c].children);
    assert d1.nodes[f] == d.nodes[f];
    assert d1.nodes[c].classes == {};
    var p := d.nodes[c].parent.value;
    assert NodeOk(d, p);
  }

  /** Unwrapping `c`, whose only child is `f`, puts `f` in `c`'s place. */
  lemma UnwrapAround(d: Doc, c: NodeId, f: NodeId)
    requires WF(d) && c < |d.nodes| && d.nodes[c].parent.Some? && d.nodes[c].children == [f]
    ensures var r, p := Unwrap(d, c), d.nodes[c].parent.value;
            && p < |d.nodes|
            && r.nodes[c].parent.None? && r.nodes[c].children == []
            && var u := d.nodes[p].children;
               c in u && r.nodes[p].children == u[..IndexOf(u, c)] + [f] + u[IndexOf(u, c) + 1..]
  {
    UnwrapEffect(d, c);
  }

  /*
    The loop over the blocks.
  */

  /** The loop from some block on: the document, whether every block was
      handled, and how many notifications fired. */
  datatype LockRun = LockRun(doc: Doc, completed: bool, fired: nat)

  function LockFrom(d: Doc, cs: seq<NodeId>): (run: LockRun)
    requires WF(d) && forall c | c in cs :: c < |d.nodes|
    ensures WF(run.doc) && |run.doc.nodes| == |d.nodes|
    decreases |cs|
  {
    if cs == [] then LockRun(d, true, 0)
    else
      assert cs[0] in cs && forall c | c in cs[1..] :: c in cs;
      var s := LockOne(d, cs[0]);
      if !s.ok then LockRun(s.doc, false, 0)
      else
        var rest := LockFrom(s.doc, cs[1..]);
        LockRun(rest.doc, rest.completed, (if s.wasCollapsed then 1 else 0) + rest.fired)
  }

  /** How many of `cs` lack `expanded`. */
  function CountCollapsed(d: Doc, cs: seq<NodeId>): (n: nat)
    ensures n <= |cs|
  {
    if cs == [] then 0 else (if IsCollapsed(d, cs[0]) then 1 else 0) + CountCollapsed(d, cs[1..])
  }

  lemma {:induction false} CountFrame(d: Doc, e: Doc, cs: seq<NodeId>)
    requires forall c | c in cs :: IsCollapsed(d, c) == IsCollapsed(e, c)
    ensures CountCollapsed(d, cs) == CountCollapsed(e, cs)
  {
    if cs != [] {
      assert cs[0] in cs;
      CountFrame(d, e, cs[1..]);
    }
  }

  /** After a complete run no listed block carries `collapse` or `expanded`,
      no other node's classes changed, and the nodes detached before are
      still detached. One notification fired per block that lacked
      `expanded`, not one per run. */
  lemma LockFromEffect(d: Doc, cs: seq<NodeId>)
    requires WF(d) && (forall c | c in cs :: c < |d.nodes|) && NoDup(cs)
    ensures var run := LockFrom(d, cs);
            && (run.completed ==> run.fired == CountCollapsed(d, cs))
            && (run.completed ==> forall c | c in cs :: run.doc.nodes[c].classes == d.nodes[c].classes - {Collapse, Expanded})
            && forall m | 0 <= m < |d.nodes| ::
                 && (m !in cs ==> run.doc.nodes[m].classes == d.nodes[m].classes)
                 && (d.nodes[m].parent.None? ==> run.doc.nodes[m].parent.None?)
  {
    LockFromFrame(d, cs);
    LockFromFired(d, cs);
    LockFromStripped(d, cs);
  }

  /** Blocks not listed keep their classes, and no detached node is
      reattached. */
  lemma {:induction false} LockFromFrame(d: Doc, cs: seq<NodeId>)
    requires WF(d) && forall c | c in cs :: c < |d.nodes|
    ensures var run := LockFrom(d, cs);
            forall m | 0 <= m < |d.nodes| ::
              && (m !in cs ==> run.doc.nodes[m].classes == d.nodes[m].classes)
              && (d.nodes[m].parent.None? ==> run.doc.nodes[m].parent.None?)
    decreases |cs|
  {
    if cs != [] {
      var c0, rest := cs[0], cs[1..];
      assert c0 in cs;
      SliceIn(cs, 1);
      var s := LockOne(d, c0);
      LockOneEffect(d, c0);
      LockFromUnfold(d, cs);
      if s.ok {
        LockFromFrame(s.doc, rest);
      }
    }
  }

  /** A complete run fires once per listed block that lacked `expanded`. */
  lemma {:induction false} LockFromFired(d: Doc, cs: seq<NodeId>)
    requires WF(d) && (forall c | c in cs :: c < |d.nodes|) && NoDup(cs)
    ensures var run := LockFrom(d, cs);
            run.completed ==> run.fired == CountCollapsed(d, cs)
    decreases |cs|
  {
    if cs != [] {
      var c0, rest := cs[0], cs[1..];
      NoDupTail(cs);
      var s := LockOne(d, c0);
      LockOneEffect(d, c0);
      LockFromUnfold(d, cs);
      if s.ok {
        LockFromFired(s.doc, rest);
        forall c | c in rest ensures IsCollapsed(s.doc, c) == IsCollapsed(d, c) {
          assert c != c0;
        }
        CountFrame(s.doc, d, rest);
      }
    }
  }

  /** After a complete run every listed block has lost `collapse` and
      `expanded`, and kept its other classes. */
  lemma {:induction false} LockFromStripped(d: Doc, cs: seq<NodeId>)
    requires WF(d) && (forall c | c in cs :: c < |d.nodes|) && NoDup(cs)
    ensures var run := LockFrom(d, cs);
            run.completed ==> forall c | c in cs :: run.doc.nodes[c].classes == d.nodes[c].classes - {Collapse, Expanded}
    decreases |cs|
  {
    if cs != [] {
      var c0, rest := cs[0], cs[1..];
      NoDupTail(cs);
      var s := LockOne(d, c0);
      LockOneEffect(d, c0);
      LockFromUnfold(d, cs);
      if s.ok {
        LockFromStripped(s.doc, rest);
        LockFromFrame(s.doc, rest);
        var run := LockFrom(s.doc, rest);
        forall c | c in cs
          ensures run.completed ==> run.doc.nodes[c].classes == d.nodes[c].classes - {Collapse, Expanded}
        {
          if c != c0 {
            assert c in rest;
          }
        }
      }
    }
  }

  /** The tail of a list without repeats has none either, and lacks the
      head. */
  lemma NoDupTail(cs: seq<NodeId>)
    requires cs != [] && NoDup(cs)
    ensures NoDup(cs[1..]) && cs[0] !in cs[1..] && cs[0] in cs
    ensures forall c | c in cs[1..] :: c in cs
  {
    var rest := cs[1..];
    forall i, j | 0 <= i < j < |rest| ensures rest[i] != rest[j] {
      assert rest[i] == cs[i + 1] && rest[j] == cs[j + 1];
    }
    forall i | 0 <= i < |rest| ensures rest[i] != cs[0] {
      assert rest[i] == cs[i + 1];
    }
  }

  /** `expandLockCollapseBlocks`: `buttons` are the fragment's
      `.disclosure-button` elements and `blocks` its `.collapse` elements
      (looked up once the buttons are gone), both in document order.
      Returns false when the JS throws part way. */
  method ExpandLockCollapseBlocks(page: Page, buttons: seq<NodeId>, blocks: seq<NodeId>) returns (completed: bool)
    requires page.Valid()
    requires (forall b | b in buttons :: b < |page.doc.nodes|) && forall c | c in blocks :: c < |page.doc.nodes|
    modifies page
    ensures var run := LockFrom(RemoveAll(old(page.doc), buttons), blocks);
            && page.Valid() && page.doc == run.doc && completed == run.completed
            && page.events == old(page.events) + Repeat(LockEvent, run.fired)
  {
    RemoveButtons(page, buttons);
    completed := FlattenBlocks(page, blocks);
  }

  /** The first loop: every disclosure button is removed. */
  method RemoveButtons(page: Page, buttons: seq<NodeId>)
    requires page.Valid() && forall b | b in buttons :: b < |page.doc.nodes|
    modifies page
    ensures page.Valid() && page.doc == RemoveAll(old(page.doc), buttons)
    ensures page.events == old(page.events)
  {
    ghost var d0 := page.doc;
    var i := 0;
    while i < |buttons|
      invariant 0 <= i <= |buttons| && page.Valid() && |page.doc.nodes| == |d0.nodes|
      invariant forall b | b in buttons :: b < |page.doc.nodes|
      invariant forall b | b in buttons[i..] :: b in buttons
      invariant RemoveAll(page.doc, buttons[i..]) == RemoveAll(d0, buttons)
      invariant page.events == old(page.events)
    {
      ghost var prev := page.doc;
      SliceIn(buttons, i + 1);
      assert buttons[i..][0] == buttons[i] && buttons[i..][1..] == buttons[i + 1..];
      assert buttons[i] in buttons;
      page.doc := Detach(page.doc, buttons[i]);
      assert RemoveAll(prev, buttons[i..]) == RemoveAll(page.doc, buttons[i + 1..]);
      i := i + 1;
    }
  }

  /** The second loop: every block is flattened, and a notification fires
      for each one that was collapsed. */
  method FlattenBlocks(page: Page, blocks: seq<NodeId>) returns (completed: bool)
    requires page.Valid() && forall c | c in blocks :: c < |page.doc.nodes|
    modifies page
    ensures var run := LockFrom(old(page.doc), blocks);
            && page.Valid() && page.doc == run.doc && completed == run.completed
            && page.events == old(page.events) + Repeat(LockEvent, run.fired)
  {
    ghost var evs := page.events;
    ghost var goal := LockFrom(page.doc, blocks);
    ghost var fired := 0;
    assert evs + Repeat(LockEvent, 0) == evs;
    var rest: seq<NodeId> := blocks;
    while rest != []
      invariant page.Valid() && forall c | c in rest :: c < |page.doc.nodes|
      invariant goal == Shifted(LockFrom(page.doc, rest), fired)
      invariant page.events == evs + Repeat(LockEvent, fired)
      decreases |rest|
    {
      var ok;
      ok, fired := FlattenFirst(page, rest, goal, evs, fired);
      if !ok {
        return false;
      }
      rest := rest[1..];
    }
    LockFromEmpty(page.doc);
    completed := true;
  }

  /** One pass of the second loop: flattens the first of `rest` and keeps
      the relation between the whole run and what remains. */
  method FlattenFirst(page: Page, rest: seq<NodeId>, ghost goal: LockRun, ghost evs: seq<Event>, ghost fired: nat)
    returns (ok: bool, ghost fired': nat)
    requires page.Valid() && rest != [] && forall c | c in rest :: c < |page.doc.nodes|
    requires goal == Shifted(LockFrom(page.doc, rest), fired)
    requires page.events == evs + Repeat(LockEvent, fired)
    modifies page
    ensures page.Valid() && page.events == evs + Repeat(LockEvent, fired')
    ensures ok ==> (forall c | c in rest[1..] :: c < |page.doc.nodes|)
                   && goal == Shifted(LockFrom(page.doc, rest[1..]), fired')
    ensures !ok ==> goal == LockRun(page.doc, false, fired')
  {
    ghost var prev := page.doc;
    assert rest[0] in rest;
    var wasCollapsed;
    ok, wasCollapsed := FlattenBlock(page, rest[0], evs, fired);
    fired' := fired + if ok && wasCollapsed then 1 else 0;
    LockFromStep(goal, prev, rest, fired, page.doc, ok, wasCollapsed);
  }

  /** A run's count of notifications, with `n` more fired before it. */
  function Shifted(run: LockRun, n: nat): LockRun {
    run.(fired := n + run.fired)
  }

  lemma LockFromEmpty(d: Doc)
    requires WF(d)
    ensures LockFrom(d, []) == LockRun(d, true, 0)
  {
  }

  /** One iteration of the second loop, stated on the whole run. */
  lemma LockFromStep(goal: LockRun, d: Doc, cs: seq<NodeId>, fired: nat, d2: Doc, ok: bool, wasCollapsed: bool)
    requires WF(d) && (forall c | c in cs :: c < |d.nodes|) && cs != [] && cs[0] < |d.nodes|
    requires goal == Shifted(LockFrom(d, cs), fired)
    requires LockOne(d, cs[0]) == LockStep(d2, ok, wasCollapsed)
    ensures ok ==> WF(d2) && (forall c | c in cs[1..] :: c < |d2.nodes|)
                   && goal == Shifted(LockFrom(d2, cs[1..]), fired + if wasCollapsed then 1 else 0)
    ensures !ok ==> goal == LockRun(d2, false, fired)
  {
    LockFromUnfold(d, cs);
  }

  lemma LockFromUnfold(d: Doc, cs: seq<NodeId>)
    requires WF(d) && (forall c | c in cs :: c < |d.nodes|) && cs != []
    ensures cs[0] < |d.nodes| && forall c | c in cs[1..] :: c < |d.nodes|
    ensures var s := LockOne(d, cs[0]);
            LockFrom(d, cs) ==
              if s.ok then Shifted(LockFrom(s.doc, cs[1..]), if s.wasCollapsed then 1 else 0)
              else LockRun(s.doc, false, 0)
  {
    assert cs[0] in cs;
    assert forall c | c in cs[1..] :: c in cs;
    var s := LockOne(d, cs[0]);
    if s.ok {
      var rest := LockFrom(s.doc, cs[1..]);
      assert LockFrom(d, cs) == LockRun(rest.doc, rest.completed, (if s.wasCollapsed then 1 else 0) + rest.fired);
    }
  }

  /** The body of the second loop: the block is flattened, then the
      notification fires when it was collapsed. */
  method FlattenBlock(page: Page, c: NodeId, ghost evs: seq<Event>, ghost fired: nat) returns (ok: bool, wasCollapsed: bool)
    requires page.Valid() && c < |page.doc.nodes|
    requires page.events == evs + Repeat(LockEvent, fired)
    modifies page
    ensures page.Valid() && LockOne(old(page.doc), c) == LockStep(page.doc, ok, wasCollapsed)
    ensures page.events == evs + Repeat(LockEvent, fired + if ok && wasCollapsed then 1 else 0)
  {
    ghost var before := page.events;
    var doc;
    doc, ok, wasCollapsed := StripBlock(page.doc, c);
    page.doc := doc;
    if !ok {
      return;
    }
    if wasCollapsed {
      Fire(page, LockEvent);
    }
    EventsStep(evs, before, page.events, fired, wasCollapsed, fired + if wasCollapsed then 1 else 0);
  }

  /** The edits of the loop body on the document: strip the classes, stop
      (the JS throws) without an element child, else unwrap the redundant
      DIV if there is one. */
  method StripBlock(d: Doc, c: NodeId) returns (r: Doc, ok: bool, wasCollapsed: bool)
    requires WF(d) && c < |d.nodes|
    ensures WF(r) && LockOne(d, c) == LockStep(r, ok, wasCollapsed)
  {
    wasCollapsed := !HasClass(d, c, Expanded);
    r := DropClasses(d, c, {Collapse, Expanded});
    var first := FirstElementChild(r, c);
    if first.None? {
      return r, false, wasCollapsed;
    }
    var f := first.value;
    ghost var dropped := r;
    assert f in r.nodes[c].children && NodeOk(r, c);
    if HasTag(r, f, "DIV") && Classless(r, f) && IsOnlyChild(r, f) {
      assert UnwrapTarget(dropped, c, f) == Some(f);
      r := Unwrap(r, f);
    } else if HasTag(r, c, "DIV") && Classless(r, c) && IsOnlyChild(r, f) {
      assert UnwrapTarget(dropped, c, f) == Some(c);
      r := Unwrap(r, c);
    } else {
      assert UnwrapTarget(dropped, c, f).None?;
    }
    LockOneFlattened(d, c, f, r);
    ok := true;
  }

  /** `LockOne` when the stripped block has the first element child `f`:
      the document is `r`, whichever unwrapping that was. */
  lemma LockOneFlattened(d: Doc, c: NodeId, f: NodeId, r: Doc)
    requires WF(d) && c < |d.nodes|
    requires var d1 := DropClasses(d, c, {Collapse, Expanded});
             && FirstElementChild(d1, c) == Some(f)
             && match UnwrapTarget(d1, c, f)
                case None => r == d1
                case Some(x) => r == Unwrap(d1, x)
    ensures LockOne(d, c) == LockStep(r, true, IsCollapsed(d, c))
  {
  }

  lemma EventsStep(s0: seq<Event>, s1: seq<Event>, s2: seq<Event>, before: nat, fire: bool, after: nat)
    requires s1 == s0 + Repeat(LockEvent, before)
    requires s2 == if fire then s1 + [LockEvent] else s1
    requires after == before + (if fire then 1 else 0)
    ensures s2 == s0 + Repeat(LockEvent, after)
  {
    if fire {
      assert Repeat(LockEvent, after) == Repeat(LockEvent, before) + [LockEvent];
    }
  }

  lemma SliceIn(s: seq<NodeId>, i: nat)
    requires i <= |s|
    ensures forall x | x in s[i..] :: x in s
  {
    forall x | x in s[i..] ensures x in s {
      var k :| 0 <= k < |s[i..]| && s[i..][k] == x;
      assert s[i + k] == x;
    }
  }

  /** When the lock completes: the removed buttons are out of the tree, no
      listed block keeps `collapse` or `expanded`, other nodes keep their
      classes, and one notification fired per block that lacked `expanded`
      to begin with. */
  lemma ExpandLockEffect(d: Doc, buttons: seq<NodeId>, blocks: seq<NodeId>)
    requires WF(d) && (forall b | b in buttons :: b < |d.nodes|) && (forall c | c in blocks :: c < |d.nodes|)
    requires NoDup(blocks)
    ensures var run := LockFrom(RemoveAll(d, buttons), blocks);
            && (forall b | b in buttons :: run.doc.nodes[b].parent.None?)
            && (run.completed ==> run.fired == CountCollapsed(d, blocks))
            && (run.completed ==> forall c | c in blocks ::
                  !HasClass(run.doc, c, Collapse) && !HasClass(run.doc, c, Expanded))
            && forall m | 0 <= m < |d.nodes| && m !in blocks :: run.doc.nodes[m].classes == d.nodes[m].classes
  {
    var d1 := RemoveAll(d, buttons);
    RemoveAllEffect(d, buttons);
    LockFromEffect(d1, blocks);
    forall c | c in blocks ensures IsCollapsed(d1, c) == IsCollapsed(d, c) {
    }
    CountFrame(d1, d, blocks);
  }
}
