/*
  Table wrappers (js/rewrite.js:100-105): every table ends up as the only
  element inside a `div.tableWrapper`. A `div` parent that already holds
  nothing but the table is reused and given the class; otherwise the
  table is wrapped in a new such `div`.
*/
module RewriteTables {
  import opened Dom
  import opened DomEdit

  const TableWrapper := "tableWrapper"

  /** `t` is the only element child of a `div` whose class attribute lists
      `tableWrapper`. */
  ghost predicate Wrapped(d: Doc, t: NodeId)
    requires WF(d) && t < |d.nodes|
  {
    match ParentElement(d, t)
    case None => false
    case Some(q) =>
      && HasTag(d, q, "DIV") && HasClass(d, q, TableWrapper) && d.nodes[q].hasClassAttr
      && ElementChildren(d, q) == [t]
  }

  /** The source's test for reusing the parent: a `div` with exactly one
      element child, which is then the table itself. */
  predicate ReusesParent(d: Doc, t: NodeId)
    requires WF(d) && t < |d.nodes|
  {
    match ParentElement(d, t)
    case None => false
    case Some(p) => HasTag(d, p, "DIV") && |ElementChildren(d, p)| == 1
  }

  /** Old nodes keep their kinds; nodes are only ever added. */
  ghost predicate KindsKept(d: Doc, r: Doc) {
    && |d.nodes| <= |r.nodes|
    && forall n | 0 <= n < |d.nodes| :: r.nodes[n].kind == d.nodes[n].kind
  }

  /** The reuse branch: `classList.toggle("tableWrapper", true)` on the parent. */
  function MarkParent(d: Doc, t: NodeId): (r: Doc)
    requires WF(d) && t < |d.nodes| && ReusesParent(d, t)
    ensures WF(r) && SameShape(d, r)
  {
    ToggleClass(d, ParentElement(d, t).value, TableWrapper, true)
  }

  /** The other branch: the table's markup is put inside a fresh
      `<div class='tableWrapper'>` in its place. */
  function NewWrapper(d: Doc, t: NodeId): (r: Doc)
    requires WF(d) && HasTag(d, t, "TABLE") && ParentElement(d, t).Some?
    ensures WF(r) && |r.nodes| == |d.nodes| + 1
  {
    var p := ParentElement(d, t).value;
    var w := |d.nodes|;
    var d1 := AddNode(d, NewElement("DIV", {TableWrapper}, WrapRank(d, t, p)));
    WrapWith(d1, t, w)
  }

  /** One iteration of the loop over the tables; `None` when the source
      throws (the table has no parent element, so `tagName` is read from
      null). */
  function WrapTable(d: Doc, t: NodeId): (r: Option<Doc>)
    requires WF(d) && HasTag(d, t, "TABLE")
    ensures r.None? <==> ParentElement(d, t).None?
    ensures r.Some? ==> WF(r.value) && Extends(d, r.value) && Wrapped(r.value, t)
    ensures r.Some? ==> forall n | 0 <= n < |d.nodes| && n != t :: r.value.nodes[n].parent == d.nodes[n].parent
    ensures r.Some? ==> (|r.value.nodes| == |d.nodes| <==> ReusesParent(d, t))
    ensures r.Some? ==> |r.value.nodes| <= |d.nodes| + 1
  {
    match ParentElement(d, t)
    case None => None
    case Some(p) =>
      if ReusesParent(d, t) then
        var r := MarkParent(d, t);
        MarkParentEffect(d, t);
        Some(r)
      else
        var r := NewWrapper(d, t);
        NewWrapperEffect(d, t);
        Some(r)
  }

  lemma MarkParentEffect(d: Doc, t: NodeId)
    requires WF(d) && HasTag(d, t, "TABLE") && ReusesParent(d, t)
    ensures var r := MarkParent(d, t);
            && Extends(d, r) && Wrapped(r, t) && |r.nodes| == |d.nodes|
            && forall n | 0 <= n < |d.nodes| :: r.nodes[n].parent == d.nodes[n].parent
  {
    var p := ParentElement(d, t).value;
    var r := MarkParent(d, t);
    SameShapeExtends(d, r);
    SameShapeChain(d, r, t);
    OnlyElementChild(d, t, p);
    SameShapeElements(d, r, p);
  }

  /** A parent the source reuses holds the table as its only element child. */
  lemma OnlyElementChild(d: Doc, t: NodeId, p: NodeId)
    requires WF(d) && HasTag(d, t, "TABLE") && ReusesParent(d, t) && ParentElement(d, t) == Some(p)
    ensures ElementChildren(d, p) == [t]
  {
    assert t in d.nodes[p].children by { assert NodeOk(d, t); }
    assert t in ElementChildren(d, p);
  }

  lemma NewWrapperEffect(d: Doc, t: NodeId)
    requires WF(d) && HasTag(d, t, "TABLE") && ParentElement(d, t).Some?
    ensures var r := NewWrapper(d, t);
            && Extends(d, r) && Wrapped(r, t)
            && forall n | 0 <= n < |d.nodes| && n != t :: r.nodes[n].parent == d.nodes[n].parent
  {
    var p := ParentElement(d, t).value;
    var w := |d.nodes|;
    var d1 := AddNode(d, NewElement("DIV", {TableWrapper}, WrapRank(d, t, p)));
    var r := NewWrapper(d, t);
    assert r == WrapWith(d1, t, w);
    assert r.nodes[t].parent == Some(w);
    assert r.nodes[w].children == [t];
    assert ElementsOf(r, [t]) == [t];
    assert ParentElement(r, t) == Some(w);
  }

  /** A wrapped table is a fixed point of the wrapping step, and only a
      wrapped table is: running the step changes nothing exactly when the
      table already sits alone in a `div.tableWrapper`. */
  lemma WrapTableFixed(d: Doc, t: NodeId)
    requires WF(d) && HasTag(d, t, "TABLE")
    ensures WrapTable(d, t) == Some(d) <==> Wrapped(d, t)
  {
    if Wrapped(d, t) {
      var q := ParentElement(d, t).value;
      assert ReusesParent(d, t);
      var r := MarkParent(d, t);
      assert r.nodes[q] == d.nodes[q];
      assert r.nodes == d.nodes;
    }
  }

  /** Running the step twice on the same table is the same as once. */
  lemma WrapTableIdempotent(d: Doc, t: NodeId)
    requires WF(d) && HasTag(d, t, "TABLE") && WrapTable(d, t).Some?
    ensures var r := WrapTable(d, t).value;
            HasTag(r, t, "TABLE") && WrapTable(r, t) == Some(r)
  {
    var r := WrapTable(d, t).value;
    WrapTableFixed(r, t);
  }

  /** Wrapping one table leaves every other table's wrapper intact. */
  lemma WrapKeepsWrapped(d: Doc, t2: NodeId, t: NodeId)
    requires WF(d) && HasTag(d, t2, "TABLE") && t < |d.nodes| && Wrapped(d, t)
    requires WrapTable(d, t2).Some?
    ensures Wrapped(WrapTable(d, t2).value, t)
  {
    if t != t2 {
      if ReusesParent(d, t2) {
        MarkKeepsWrapped(d, t2, t);
      } else {
        NewWrapperKeepsWrapped(d, t2, t);
      }
    }
  }

  lemma MarkKeepsWrapped(d: Doc, t2: NodeId, t: NodeId)
    requires WF(d) && t2 < |d.nodes| && ReusesParent(d, t2) && t < |d.nodes| && Wrapped(d, t)
    ensures Wrapped(MarkParent(d, t2), t)
  {
    var q := ParentElement(d, t).value;
    assert NodeOk(d, q);
    var r := MarkParent(d, t2);
    SameShapeChain(d, r, t);
    ElementsKept(d, r, d.nodes[q].children);
  }

  lemma NewWrapperKeepsWrapped(d: Doc, t2: NodeId, t: NodeId)
    requires WF(d) && HasTag(d, t2, "TABLE") && ParentElement(d, t2).Some? && !ReusesParent(d, t2)
    requires t < |d.nodes| && t != t2 && Wrapped(d, t)
    ensures Wrapped(NewWrapper(d, t2), t)
  {
    var q := ParentElement(d, t).value;
    assert NodeOk(d, q);
    var p2 := ParentElement(d, t2).value;
    var r := NewWrapper(d, t2);
    NewWrapperEffect(d, t2);
    // q == p2 would make t2's parent a div with one element child
    assert q != p2;
    var w := |d.nodes|;
    var d1 := AddNode(d, NewElement("DIV", {TableWrapper}, WrapRank(d, t2, p2)));
    assert r == WrapWith(d1, t2, w);
    assert r.nodes[q] == d.nodes[q];
    assert ParentElement(r, t) == Some(q);
    ElementsKept(d, r, d.nodes[q].children);
  }

  /** The outcome of the loop: the document, and whether it ran through
      every table without throwing. */
  datatype TablesRun = TablesRun(doc: Doc, completed: bool)

  /** The loop over `tables`, stopping at the first table that throws. */
  function TablesFrom(d: Doc, tables: seq<NodeId>): (r: TablesRun)
    requires WF(d) && forall t | t in tables :: HasTag(d, t, "TABLE")
    ensures WF(r.doc) && KindsKept(d, r.doc)
    decreases |tables|
  {
    if tables == [] then TablesRun(d, true)
    else
      assert tables[0] in tables;
      match WrapTable(d, tables[0])
      case None => TablesRun(d, false)
      case Some(d1) =>
        TablesStayTables(d, d1, tables);
        var r := TablesFrom(d1, tables[1..]);
        r
  }

  lemma TablesStayTables(d: Doc, d1: Doc, tables: seq<NodeId>)
    requires tables != [] && forall t | t in tables :: HasTag(d, t, "TABLE")
    requires KindsKept(d, d1)
    ensures forall t | t in tables[1..] :: HasTag(d1, t, "TABLE")
  {
    forall t | t in tables[1..] ensures HasTag(d1, t, "TABLE") {
      assert t in tables;
    }
  }

  /** Wrapping `t2` gives no other node a new parent, and gives `t2` a
      parent element if it had one. */
  lemma WrapTableParent(d: Doc, t2: NodeId)
    requires WF(d) && HasTag(d, t2, "TABLE") && WrapTable(d, t2).Some?
    ensures var r := WrapTable(d, t2).value;
            forall t | 0 <= t < |d.nodes| :: ParentElement(r, t).Some? <==> ParentElement(d, t).Some?
  {
    var r := WrapTable(d, t2).value;
    forall t | 0 <= t < |d.nodes| ensures ParentElement(r, t).Some? <==> ParentElement(d, t).Some? {
      assert NodeOk(d, t);
      if t != t2 {
        assert r.nodes[t].parent == d.nodes[t].parent;
      }
    }
  }

  /** The loop gets through every table exactly when each of them has a
      parent element in the original document. */
  lemma {:induction false} TablesCompleted(d: Doc, tables: seq<NodeId>)
    requires WF(d) && forall t | t in tables :: HasTag(d, t, "TABLE")
    ensures TablesFrom(d, tables).completed <==> forall t | t in tables :: ParentElement(d, t).Some?
    decreases |tables|
  {
    if tables != [] {
      var t0, rest := tables[0], tables[1..];
      assert t0 in tables;
      if WrapTable(d, t0).Some? {
        var d1 := WrapTable(d, t0).value;
        TablesStayTables(d, d1, tables);
        assert TablesFrom(d, tables) == TablesFrom(d1, rest);
        TablesCompleted(d1, rest);
        WrapTableParent(d, t0);
        ParentedStep(d, d1, tables);
      } else {
        assert !TablesFrom(d, tables).completed && ParentElement(d, t0).None?;
      }
    }
  }

  /** The first table has a parent element, so whether all tables have one
      is decided by the rest, read in a document that keeps every parent. */
  lemma ParentedStep(d: Doc, d1: Doc, tables: seq<NodeId>)
    requires WF(d) && WF(d1) && tables != [] && |d.nodes| <= |d1.nodes|
    requires forall t | t in tables :: t < |d.nodes|
    requires tables[0] < |d.nodes| && ParentElement(d, tables[0]).Some?
    requires forall t | 0 <= t < |d.nodes| :: ParentElement(d1, t).Some? <==> ParentElement(d, t).Some?
    ensures (forall t | t in tables :: ParentElement(d, t).Some?) <==>
            (forall t | t in tables[1..] :: t < |d.nodes| && ParentElement(d1, t).Some?)
  {
    assert forall t | t in tables :: t == tables[0] || t in tables[1..];
    assert forall t | t in tables[1..] :: t in tables;
  }

  /** When the loop completes, every listed table is wrapped. */
  lemma {:induction false} TablesWrapped(d: Doc, tables: seq<NodeId>)
    requires WF(d) && forall t | t in tables :: HasTag(d, t, "TABLE")
    requires TablesFrom(d, tables).completed
    ensures forall t | t in tables :: t < |TablesFrom(d, tables).doc.nodes| && Wrapped(TablesFrom(d, tables).doc, t)
    decreases |tables|
  {
    if tables != [] {
      assert tables[0] in tables;
      var rest := tables[1..];
      assert forall t | t in rest :: t in tables;
      var d1 := WrapTable(d, tables[0]).value;
      TablesWrapped(d1, rest);
      WrappedStays(d1, rest, tables[0]);
    }
  }

  /** A wrapped table stays wrapped through the rest of the loop. */
  lemma {:induction false} WrappedStays(d: Doc, tables: seq<NodeId>, t: NodeId)
    requires WF(d) && forall x | x in tables :: HasTag(d, x, "TABLE")
    requires t < |d.nodes| && Wrapped(d, t)
    ensures var r := TablesFrom(d, tables);
            t < |r.doc.nodes| && (r.completed ==> Wrapped(r.doc, t))
    decreases |tables|
  {
    if tables != [] {
      assert tables[0] in tables;
      var rest := tables[1..];
      assert forall x | x in rest :: x in tables;
      if WrapTable(d, tables[0]).Some? {
        var d1 := WrapTable(d, tables[0]).value;
        WrapKeepsWrapped(d, tables[0], t);
        WrappedStays(d1, rest, t);
      }
    }
  }

  /** `document.querySelectorAll("table").forEach(...)`: the tables are
      given in document order. */
  method WrapTables(page: Page, tables: seq<NodeId>) returns (completed: bool)
    requires page.Valid() && forall t | t in tables :: HasTag(page.doc, t, "TABLE")
    modifies page
    ensures page.Valid() && page.events == old(page.events)
    ensures TablesFrom(old(page.doc), tables) == TablesRun(page.doc, completed)
  {
    ghost var goal := TablesFrom(page.doc, tables);
    var rest := tables;
    while rest != []
      invariant page.Valid() && page.events == old(page.events)
      invariant forall t | t in rest :: HasTag(page.doc, t, "TABLE")
      invariant TablesFrom(page.doc, rest) == goal
      decreases |rest|
    {
      var t := rest[0];
      assert t in rest;
      assert forall x | x in rest[1..] :: x in rest;
      var p := ParentElement(page.doc, t);
      if p.None? {
        return false;
      }
      page.doc := WrapTable(page.doc, t).value;
      rest := rest[1..];
    }
    completed := true;
  }
}
