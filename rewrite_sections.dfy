/*
  Direction of section links (js/rewrite.js:293-297): a link to a
  `#fragment` of the page gets class `section-link-down` when the section
  with that id comes after it in document order, `section-link-up`
  otherwise, and nothing when no such section exists.
*/
module RewriteSections {
  import opened Dom
  import opened DomEdit

  const LinkDown := "section-link-down"
  const LinkUp := "section-link-up"

  /** A link picked by the loop's selector, with the text after the `#` of
      its `hash`. */
  datatype SectionLink = SectionLink(node: NodeId, fragment: string)

  /** The child indices leading from the root of `n`'s tree down to `n`. */
  function Path(d: Doc, n: NodeId): seq<nat>
    requires WF(d) && n < |d.nodes|
    decreases |Below(d, d.nodes[n].rank)|
  {
    assert NodeOk(d, n);
    match d.nodes[n].parent
    case None => []
    case Some(q) =>
      BelowShrinks(d, q, n);
      assert n in d.nodes[q].children;
      Path(d, q) + [IndexOf(d.nodes[q].children, n)]
  }

  /** The root of `n`'s tree. */
  function Root(d: Doc, n: NodeId): NodeId
    requires WF(d) && n < |d.nodes|
    decreases |Below(d, d.nodes[n].rank)|
  {
    assert NodeOk(d, n);
    match d.nodes[n].parent
    case None => n
    case Some(q) =>
      BelowShrinks(d, q, n);
      Root(d, q)
  }

  /** Path `p` leads to a node before the one `q` leads to, and neither is
      an ancestor of the other: they part at some index, where `p` takes the
      earlier child. */
  predicate Before(p: seq<nat>, q: seq<nat>)
    decreases |p|
  {
    p != [] && q != [] && (p[0] < q[0] || (p[0] == q[0] && Before(p[1..], q[1..])))
  }

  /** `a.compareDocumentPosition(b) == Node.DOCUMENT_POSITION_FOLLOWING`:
      same tree, `b` after `a`, and neither contains the other (containment
      adds a CONTAINS or CONTAINED_BY bit, and a node compared with itself
      gives 0). */
  predicate Follows(d: Doc, a: NodeId, b: NodeId)
    requires WF(d) && a < |d.nodes| && b < |d.nodes|
  {
    Root(d, a) == Root(d, b) && Before(Path(d, a), Path(d, b))
  }

  lemma {:induction false} BeforeAsymmetric(p: seq<nat>, q: seq<nat>)
    ensures Before(p, q) ==> !Before(q, p)
    decreases |p|
  {
    if p != [] && q != [] && p[0] == q[0] {
      BeforeAsymmetric(p[1..], q[1..]);
    }
  }

  /** A path is never before one it is a prefix of, nor the other way round. */
  lemma {:induction false} PrefixNotBefore(p: seq<nat>, q: seq<nat>)
    requires p <= q
    ensures !Before(p, q) && !Before(q, p)
    decreases |p|
  {
    if p != [] {
      assert p[1..] <= q[1..];
      PrefixNotBefore(p[1..], q[1..]);
    }
  }

  /** Two paths that part somewhere are ordered one way or the other. */
  lemma {:induction false} BeforeTotal(p: seq<nat>, q: seq<nat>)
    requires !(p <= q) && !(q <= p)
    ensures Before(p, q) || Before(q, p)
    decreases |p|
  {
    if p[0] == q[0] {
      BeforeTotal(p[1..], q[1..]);
    }
  }

  /** An ancestor's path is a prefix of its descendant's. */
  lemma {:induction false} ChainPrefix(d: Doc, a: NodeId, n: NodeId)
    requires WF(d) && n < |d.nodes| && a in Chain(d, n)
    ensures a < |d.nodes| && Path(d, a) <= Path(d, n)
    decreases |Below(d, d.nodes[n].rank)|
  {
    if a != n {
      var p := ParentElement(d, n).value;
      assert Chain(d, n) == [n] + Chain(d, p);
      BelowShrinks(d, p, n);
      ChainPrefix(d, a, p);
    }
  }

  /** Document order is a strict order: no node follows itself, and of two
      nodes at most one follows the other. */
  lemma FollowsAsymmetric(d: Doc, a: NodeId, b: NodeId)
    requires WF(d) && a < |d.nodes| && b < |d.nodes|
    ensures Follows(d, a, b) ==> !Follows(d, b, a)
    ensures !Follows(d, a, a)
  {
    BeforeAsymmetric(Path(d, a), Path(d, b));
    PrefixNotBefore(Path(d, a), Path(d, a));
  }

  /** Two nodes of one tree, neither inside the other: one of them follows
      the other. */
  lemma FollowsTotal(d: Doc, a: NodeId, b: NodeId)
    requires WF(d) && a < |d.nodes| && b < |d.nodes| && Root(d, a) == Root(d, b)
    requires !(Path(d, a) <= Path(d, b)) && !(Path(d, b) <= Path(d, a))
    ensures Follows(d, a, b) || Follows(d, b, a)
  {
    BeforeTotal(Path(d, a), Path(d, b));
  }

  /** Neither a section that contains the link nor one inside the link
      follows it: such a link is marked as pointing up. */
  lemma ContainedNotFollowing(d: Doc, a: NodeId, b: NodeId)
    requires WF(d) && a < |d.nodes| && b < |d.nodes|
    requires a in Chain(d, b) || b in Chain(d, a)
    ensures !Follows(d, a, b) && !Follows(d, b, a)
  {
    if a in Chain(d, b) {
      ChainPrefix(d, a, b);
      PrefixNotBefore(Path(d, a), Path(d, b));
    } else {
      ChainPrefix(d, b, a);
      PrefixNotBefore(Path(d, b), Path(d, a));
    }
  }

  /** Paths and roots depend only on the tree's shape. */
  lemma {:induction false} PathSameShape(d: Doc, e: Doc, n: NodeId)
    requires WF(d) && SameShape(d, e) && n < |d.nodes|
    ensures WF(e) && Path(e, n) == Path(d, n) && Root(e, n) == Root(d, n)
    decreases |Below(d, d.nodes[n].rank)|
  {
    SameShapeWF(d, e);
    assert NodeOk(d, n);
    if d.nodes[n].parent.Some? {
      var q := d.nodes[n].parent.value;
      BelowShrinks(d, q, n);
      PathSameShape(d, e, q);
    }
  }

  /** The fragment can be pasted into the selector `section[id='...']`
      as a plain string: no quote to end it early, no backslash escape. */
  predicate SelectorSafe(fragment: string) {
    '\'' !in fragment && '\\' !in fragment
  }

  predicate HasId(d: Doc, n: NodeId, id: string) {
    n < |d.nodes| && d.nodes[n].id == id
  }

  /** `document.body.querySelector("#markdownBody section[id='...']")`:
      the first of the sections, in document order, with that id. An
      empty fragment matches no section (an absent id is modelled as the
      empty string). */
  function FindSection(d: Doc, sections: seq<NodeId>, fragment: string): (r: Option<NodeId>)
    requires forall s | s in sections :: s < |d.nodes|
    ensures r.Some? ==> r.value in sections && fragment != "" && d.nodes[r.value].id == fragment
    ensures r.Some? ==> forall i | 0 <= i < IndexOf(sections, r.value) :: !HasId(d, sections[i], fragment)
    ensures r.None? <==> fragment == "" || forall s | s in sections :: d.nodes[s].id != fragment
    decreases |sections|
  {
    if fragment == "" || sections == [] then None
    else if (assert sections[0] in sections; d.nodes[sections[0]].id == fragment) then Some(sections[0])
    else
      assert forall s | s in sections[1..] :: s in sections;
      var r := FindSection(d, sections[1..], fragment);
      if r.Some? then
        assert sections[0] != r.value;
        assert IndexOf(sections, r.value) == 1 + IndexOf(sections[1..], r.value);
        r
      else r
  }

  /** One iteration: the class the link receives, if any. */
  function MarkLink(d: Doc, sections: seq<NodeId>, l: SectionLink): (r: Doc)
    requires WF(d) && l.node < |d.nodes| && forall s | s in sections :: s < |d.nodes|
    ensures SameShape(d, r) && WF(r)
    ensures forall m | 0 <= m < |d.nodes| && m != l.node :: r.nodes[m] == d.nodes[m]
    ensures r.nodes[l.node].id == d.nodes[l.node].id
  {
    match FindSection(d, sections, l.fragment)
    case None => d
    case Some(h) =>
      var r := AddClass(d, l.node, if Follows(d, l.node, h) then LinkDown else LinkUp);
      SameShapeWF(d, r);
      r
  }

  /** What the iteration does, in the source's words: nothing without a
      matching section, else `section-link-down` exactly when the section
      follows the link and `section-link-up` exactly when it does not. */
  lemma MarkLinkEffect(d: Doc, sections: seq<NodeId>, l: SectionLink)
    requires WF(d) && l.node < |d.nodes| && forall s | s in sections :: s < |d.nodes|
    ensures var r := MarkLink(d, sections, l);
            var h := FindSection(d, sections, l.fragment);
            && (h.None? ==> r == d)
            && (h.Some? ==> r.nodes[l.node] == d.nodes[l.node].(classes := r.nodes[l.node].classes, hasClassAttr := true))
            && (h.Some? ==> (LinkDown in r.nodes[l.node].classes <==> LinkDown in d.nodes[l.node].classes || Follows(d, l.node, h.value)))
            && (h.Some? ==> (LinkUp in r.nodes[l.node].classes <==> LinkUp in d.nodes[l.node].classes || !Follows(d, l.node, h.value)))
            && (h.Some? ==> r.nodes[l.node].classes - {LinkDown, LinkUp} == d.nodes[l.node].classes - {LinkDown, LinkUp})
  {
  }

  /** The loop over the links, in document order. */
  function MarkLinks(d: Doc, sections: seq<NodeId>, links: seq<SectionLink>): (r: Doc)
    requires WF(d) && forall s | s in sections :: s < |d.nodes|
    requires forall l | l in links :: l.node < |d.nodes|
    ensures SameShape(d, r) && WF(r)
    decreases |links|
  {
    if links == [] then d
    else
      assert links[0] in links;
      assert forall l | l in links[1..] :: l in links;
      MarkLinks(MarkLink(d, sections, links[0]), sections, links[1..])
  }

  /** The class a link receives, decided in the document before the loop. */
  ghost function Mark(d: Doc, sections: seq<NodeId>, l: SectionLink): Option<string>
    requires WF(d) && l.node < |d.nodes| && forall s | s in sections :: s < |d.nodes|
  {
    match FindSection(d, sections, l.fragment)
    case None => None
    case Some(h) => Some(if Follows(d, l.node, h) then LinkDown else LinkUp)
  }

  /** Link nodes that are all different. */
  predicate DistinctLinks(links: seq<SectionLink>) {
    forall i, j | 0 <= i < j < |links| :: links[i].node != links[j].node
  }

  /** After the loop each link carries the class of its own target, decided
      in the original document, and nothing else has changed. */
  lemma {:induction false} MarkLinksEffect(d: Doc, sections: seq<NodeId>, links: seq<SectionLink>, i: nat)
    requires WF(d) && forall s | s in sections :: s < |d.nodes|
    requires forall l | l in links :: l.node < |d.nodes|
    requires DistinctLinks(links) && i < |links|
    ensures var r := MarkLinks(d, sections, links);
            var n := links[i].node;
            r.nodes[n] == Marked(d.nodes[n], Mark(d, sections, links[i]))
    decreases |links|, 1
  {
    if i == 0 {
      assert links[0] in links;
      assert forall l | l in links[1..] :: l in links;
      var d1 := MarkLink(d, sections, links[0]);
      MarkLinksUntouched(d1, sections, links[1..], links[0].node);
      MarkLinkMarks(d, sections, links[0]);
    } else {
      MarkLinksLater(d, sections, links, i);
    }
  }

  lemma {:induction false} MarkLinksLater(d: Doc, sections: seq<NodeId>, links: seq<SectionLink>, i: nat)
    requires WF(d) && forall s | s in sections :: s < |d.nodes|
    requires forall l | l in links :: l.node < |d.nodes|
    requires DistinctLinks(links) && 0 < i < |links|
    ensures var r := MarkLinks(d, sections, links);
            var n := links[i].node;
            r.nodes[n] == Marked(d.nodes[n], Mark(d, sections, links[i]))
    decreases |links|, 0
  {
    assert links[i] in links;
    var rest := links[1..];
    assert rest[i - 1] == links[i];
    DistinctTail(links);
    MarkLinksStep(d, sections, links);
    var d1 := MarkLink(d, sections, links[0]);
    MarkLinksEffect(d1, sections, rest, i - 1);
    MarkSameShape(d, d1, sections, links[i]);
  }

  lemma DistinctTail(links: seq<SectionLink>)
    requires DistinctLinks(links) && links != []
    ensures DistinctLinks(links[1..])
  {
    var rest := links[1..];
    forall a, b | 0 <= a < b < |rest| ensures rest[a].node != rest[b].node {
      assert rest[a] == links[a + 1] && rest[b] == links[b + 1];
    }
  }

  /** A node after receiving `mark`, if any. */
  function Marked(nd: Node, mark: Option<string>): Node {
    match mark
    case None => nd
    case Some(cls) => nd.(classes := nd.classes + {cls}, hasClassAttr := true)
  }

  lemma MarkLinkMarks(d: Doc, sections: seq<NodeId>, l: SectionLink)
    requires WF(d) && l.node < |d.nodes| && forall s | s in sections :: s < |d.nodes|
    ensures MarkLink(d, sections, l).nodes[l.node] == Marked(d.nodes[l.node], Mark(d, sections, l))
  {
  }

  /** Marking one link does not change what another link receives. */
  lemma MarkSameShape(d: Doc, e: Doc, sections: seq<NodeId>, l: SectionLink)
    requires WF(d) && SameShape(d, e) && l.node < |d.nodes| && forall s | s in sections :: s < |d.nodes|
    requires forall s | s in sections :: e.nodes[s].id == d.nodes[s].id
    ensures WF(e) && Mark(e, sections, l) == Mark(d, sections, l)
  {
    SameShapeWF(d, e);
    FindSectionSameIds(d, e, sections, l.fragment);
    var h := FindSection(d, sections, l.fragment);
    if h.Some? {
      PathSameShape(d, e, l.node);
      PathSameShape(d, e, h.value);
    }
  }

  /** The search depends only on the sections' ids. */
  lemma {:induction false} FindSectionSameIds(d: Doc, e: Doc, sections: seq<NodeId>, fragment: string)
    requires forall s | s in sections :: s < |d.nodes| && s < |e.nodes| && e.nodes[s].id == d.nodes[s].id
    ensures FindSection(e, sections, fragment) == FindSection(d, sections, fragment)
    decreases |sections|
  {
    if sections != [] {
      assert sections[0] in sections;
      assert forall s | s in sections[1..] :: s in sections;
      FindSectionSameIds(d, e, sections[1..], fragment);
    }
  }

  /** A node that no remaining link names keeps its state. */
  lemma {:induction false} MarkLinksUntouched(d: Doc, sections: seq<NodeId>, links: seq<SectionLink>, n: NodeId)
    requires WF(d) && forall s | s in sections :: s < |d.nodes|
    requires forall l | l in links :: l.node < |d.nodes| && l.node != n
    requires n < |d.nodes|
    ensures MarkLinks(d, sections, links).nodes[n] == d.nodes[n]
    decreases |links|
  {
    if links != [] {
      assert links[0] in links;
      assert forall l | l in links[1..] :: l in links;
      MarkLinksUntouched(MarkLink(d, sections, links[0]), sections, links[1..], n);
    }
  }

  /** The top-level `forEach`: `links` are the elements the selector picks,
      in document order, and `sections` the sections of the page body, in
      document order. */
  method MarkSectionLinks(page: Page, sections: seq<NodeId>, links: seq<SectionLink>)
    requires page.Valid() && forall s | s in sections :: s < |page.doc.nodes|
    requires forall l | l in links :: l.node < |page.doc.nodes| && SelectorSafe(l.fragment)
    modifies page
    ensures page.Valid() && page.events == old(page.events)
    ensures page.doc == MarkLinks(old(page.doc), sections, links)
  {
    ghost var goal := MarkLinks(page.doc, sections, links);
    var rest := links;
    while rest != []
      invariant page.Valid() && page.events == old(page.events)
      invariant forall s | s in sections :: s < |page.doc.nodes|
      invariant forall l | l in rest :: l.node < |page.doc.nodes|
      invariant MarkLinks(page.doc, sections, rest) == goal
      decreases |rest|
    {
      var l := rest[0];
      ghost var d := page.doc;
      MarkLinksStep(d, sections, rest);
      var header := FindSection(page.doc, sections, l.fragment);
      if header.Some? {
        page.doc := AddClass(page.doc, l.node, if Follows(page.doc, l.node, header.value) then LinkDown else LinkUp);
      }
      assert page.doc == MarkLink(d, sections, l);
      rest := rest[1..];
    }
  }

  /** `MarkLinks` one link at a time. */
  lemma MarkLinksStep(d: Doc, sections: seq<NodeId>, links: seq<SectionLink>)
    requires WF(d) && (forall s | s in sections :: s < |d.nodes|) && links != []
    requires forall l | l in links :: l.node < |d.nodes|
    ensures links[0].node < |d.nodes|
    ensures var r := MarkLink(d, sections, links[0]);
            && |r.nodes| == |d.nodes|
            && (forall l | l in links[1..] :: l.node < |r.nodes|)
            && MarkLinks(d, sections, links) == MarkLinks(r, sections, links[1..])
  {
    assert links[0] in links;
    assert forall x | x in links[1..] :: x in links;
  }
}
