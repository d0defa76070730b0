/**
  Edits of the DOM arena: attribute-level updates (classes, `checked`,
  text, listeners), which leave the tree's shape alone, and the structural
  edits the page scripts perform (create a node, `insertBefore`,
  `appendChild`, `remove`, unwrapping an element). Every edit keeps the
  arena well formed.
*/
module DomEdit {
  import opened Dom

  /** Two documents with the same nodes, links and ranks: they may differ
      only in attributes and state. */
  ghost predicate SameShape(d: Doc, e: Doc) {
    && |d.nodes| == |e.nodes|
    && forall n | 0 <= n < |d.nodes| ::
         && d.nodes[n].kind == e.nodes[n].kind
         && d.nodes[n].parent == e.nodes[n].parent
         && d.nodes[n].children == e.nodes[n].children
         && d.nodes[n].rank == e.nodes[n].rank
  }

  lemma SameShapeWF(d: Doc, e: Doc)
    requires SameShape(d, e)
    ensures WF(d) ==> WF(e)
  {
    if WF(d) {
      forall n | 0 <= n < |e.nodes| ensures NodeOk(e, n) {
        assert NodeOk(d, n);
      }
    }
  }

  lemma {:induction false} SameShapeChain(d: Doc, e: Doc, n: NodeId)
    requires WF(d) && SameShape(d, e) && n < |d.nodes|
    ensures WF(e) && Chain(e, n) == Chain(d, n)
    ensures ParentElement(e, n) == ParentElement(d, n)
    decreases |Below(d, d.nodes[n].rank)|
  {
    SameShapeWF(d, e);
    match ParentElement(d, n)
    case None =>
    case Some(p) =>
      BelowShrinks(d, p, n);
      SameShapeChain(d, e, p);
  }

  /** An edit that keeps the shape is an extension adding no node. */
  lemma SameShapeExtends(d: Doc, e: Doc)
    requires SameShape(d, e)
    ensures Extends(d, e) && |e.nodes| == |d.nodes|
  {
  }

  /** Element children are read off the shape alone. */
  lemma SameShapeElements(d: Doc, e: Doc, n: NodeId)
    requires WF(d) && SameShape(d, e) && n < |d.nodes|
    ensures ElementChildren(e, n) == ElementChildren(d, n)
  {
    assert NodeOk(d, n);
    ElementsKept(d, e, d.nodes[n].children);
  }

  /** Replace node `n` by `nd`, which has the same kind, links and rank. */
  function Update(d: Doc, n: NodeId, nd: Node): (r: Doc)
    requires n < |d.nodes|
    requires nd.kind == d.nodes[n].kind && nd.parent == d.nodes[n].parent
    requires nd.children == d.nodes[n].children && nd.rank == d.nodes[n].rank
    ensures SameShape(d, r) && (WF(d) ==> WF(r))
    ensures r.nodes[n] == nd
    ensures forall m | 0 <= m < |d.nodes| && m != n :: r.nodes[m] == d.nodes[m]
  {
    var r := Doc(d.nodes[n := nd]);
    SameShapeWF(d, r);
    r
  }

  /** `classList.add(cls)`. */
  function AddClass(d: Doc, n: NodeId, cls: string): (r: Doc)
    requires n < |d.nodes|
    ensures SameShape(d, r) && (WF(d) ==> WF(r))
    ensures r.nodes[n] == d.nodes[n].(classes := d.nodes[n].classes + {cls}, hasClassAttr := true)
    ensures forall m | 0 <= m < |d.nodes| && m != n :: r.nodes[m] == d.nodes[m]
  {
    Update(d, n, d.nodes[n].(classes := d.nodes[n].classes + {cls}, hasClassAttr := true))
  }

  /** `classList.remove(...cs)`: the attribute stays, possibly empty. */
  function RemoveClasses(d: Doc, n: NodeId, cs: set<string>): (r: Doc)
    requires n < |d.nodes|
    ensures SameShape(d, r) && (WF(d) ==> WF(r))
    ensures r.nodes[n] == d.nodes[n].(classes := d.nodes[n].classes - cs)
    ensures forall m | 0 <= m < |d.nodes| && m != n :: r.nodes[m] == d.nodes[m]
  {
    Update(d, n, d.nodes[n].(classes := d.nodes[n].classes - cs))
  }

  /** `classList.toggle(cls, force)`. */
  function ToggleClass(d: Doc, n: NodeId, cls: string, force: bool): (r: Doc)
    requires n < |d.nodes|
    ensures SameShape(d, r) && (WF(d) ==> WF(r))
    ensures r.nodes[n] == d.nodes[n].(classes := if force then d.nodes[n].classes + {cls} else d.nodes[n].classes - {cls},
                                      hasClassAttr := force || d.nodes[n].hasClassAttr)
    ensures forall m | 0 <= m < |d.nodes| && m != n :: r.nodes[m] == d.nodes[m]
  {
    if force then AddClass(d, n, cls) else RemoveClasses(d, n, {cls})
  }

  /** `classList.remove(...cs)` followed by `removeAttribute("class")` when
      `className` has become empty: the idiom the collapse code uses
      whenever it strips its marker classes. */
  function DropClasses(d: Doc, n: NodeId, cs: set<string>): (r: Doc)
    requires n < |d.nodes|
    ensures SameShape(d, r) && (WF(d) ==> WF(r))
    ensures r.nodes[n].classes == d.nodes[n].classes - cs
    ensures r.nodes[n].hasClassAttr == (d.nodes[n].hasClassAttr && d.nodes[n].classes - cs != {})
    ensures r.nodes[n] == d.nodes[n].(classes := r.nodes[n].classes, hasClassAttr := r.nodes[n].hasClassAttr)
    ensures forall m | 0 <= m < |d.nodes| && m != n :: r.nodes[m] == d.nodes[m]
  {
    var d1 := RemoveClasses(d, n, cs);
    if d1.nodes[n].classes == {} then Update(d1, n, d1.nodes[n].(hasClassAttr := false)) else d1
  }

  /** Setting a checkbox's `checked` property (no change event fires). */
  function SetChecked(d: Doc, n: NodeId, v: bool): (r: Doc)
    requires n < |d.nodes|
    ensures SameShape(d, r) && (WF(d) ==> WF(r))
    ensures r.nodes[n] == d.nodes[n].(checked := v)
    ensures forall m | 0 <= m < |d.nodes| && m != n :: r.nodes[m] == d.nodes[m]
  {
    Update(d, n, d.nodes[n].(checked := v))
  }

  /** Setting a text node's data (`textContent` of a leaf). */
  function SetText(d: Doc, n: NodeId, t: string): (r: Doc)
    requires n < |d.nodes|
    ensures SameShape(d, r) && (WF(d) ==> WF(r))
    ensures r.nodes[n] == d.nodes[n].(text := t)
    ensures forall m | 0 <= m < |d.nodes| && m != n :: r.nodes[m] == d.nodes[m]
  {
    Update(d, n, d.nodes[n].(text := t))
  }

  /*
    Structural edits.
  */

  function SeqInsert(s: seq<NodeId>, i: nat, x: NodeId): (r: seq<NodeId>)
    requires i <= |s|
    ensures |r| == |s| + 1 && r[i] == x && r[..i] == s[..i] && r[i + 1..] == s[i..]
    ensures forall y :: y in r <==> y == x || y in s
  {
    var r := s[..i] + [x] + s[i..];
    assert forall y :: y in r <==> y in s[..i] || y == x || y in s[i..];
    assert s == s[..i] + s[i..];
    r
  }

  lemma SeqInsertNoDup(s: seq<NodeId>, i: nat, x: NodeId)
    requires i <= |s| && NoDup(s) && x !in s
    ensures NoDup(SeqInsert(s, i, x))
  {
    var r := SeqInsert(s, i, x);
    forall a, b | 0 <= a < b < |r| ensures r[a] != r[b] {
      if a != i && b != i {
        var a', b' := if a < i then a else a - 1, if b < i then b else b - 1;
        assert r[a] == s[a'] && r[b] == s[b'];
      } else if a == i {
        assert r[b] == s[b - 1];
      } else {
        assert r[a] == s[a];
      }
    }
  }

  /** The list with (the first) `x` taken out. */
  function SeqRemove(s: seq<NodeId>, x: NodeId): (r: seq<NodeId>)
    ensures x in s ==> r == s[..IndexOf(s, x)] + s[IndexOf(s, x) + 1..]
    ensures x !in s ==> r == s
    ensures NoDup(s) ==> NoDup(r) && forall y :: y in r <==> y in s && y != x
  {
    if x in s then
      var i := IndexOf(s, x);
      var r := s[..i] + s[i + 1..];
      assert forall a | 0 <= a < |r| :: r[a] == s[if a < i then a else a + 1];
      assert s == s[..i] + [x] + s[i + 1..];
      r
    else s
  }

  /** Splicing the distinct list `k` in place of `s[i]` keeps the list free
      of repeats. */
  lemma SpliceNoDup(s: seq<NodeId>, i: nat, k: seq<NodeId>)
    requires i < |s| && NoDup(s) && NoDup(k) && forall c | c in k :: c !in s
    ensures NoDup(s[..i] + k + s[i + 1..])
    ensures forall y :: y in s[..i] + k + s[i + 1..] <==> y in k || (y in s && y != s[i])
  {
    var s' := s[..i] + k + s[i + 1..];
    var j := |k|;
    assert s == s[..i] + [s[i]] + s[i + 1..];
    assert forall a | 0 <= a < |s'| :: s'[a] == if a < i then s[a] else if a < i + j then k[a - i] else s[a - j + 1];
    forall a, b | 0 <= a < b < |s'| ensures s'[a] != s'[b] {
      if a < i + j && i <= b < i + j {
        if a >= i {
          assert s'[a] == k[a - i] && s'[b] == k[b - i];
        } else {
          assert s'[b] in k;
        }
      } else if i <= a < i + j {
        assert s'[a] in k;
      }
    }
    forall y ensures y in s' <==> y in k || (y in s && y != s[i]) {
      if y in s && y != s[i] {
        var a := IndexOf(s, y);
        assert a != i;
      }
    }
  }

  /** Add a fresh, detached leaf node (`createElement`, a parsed
      `insertAdjacentHTML` fragment before insertion, ...). */
  function AddNode(d: Doc, nd: Node): (r: Doc)
    requires nd.parent.None? && nd.children == []
    ensures (WF(d) ==> WF(r)) && r.nodes == d.nodes + [nd]
  {
    var r := Doc(d.nodes + [nd]);
    AddNodeWF(d, nd, r);
    r
  }

  lemma AddNodeWF(d: Doc, nd: Node, r: Doc)
    requires nd.parent.None? && nd.children == [] && r == Doc(d.nodes + [nd])
    ensures WF(d) ==> WF(r)
  {
    if WF(d) {
      forall n | 0 <= n < |r.nodes| ensures NodeOk(r, n) {
        if n < |d.nodes| { assert NodeOk(d, n); }
      }
    }
  }

  /** Insert the detached node `x` as child number `i` of `p`
      (`p.insertBefore(x, p.childNodes[i])`, or `appendChild` at the end). */
  function Insert(d: Doc, p: NodeId, i: nat, x: NodeId): (r: Doc)
    requires WF(d) && p < |d.nodes| && x < |d.nodes|
    requires !d.nodes[p].kind.Text? && !d.nodes[x].kind.Fragment?
    requires d.nodes[x].parent.None? && d.nodes[p].rank < d.nodes[x].rank
    requires i <= |d.nodes[p].children|
    ensures WF(r) && |r.nodes| == |d.nodes|
    ensures r.nodes[p] == d.nodes[p].(children := SeqInsert(d.nodes[p].children, i, x))
    ensures r.nodes[x] == d.nodes[x].(parent := Some(p))
    ensures forall m | 0 <= m < |d.nodes| && m != p && m != x :: r.nodes[m] == d.nodes[m]
  {
    var r := Doc(d.nodes[p := d.nodes[p].(children := SeqInsert(d.nodes[p].children, i, x))]
                        [x := d.nodes[x].(parent := Some(p))]);
    InsertWF(d, p, i, x, r);
    r
  }

  lemma InsertWF(d: Doc, p: NodeId, i: nat, x: NodeId, r: Doc)
    requires WF(d) && p < |d.nodes| && x < |d.nodes|
    requires !d.nodes[p].kind.Text? && !d.nodes[x].kind.Fragment?
    requires d.nodes[x].parent.None? && d.nodes[p].rank < d.nodes[x].rank
    requires i <= |d.nodes[p].children|
    requires r == Doc(d.nodes[p := d.nodes[p].(children := SeqInsert(d.nodes[p].children, i, x))]
                             [x := d.nodes[x].(parent := Some(p))])
    ensures WF(r)
  {
    assert NodeOk(d, p) && NodeOk(d, x);
    assert x !in d.nodes[p].children;
    SeqInsertNoDup(d.nodes[p].children, i, x);
    forall m | 0 <= m < |r.nodes| ensures NodeOk(r, m) {
      assert NodeOk(d, m);
      if m != p && m != x {
        match d.nodes[m].parent
        case None =>
        case Some(q) => assert NodeOk(d, q);
      }
      forall c | c in r.nodes[m].children ensures c < |d.nodes| && r.nodes[c].parent == Some(m) {
        if c != x { assert NodeOk(d, c); }
      }
    }
  }

  /** `x.remove()`: take `x` out of its parent's child list. */
  function Detach(d: Doc, x: NodeId): (r: Doc)
    requires WF(d) && x < |d.nodes|
    ensures WF(r) && |r.nodes| == |d.nodes|
    ensures r.nodes[x] == d.nodes[x].(parent := None)
    ensures d.nodes[x].parent.Some? ==>
              var p := d.nodes[x].parent.value;
              p < |d.nodes| && p != x &&
              r.nodes[p] == d.nodes[p].(children := SeqRemove(d.nodes[p].children, x))
    ensures forall m | 0 <= m < |d.nodes| && m != x && Some(m) != d.nodes[x].parent :: r.nodes[m] == d.nodes[m]
  {
    assert NodeOk(d, x);
    match d.nodes[x].parent
    case None => d
    case Some(p) =>
      assert NodeOk(d, p);
      var r := Doc(d.nodes[p := d.nodes[p].(children := SeqRemove(d.nodes[p].children, x))]
                          [x := d.nodes[x].(parent := None)]);
      DetachWF(d, x, p, r);
      r
  }

  lemma DetachWF(d: Doc, x: NodeId, p: NodeId, r: Doc)
    requires WF(d) && x < |d.nodes| && d.nodes[x].parent == Some(p) && p < |d.nodes|
    requires NoDup(d.nodes[p].children)
    requires r == Doc(d.nodes[p := d.nodes[p].(children := SeqRemove(d.nodes[p].children, x))]
                             [x := d.nodes[x].(parent := None)])
    ensures WF(r)
  {
    assert NodeOk(d, p) && NodeOk(d, x);
    forall m | 0 <= m < |r.nodes| ensures NodeOk(r, m) {
      assert NodeOk(d, m);
      if m != p && m != x {
        match d.nodes[m].parent
        case None =>
        case Some(q) => assert NodeOk(d, q);
      }
      forall c | c in r.nodes[m].children ensures c < |d.nodes| && r.nodes[c].parent == Some(m) {
        assert NodeOk(d, c);
      }
    }
  }

  /** `p.insertBefore(w, x); w.appendChild(x)`: the detached element `w`
      takes `x`'s place among its parent's children and `x` becomes `w`'s
      last child. */
  function WrapWith(d: Doc, x: NodeId, w: NodeId): (r: Doc)
    requires WF(d) && x < |d.nodes| && w < |d.nodes| && x != w
    requires d.nodes[x].parent.Some? && d.nodes[x].parent.value < |d.nodes| && d.nodes[w].parent.None?
    requires d.nodes[w].kind.Element? && !d.nodes[x].kind.Fragment?
    requires d.nodes[d.nodes[x].parent.value].rank < d.nodes[w].rank < d.nodes[x].rank
    ensures WF(r) && |r.nodes| == |d.nodes|
    ensures var p := d.nodes[x].parent.value;
            var s := d.nodes[p].children;
            && p != x && p != w && x in s
            && r.nodes[p] == d.nodes[p].(children := s[..IndexOf(s, x)] + [w] + s[IndexOf(s, x) + 1..])
            && r.nodes[w] == d.nodes[w].(parent := Some(p), children := d.nodes[w].children + [x])
            && r.nodes[x] == d.nodes[x].(parent := Some(w))
            && forall m | 0 <= m < |d.nodes| && m != p && m != w && m != x :: r.nodes[m] == d.nodes[m]
  {
    var p := d.nodes[x].parent.value;
    assert NodeOk(d, x);
    var s := d.nodes[p].children;
    var i := IndexOf(s, x);
    var r := Doc(seq(|d.nodes|, m requires 0 <= m < |d.nodes| =>
      if m == p then d.nodes[p].(children := s[..i] + [w] + s[i + 1..])
      else if m == w then d.nodes[w].(parent := Some(p), children := d.nodes[w].children + [x])
      else if m == x then d.nodes[x].(parent := Some(w))
      else d.nodes[m]));
    WrapWithWF(d, x, w, p, r);
    r
  }

  lemma WrapWithWF(d: Doc, x: NodeId, w: NodeId, p: NodeId, r: Doc)
    requires WF(d) && x < |d.nodes| && w < |d.nodes| && x != w && p < |d.nodes|
    requires d.nodes[x].parent == Some(p) && d.nodes[w].parent.None?
    requires d.nodes[w].kind.Element? && !d.nodes[x].kind.Fragment?
    requires d.nodes[p].rank < d.nodes[w].rank < d.nodes[x].rank
    requires x in d.nodes[p].children
    requires var s := d.nodes[p].children;
             var i := IndexOf(s, x);
             && |r.nodes| == |d.nodes|
             && r.nodes[p] == d.nodes[p].(children := s[..i] + [w] + s[i + 1..])
             && r.nodes[w] == d.nodes[w].(parent := Some(p), children := d.nodes[w].children + [x])
             && r.nodes[x] == d.nodes[x].(parent := Some(w))
             && forall n | 0 <= n < |d.nodes| && n != p && n != w && n != x :: r.nodes[n] == d.nodes[n]
    ensures WF(r)
  {
    assert NodeOk(d, p) && NodeOk(d, x) && NodeOk(d, w);
    var s, k := d.nodes[p].children, d.nodes[w].children;
    var i := IndexOf(s, x);
    assert w !in s && x !in k;
    SpliceNoDup(s, i, [w]);
    assert NoDup(k + [x]);
    forall c | c in k ensures c < |d.nodes| && c != p && c != x && d.nodes[c].parent == Some(w) {
      assert NodeOk(d, c);
    }
    forall m | 0 <= m < |r.nodes| ensures NodeOk(r, m) {
      WrapWithNodeOk(d, x, w, p, r, m);
    }
  }

  /** The state `WrapWith` leaves, node by node, with the facts about the
      two child lists it edits. */
  ghost predicate WrapWithFacts(d: Doc, x: NodeId, w: NodeId, p: NodeId, r: Doc)
    requires x < |d.nodes| && w < |d.nodes| && p < |d.nodes| && x in d.nodes[p].children
  {
    var s, k := d.nodes[p].children, d.nodes[w].children;
    var i := IndexOf(s, x);
    && w !in s && x !in k
    && NoDup(s[..i] + [w] + s[i + 1..]) && NoDup(k + [x])
    && (forall y :: y in s[..i] + [w] + s[i + 1..] <==> y in [w] || (y in s && y != x))
    && (forall c | c in k :: c < |d.nodes| && c != p && c != x && d.nodes[c].parent == Some(w))
    && |r.nodes| == |d.nodes|
    && r.nodes[p] == d.nodes[p].(children := s[..i] + [w] + s[i + 1..])
    && r.nodes[w] == d.nodes[w].(parent := Some(p), children := k + [x])
    && r.nodes[x] == d.nodes[x].(parent := Some(w))
    && forall n | 0 <= n < |d.nodes| && n != p && n != w && n != x :: r.nodes[n] == d.nodes[n]
  }

  lemma WrapWithNodeOk(d: Doc, x: NodeId, w: NodeId, p: NodeId, r: Doc, m: NodeId)
    requires WF(d) && x < |d.nodes| && w < |d.nodes| && x != w && p < |d.nodes| && m < |d.nodes|
    requires d.nodes[x].parent == Some(p) && d.nodes[w].parent.None?
    requires d.nodes[w].kind.Element? && !d.nodes[x].kind.Fragment?
    requires d.nodes[p].rank < d.nodes[w].rank < d.nodes[x].rank
    requires x in d.nodes[p].children
    requires WrapWithFacts(d, x, w, p, r)
    ensures NodeOk(r, m)
  {
    if m == p {
      WrapWithParentOk(d, x, w, p, r);
    } else if m == w || m == x {
      WrapWithMovedOk(d, x, w, p, r, m);
    } else {
      WrapWithOtherOk(d, x, w, p, r, m);
    }
  }

  lemma WrapWithParentOk(d: Doc, x: NodeId, w: NodeId, p: NodeId, r: Doc)
    requires WF(d) && x < |d.nodes| && w < |d.nodes| && x != w && p < |d.nodes|
    requires d.nodes[x].parent == Some(p) && d.nodes[w].parent.None?
    requires d.nodes[p].rank < d.nodes[w].rank < d.nodes[x].rank
    requires x in d.nodes[p].children
    requires WrapWithFacts(d, x, w, p, r)
    ensures NodeOk(r, p)
  {
    assert NodeOk(d, p) && NodeOk(d, x) && NodeOk(d, w);
    var s := d.nodes[p].children;
    match d.nodes[p].parent {
      case None =>
      case Some(q) => assert NodeOk(d, q) && q != w && q != x;
    }
    forall c | c in r.nodes[p].children ensures c < |d.nodes| && r.nodes[c].parent == Some(p) {
      if c != w {
        assert c in s && c != x;
        assert NodeOk(d, c);
      }
    }
  }

  lemma WrapWithMovedOk(d: Doc, x: NodeId, w: NodeId, p: NodeId, r: Doc, m: NodeId)
    requires WF(d) && x < |d.nodes| && w < |d.nodes| && x != w && p < |d.nodes|
    requires d.nodes[x].parent == Some(p) && d.nodes[w].parent.None?
    requires d.nodes[w].kind.Element? && !d.nodes[x].kind.Fragment?
    requires d.nodes[p].rank < d.nodes[w].rank < d.nodes[x].rank
    requires x in d.nodes[p].children && (m == w || m == x)
    requires WrapWithFacts(d, x, w, p, r)
    ensures NodeOk(r, m)
  {
    assert NodeOk(d, p) && NodeOk(d, x) && NodeOk(d, w);
    if m == w {
      forall c | c in r.nodes[w].children ensures c < |d.nodes| && r.nodes[c].parent == Some(w) {
      }
    } else {
      forall c | c in r.nodes[x].children ensures c < |d.nodes| && r.nodes[c].parent == Some(x) {
        assert NodeOk(d, c);
      }
    }
  }

  lemma WrapWithOtherOk(d: Doc, x: NodeId, w: NodeId, p: NodeId, r: Doc, m: NodeId)
    requires WF(d) && x < |d.nodes| && w < |d.nodes| && x != w && p < |d.nodes| && m < |d.nodes|
    requires d.nodes[x].parent == Some(p) && d.nodes[w].parent.None?
    requires x in d.nodes[p].children && m != p && m != w && m != x
    requires WrapWithFacts(d, x, w, p, r)
    ensures NodeOk(r, m)
  {
    assert NodeOk(d, m) && NodeOk(d, p) && NodeOk(d, x) && NodeOk(d, w);
    match d.nodes[m].parent {
      case None =>
      case Some(q) => assert NodeOk(d, q);
    }
    forall c | c in r.nodes[m].children ensures c < |d.nodes| && r.nodes[c].parent == Some(m) {
      assert NodeOk(d, c);
    }
  }


  /** Replace `x` by its child nodes: they move, in order, into `x`'s place
      in its parent, and `x` is left detached and empty. Nothing happens
      when `x` has no parent. */
  function Unwrap(d: Doc, x: NodeId): (r: Doc)
    requires WF(d) && x < |d.nodes|
    ensures WF(r) && |r.nodes| == |d.nodes|
    ensures d.nodes[x].parent.None? ==> r == d
  {
    assert NodeOk(d, x);
    match d.nodes[x].parent
    case None => d
    case Some(p) =>
      assert NodeOk(d, p);
      UnwrapIn(d, x, p)
  }

  /** `Unwrap` of a node `x` whose parent is `p`. */
  function UnwrapIn(d: Doc, x: NodeId, p: NodeId): (r: Doc)
    requires WF(d) && x < |d.nodes| && d.nodes[x].parent == Some(p) && p < |d.nodes|
    requires x in d.nodes[p].children
    ensures WF(r) && |r.nodes| == |d.nodes|
    ensures var s, k := d.nodes[p].children, d.nodes[x].children;
            && r.nodes[p] == d.nodes[p].(children := s[..IndexOf(s, x)] + k + s[IndexOf(s, x) + 1..])
            && r.nodes[x] == d.nodes[x].(parent := None, children := [])
            && (forall c | c in k :: c < |d.nodes| && r.nodes[c] == d.nodes[c].(parent := Some(p)))
            && (forall m | 0 <= m < |d.nodes| && m != p && m != x && m !in k :: r.nodes[m] == d.nodes[m])
  {
    UnwrapLists(d, x, p);
    var s := d.nodes[p].children;
    var k := d.nodes[x].children;
    var i := IndexOf(s, x);
    var r := Doc(seq(|d.nodes|, m requires 0 <= m < |d.nodes| =>
      if m == p then d.nodes[p].(children := s[..i] + k + s[i + 1..])
      else if m == x then d.nodes[x].(parent := None, children := [])
      else if m in k then d.nodes[m].(parent := Some(p))
      else d.nodes[m]));
    assert forall c | c in k :: c < |d.nodes| && r.nodes[c] == d.nodes[c].(parent := Some(p));
    UnwrapWF(d, x, p, r);
    r
  }

  /** What `Unwrap` does to an attached node: its children move, in order,
      into its place in its parent, it is left detached and empty, and
      nothing else changes. */
  lemma UnwrapEffect(d: Doc, x: NodeId)
    requires WF(d) && x < |d.nodes|
    ensures d.nodes[x].parent.Some? ==> d.nodes[x].parent.value < |d.nodes|
    ensures var r := Unwrap(d, x);
            d.nodes[x].parent.Some? ==>
              var p := d.nodes[x].parent.value;
              var s := d.nodes[p].children;
              && p != x && x in s
              && r.nodes[p] == d.nodes[p].(children := s[..IndexOf(s, x)] + d.nodes[x].children + s[IndexOf(s, x) + 1..])
              && r.nodes[x] == d.nodes[x].(parent := None, children := [])
              && (forall c | c in d.nodes[x].children :: c < |r.nodes| && r.nodes[c] == d.nodes[c].(parent := Some(p)))
              && (forall m | 0 <= m < |d.nodes| && m != p && m != x && m !in d.nodes[x].children ::
                    r.nodes[m] == d.nodes[m])
  {
    assert NodeOk(d, x);
    if d.nodes[x].parent.Some? {
      var p := d.nodes[x].parent.value;
      assert NodeOk(d, p) && x in d.nodes[p].children;
      assert Unwrap(d, x) == UnwrapIn(d, x, p);
    }
  }

  lemma UnwrapWF(d: Doc, x: NodeId, p: NodeId, r: Doc)
    requires WF(d) && x < |d.nodes| && d.nodes[x].parent == Some(p) && p < |d.nodes|
    requires x in d.nodes[p].children
    requires var s, k := d.nodes[p].children, d.nodes[x].children;
             && |r.nodes| == |d.nodes|
             && r.nodes[p] == d.nodes[p].(children := s[..IndexOf(s, x)] + k + s[IndexOf(s, x) + 1..])
             && r.nodes[x] == d.nodes[x].(parent := None, children := [])
             && (forall c | c in k :: c < |d.nodes| && r.nodes[c] == d.nodes[c].(parent := Some(p)))
             && (forall n | 0 <= n < |d.nodes| && n != p && n != x && n !in k :: r.nodes[n] == d.nodes[n])
    ensures WF(r)
  {
    UnwrapLists(d, x, p);
    forall m | 0 <= m < |r.nodes| ensures NodeOk(r, m) {
      UnwrapNodeOk(d, x, p, r, m);
    }
  }

  /** The child lists `Unwrap` splices are disjoint and free of repeats. */
  lemma UnwrapLists(d: Doc, x: NodeId, p: NodeId)
    requires WF(d) && x < |d.nodes| && d.nodes[x].parent == Some(p) && p < |d.nodes|
    requires x in d.nodes[p].children
    ensures var s := d.nodes[p].children;
            var k := d.nodes[x].children;
            var i := IndexOf(s, x);
            && p != x && p !in k && (forall c | c in k :: c < |d.nodes| && c != p && c != x && c !in s)
            && NoDup(s[..i] + k + s[i + 1..])
            && (forall y :: y in s[..i] + k + s[i + 1..] <==> y in k || (y in s && y != x))
  {
    assert NodeOk(d, p) && NodeOk(d, x);
    var s := d.nodes[p].children;
    var k := d.nodes[x].children;
    var i := IndexOf(s, x);
    forall c | c in k ensures c < |d.nodes| && c != p && c != x && c !in s {
      assert NodeOk(d, c);
    }
    SpliceNoDup(s, i, k);
  }

  lemma UnwrapNodeOk(d: Doc, x: NodeId, p: NodeId, r: Doc, m: NodeId)
    requires WF(d) && x < |d.nodes| && d.nodes[x].parent == Some(p) && p < |d.nodes|
    requires x in d.nodes[p].children && m < |d.nodes|
    requires var s := d.nodes[p].children;
             var k := d.nodes[x].children;
             var i := IndexOf(s, x);
             && p != x && p !in k && (forall c | c in k :: c != x && c !in s)
             && NoDup(s[..i] + k + s[i + 1..])
             && (forall y :: y in s[..i] + k + s[i + 1..] <==> y in k || (y in s && y != x))
             && |r.nodes| == |d.nodes|
             && r.nodes[p] == d.nodes[p].(children := s[..i] + k + s[i + 1..])
             && r.nodes[x] == d.nodes[x].(parent := None, children := [])
             && (forall c | c in k :: c < |d.nodes| && r.nodes[c] == d.nodes[c].(parent := Some(p)))
             && forall n | 0 <= n < |d.nodes| && n != p && n != x && n !in k :: r.nodes[n] == d.nodes[n]
    ensures NodeOk(r, m)
  {
    assert NodeOk(d, m) && NodeOk(d, p) && NodeOk(d, x);
    var k := d.nodes[x].children;
    if m in k {
      assert d.nodes[p].rank < d.nodes[x].rank < d.nodes[m].rank;
    } else if m != p && m != x {
      match d.nodes[m].parent
      case None =>
      case Some(q) => assert NodeOk(d, q);
    } else if m == p {
      match d.nodes[p].parent
      case None =>
      case Some(q) => assert NodeOk(d, q);
    }
    forall c | c in r.nodes[m].children ensures c < |d.nodes| && r.nodes[c].parent == Some(m) {
      assert NodeOk(d, c);
    }
  }

  /** `r` extends `d` with new nodes; every old node keeps its kind, and its
      parent is either the old one or a new element that sits between the
      node and its old parent. */
  ghost predicate Extends(d: Doc, r: Doc) {
    && |d.nodes| <= |r.nodes|
    && forall n | 0 <= n < |d.nodes| ::
         && r.nodes[n].kind == d.nodes[n].kind
         && (|| r.nodes[n].parent == d.nodes[n].parent
             || (&& r.nodes[n].parent.Some?
                 && |d.nodes| <= r.nodes[n].parent.value < |r.nodes|
                 && r.nodes[r.nodes[n].parent.value].kind.Element?
                 && r.nodes[r.nodes[n].parent.value].parent == d.nodes[n].parent))
  }

  /** Such an extension keeps ancestry among the old nodes: an old node is
      an ancestor-or-self element of another after the edit exactly when it
      was before. */
  lemma {:induction false} ExtendsChain(d: Doc, r: Doc, n: NodeId)
    requires WF(d) && WF(r) && Extends(d, r) && n < |d.nodes|
    ensures forall a | a < |d.nodes| :: a in Chain(r, n) <==> a in Chain(d, n)
    decreases |Below(d, d.nodes[n].rank)|
  {
    assert NodeOk(d, n);
    var q := d.nodes[n].parent;
    assert q.Some? ==> q.value < |d.nodes| && r.nodes[q.value].kind == d.nodes[q.value].kind;
    var up := ParentElement(d, n);
    if up.Some? {
      BelowShrinks(d, up.value, n);
      ExtendsChain(d, r, up.value);
    }
    if r.nodes[n].parent == q {
      assert ParentElement(r, n) == up;
      if up.Some? {
        assert Chain(r, n) == [n] + Chain(r, up.value) && Chain(d, n) == [n] + Chain(d, up.value);
      }
    } else {
      var w := r.nodes[n].parent.value;
      assert ParentElement(r, n) == Some(w) && ParentElement(r, w) == up;
      assert Chain(r, n) == [n] + Chain(r, w);
      if up.Some? {
        assert Chain(r, w) == [w] + Chain(r, up.value) && Chain(d, n) == [n] + Chain(d, up.value);
      }
    }
  }

  lemma ExtendsContains(d: Doc, r: Doc, a: NodeId, b: NodeId)
    requires WF(d) && WF(r) && Extends(d, r) && a < |d.nodes| && b < |d.nodes|
    ensures b < |r.nodes| && (Contains(r, a, b) <==> Contains(d, a, b))
  {
    ExtendsChain(d, r, b);
  }

  /** The wrapper's place in the nesting order: between the parent and the
      element. */
  function WrapRank(d: Doc, c: NodeId, p: NodeId): (rank: real)
    requires c < |d.nodes| && p < |d.nodes| && d.nodes[p].rank < d.nodes[c].rank
    ensures d.nodes[p].rank < rank < d.nodes[c].rank
  {
    (d.nodes[p].rank + d.nodes[c].rank) / 2.0
  }

  /** Which of `s` are elements depends only on their kinds. */
  lemma {:induction false} ElementsKept(d: Doc, r: Doc, s: seq<NodeId>)
    requires forall y | y in s :: y < |d.nodes| && y < |r.nodes| && r.nodes[y].kind == d.nodes[y].kind
    ensures ElementsOf(r, s) == ElementsOf(d, s)
  {
    if s != [] {
      assert s[0] in s;
      assert forall y | y in s[1..] :: y in s;
      ElementsKept(d, r, s[1..]);
    }
  }
}
