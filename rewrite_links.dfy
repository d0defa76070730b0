/*
  Zero-width spaces in link text (js/rewrite.js:197-202): in every leaf
  child of an element inside a paragraph's link, each non-overlapping
  match of "word character, slash, word character", found left to right,
  gets U+200B inserted after the slash, so that browsers may break the
  line there.
*/
module RewriteLinks {
  import opened Dom
  import opened DomEdit

  const ZeroWidthSpace: char := '\U{200B}'

  /** The regular-expression class `\w` (no Unicode flag): ASCII letters,
      digits and the underscore. */
  predicate IsWord(c: char) {
    || ('A' <= c <= 'Z') || ('a' <= c <= 'z') || ('0' <= c <= '9') || c == '_'
  }

  /** `(\w[/])(\w)` matches at position `i`. */
  predicate MatchAt(s: string, i: nat) {
    i + 3 <= |s| && IsWord(s[i]) && s[i + 1] == '/' && IsWord(s[i + 2])
  }

  /** `s.replace(/(\w[/])(\w)/g, "$1​$2")`: a global replace resumes
      after the end of each match, so the word character after a slash is
      consumed and cannot start the next match. */
  function BreakSlashes(s: string): (r: string)
    ensures |s| <= |r|
    decreases |s|
  {
    if MatchAt(s, 0) then [s[0], '/', ZeroWidthSpace, s[2]] + BreakSlashes(s[3..])
    else if s == [] then []
    else [s[0]] + BreakSlashes(s[1..])
  }

  /** Every U+200B removed. */
  function Strip(s: string): (r: string)
    ensures ZeroWidthSpace !in r
    ensures forall c | c in r :: c in s
    decreases |s|
  {
    if s == [] then []
    else if s[0] == ZeroWidthSpace then Strip(s[1..])
    else [s[0]] + Strip(s[1..])
  }

  lemma {:induction false} StripAppend(a: string, b: string)
    ensures Strip(a + b) == Strip(a) + Strip(b)
    decreases |a|
  {
    if a == [] {
      assert a + b == b;
    } else {
      assert (a + b)[0] == a[0] && (a + b)[1..] == a[1..] + b;
      StripAppend(a[1..], b);
    }
  }

  /** Removing the inserted spaces gives back the text (up to any spaces
      it already held). */
  lemma {:induction false} StripBreakSlashes(s: string)
    ensures Strip(BreakSlashes(s)) == Strip(s)
    decreases |s|
  {
    if MatchAt(s, 0) {
      var head := [s[0], '/', ZeroWidthSpace, s[2]];
      StripAppend(head, BreakSlashes(s[3..]));
      StripBreakSlashes(s[3..]);
      var word := [s[0], '/', s[2]];
      assert s[0] != ZeroWidthSpace && s[2] != ZeroWidthSpace;
      assert Strip(head) == word by {
        assert head[1..] == ['/', ZeroWidthSpace, s[2]];
        assert head[2..] == [ZeroWidthSpace, s[2]];
        assert head[3..] == [s[2]] && [s[2]][1..] == [];
        assert Strip([s[2]]) == [s[2]];
        assert Strip(head[2..]) == [s[2]];
        assert Strip(head[1..]) == ['/', s[2]];
      }
      assert Strip(s) == word + Strip(s[3..]) by {
        assert s[1..][1..] == s[2..] && s[2..][1..] == s[3..];
        assert Strip(s[2..]) == [s[2]] + Strip(s[3..]);
        assert Strip(s[1..]) == ['/'] + Strip(s[2..]);
      }
    } else if s != [] {
      StripBreakSlashes(s[1..]);
      assert BreakSlashes(s) == [s[0]] + BreakSlashes(s[1..]);
    }
  }

  /** Text without U+200B comes back unchanged from `Strip`. */
  lemma {:induction false} StripNone(s: string)
    requires ZeroWidthSpace !in s
    ensures Strip(s) == s
    decreases |s|
  {
    if s != [] {
      assert forall c | c in s[1..] :: c in s;
      StripNone(s[1..]);
    }
  }

  /** The round trip: for link text without U+200B, removing every U+200B
      from the rewritten text restores the original. */
  lemma RoundTrip(s: string)
    requires ZeroWidthSpace !in s
    ensures Strip(BreakSlashes(s)) == s
  {
    StripBreakSlashes(s);
    StripNone(s);
  }

  /** The documented example: the second slash is not broken, because
      the `b` before it was consumed by the first match. */
  lemma SlashExample()
    ensures BreakSlashes("a/b/c") == "a/" + [ZeroWidthSpace] + "b/c"
  {
    assert MatchAt("a/b/c", 0);
    assert "a/b/c"[3..] == "/c";
    assert !MatchAt("/c", 0) && "/c"[1..] == "c";
  }

  /** The rewrite changes the text exactly when the pattern occurs in it;
      otherwise it strictly lengthens it. */
  lemma {:induction false} BreakSlashesChanges(s: string)
    ensures BreakSlashes(s) == s <==> forall i: nat | i < |s| :: !MatchAt(s, i)
    ensures (exists i: nat :: i < |s| && MatchAt(s, i)) ==> |s| < |BreakSlashes(s)|
    decreases |s|
  {
    if MatchAt(s, 0) {
      assert |BreakSlashes(s)| == 4 + |BreakSlashes(s[3..])|;
    } else if s != [] {
      BreakSlashesChanges(s[1..]);
      var t := s[1..];
      forall i: nat | i < |t| ensures MatchAt(t, i) <==> MatchAt(s, i + 1) {
      }
      if exists i: nat :: i < |s| && MatchAt(s, i) {
        var i: nat :| i < |s| && MatchAt(s, i);
        assert i > 0 && MatchAt(t, i - 1);
      }
      if forall i: nat | i < |s| :: !MatchAt(s, i) {
        assert forall i: nat | i < |t| :: !MatchAt(t, i);
      }
      assert BreakSlashes(s) == [s[0]] + BreakSlashes(t);
      assert s == [s[0]] + t;
    }
  }

  /** Every inserted U+200B sits right after "word character, slash" and
      right before a word character. */
  lemma {:induction false} BreaksSitBetweenWords(s: string, j: nat)
    requires ZeroWidthSpace !in s
    requires j < |BreakSlashes(s)| && BreakSlashes(s)[j] == ZeroWidthSpace
    ensures 2 <= j < |BreakSlashes(s)| - 1
    ensures IsWord(BreakSlashes(s)[j - 2]) && BreakSlashes(s)[j - 1] == '/'
    ensures IsWord(BreakSlashes(s)[j + 1])
    decreases |s|
  {
    var r := BreakSlashes(s);
    assert s != [];
    if MatchAt(s, 0) {
      var rest := BreakSlashes(s[3..]);
      assert r == [s[0], '/', ZeroWidthSpace, s[2]] + rest;
      if j > 3 {
        assert forall c | c in s[3..] :: c in s;
        assert rest[j - 4] == r[j];
        BreaksSitBetweenWords(s[3..], j - 4);
      }
    } else {
      var rest := BreakSlashes(s[1..]);
      assert r == [s[0]] + rest;
      assert j > 0;
      assert forall c | c in s[1..] :: c in s;
      BreaksSitBetweenWords(s[1..], j - 1);
    }
  }

  /** A leaf child's text after the rewrite. Only leaves are touched; an
      element without children has empty `textContent`, and writing the
      empty string back changes nothing, so only text nodes change. */
  function RewriteLeaf(d: Doc, c: NodeId): (r: Doc)
    requires c < |d.nodes|
    ensures SameShape(d, r)
    ensures forall m | 0 <= m < |d.nodes| && m != c :: r.nodes[m] == d.nodes[m]
    ensures d.nodes[c].kind.Text? && d.nodes[c].children == [] ==>
              r.nodes[c] == d.nodes[c].(text := BreakSlashes(d.nodes[c].text))
    ensures !(d.nodes[c].kind.Text? && d.nodes[c].children == []) ==> r.nodes[c] == d.nodes[c]
  {
    if d.nodes[c].children == [] && d.nodes[c].kind.Text? then
      SetText(d, c, BreakSlashes(d.nodes[c].text))
    else d
  }

  /** `element.childNodes.forEach(...)` over the children `cs`. */
  function RewriteLeaves(d: Doc, cs: seq<NodeId>): (r: Doc)
    requires forall c | c in cs :: c < |d.nodes|
    ensures SameShape(d, r)
    decreases |cs|
  {
    if cs == [] then d
    else
      assert cs[0] in cs;
      assert forall c | c in cs[1..] :: c in cs;
      RewriteLeaves(RewriteLeaf(d, cs[0]), cs[1..])
  }

  /** Text nodes among `cs` get rewritten once each; nothing else changes. */
  lemma {:induction false} RewriteLeavesEffect(d: Doc, cs: seq<NodeId>)
    requires WF(d) && NoDup(cs) && forall c | c in cs :: c < |d.nodes|
    ensures var r := RewriteLeaves(d, cs);
            forall n | 0 <= n < |d.nodes| ::
              r.nodes[n] == d.nodes[n].(text := if n in cs && d.nodes[n].kind.Text?
                                                then BreakSlashes(d.nodes[n].text) else d.nodes[n].text)
    decreases |cs|
  {
    if cs != [] {
      assert cs[0] in cs && NodeOk(d, cs[0]);
      assert forall c | c in cs[1..] :: c in cs;
      var d1 := RewriteLeaf(d, cs[0]);
      SameShapeWF(d, d1);
      RewriteLeavesEffect(d1, cs[1..]);
      assert cs[0] !in cs[1..];
      forall n | n in cs ensures n == cs[0] || n in cs[1..] {
      }
    }
  }

  /** One element's leaf children. */
  function RewriteChildLeaves(d: Doc, e: NodeId): (r: Doc)
    requires WF(d) && e < |d.nodes|
    ensures SameShape(d, r) && WF(r)
  {
    assert NodeOk(d, e);
    var r := RewriteLeaves(d, d.nodes[e].children);
    SameShapeWF(d, r);
    r
  }

  /** The whole loop: each listed element's leaf children, element by
      element. */
  function RewriteLinkText(d: Doc, es: seq<NodeId>): (r: Doc)
    requires forall e | e in es :: e < |d.nodes|
    requires WF(d)
    ensures SameShape(d, r) && WF(r)
    decreases |es|
  {
    if es == [] then d
    else
      assert es[0] in es && NodeOk(d, es[0]);
      assert forall e | e in es[1..] :: e in es;
      var d1 := RewriteChildLeaves(d, es[0]);
      RewriteLinkText(d1, es[1..])
  }

  /** Each text node whose parent is one of the listed elements is
      rewritten exactly once; no other node and no other field changes. */
  lemma {:induction false} RewriteLinkTextEffect(d: Doc, es: seq<NodeId>)
    requires WF(d) && NoDup(es) && forall e | e in es :: e < |d.nodes|
    ensures var r := RewriteLinkText(d, es);
            forall n | 0 <= n < |d.nodes| ::
              r.nodes[n] == d.nodes[n].(text := if InLink(d, es, n)
                                                then BreakSlashes(d.nodes[n].text) else d.nodes[n].text)
    decreases |es|
  {
    if es != [] {
      var e := es[0];
      assert e in es && NodeOk(d, e);
      assert forall x | x in es[1..] :: x in es;
      var d1 := RewriteChildLeaves(d, e);
      RewriteLeavesEffect(d, d.nodes[e].children);
      RewriteLinkTextEffect(d1, es[1..]);
      assert e !in es[1..];
      forall n | 0 <= n < |d.nodes|
        ensures (n in d.nodes[e].children && d.nodes[n].kind.Text?) <==> (d.nodes[n].kind.Text? && d.nodes[n].parent == Some(e))
      {
        assert NodeOk(d, n);
      }
    }
  }

  /** A text node whose parent is one of the listed elements. */
  predicate InLink(d: Doc, es: seq<NodeId>, n: NodeId)
    requires n < |d.nodes|
  {
    d.nodes[n].kind.Text? && d.nodes[n].parent.Some? && d.nodes[n].parent.value in es
  }

  /** The inner `forEach` over one element's child nodes. */
  method RewriteChildren(page: Page, e: NodeId)
    requires page.Valid() && e < |page.doc.nodes|
    modifies page
    ensures page.Valid() && page.events == old(page.events)
    ensures page.doc == RewriteChildLeaves(old(page.doc), e)
  {
    assert NodeOk(page.doc, e);
    ghost var goal := RewriteLeaves(page.doc, page.doc.nodes[e].children);
    var rest: seq<NodeId> := page.doc.nodes[e].children;
    while rest != []
      invariant page.Valid() && page.events == old(page.events)
      invariant forall c | c in rest :: c < |page.doc.nodes|
      invariant RewriteLeaves(page.doc, rest) == goal
      decreases |rest|
    {
      var c := rest[0];
      assert c in rest;
      assert forall x | x in rest[1..] :: x in rest;
      var d0 := page.doc;
      if page.doc.nodes[c].children == [] && page.doc.nodes[c].kind.Text? {
        page.doc := SetText(page.doc, c, BreakSlashes(page.doc.nodes[c].text));
      }
      assert page.doc == RewriteLeaf(d0, c);
      SameShapeWF(d0, page.doc);
      rest := rest[1..];
    }
  }

  /** `document.querySelectorAll("p a, p a *").forEach(...)`: the matching
      elements are given in document order. */
  method RewriteAllLinkText(page: Page, es: seq<NodeId>)
    requires page.Valid() && forall e | e in es :: e < |page.doc.nodes|
    modifies page
    ensures page.Valid() && page.events == old(page.events)
    ensures page.doc == RewriteLinkText(old(page.doc), es)
  {
    ghost var goal := RewriteLinkText(page.doc, es);
    var rest: seq<NodeId> := es;
    while rest != []
      invariant page.Valid() && page.events == old(page.events)
      invariant forall e | e in rest :: e < |page.doc.nodes|
      invariant RewriteLinkText(page.doc, rest) == goal
      decreases |rest|
    {
      var e := rest[0];
      assert e in rest;
      assert forall x | x in rest[1..] :: x in rest;
      RewriteChildren(page, e);
      rest := rest[1..];
    }
  }
}
