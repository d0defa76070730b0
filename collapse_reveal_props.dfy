/**
  What a reveal promises, proved about its specification in CollapseReveal
  (which `ExpandCollapseBlocksToReveal` is proved to implement): every
  enclosing block ends up expanded and nothing else changes, a second reveal
  does nothing, the returned flag is the state of the nearest block's button,
  and the number of notifications is the number of maximal runs of
  consecutive collapsed enclosing blocks. A reveal that throws leaves the
  blocks reached before the throw expanded.
*/
module CollapseRevealProps {
  import opened Dom
  import opened DomEdit
  import opened CollapseState
  import opened CollapseReveal

  /** Every block of `bs` has a button, and the button is checked exactly
      when the block is expanded: the state the change handler maintains. */
  predicate InSync(d: Doc, bs: seq<NodeId>) {
    forall b | b in bs :: b < |d.nodes| && ButtonOf(d, b).Some? && (d.nodes[Btn(d, b)].checked <==> !IsCollapsed(d, b))
  }

  /** For each block of `bs`, whether it is collapsed. */
  function CollapsedFlags(d: Doc, bs: seq<NodeId>): (r: seq<bool>)
    ensures |r| == |bs| && forall i | 0 <= i < |bs| :: r[i] == IsCollapsed(d, bs[i])
  {
    seq(|bs|, i requires 0 <= i < |bs| => IsCollapsed(d, bs[i]))
  }

  /** The `true` entries of `f` are consecutive. */
  predicate Contiguous(f: seq<bool>) {
    forall i, j, k | 0 <= i < j < k < |f| && f[i] && f[k] :: f[j]
  }

  /* Counting runs. */

  lemma {:induction false} RunsZero(f: seq<bool>)
    requires forall i | 0 <= i < |f| :: !f[i]
    ensures Runs(f) == 0
  {
    if f != [] {
      RunsZero(f[1..]);
    }
  }

  lemma {:induction false} RunsPositive(f: seq<bool>, k: nat)
    requires k < |f| && f[k]
    ensures Runs(f) >= 1
  {
    if f[0] && (|f| == 1 || !f[1]) {
    } else if k == 0 {
      RunsPositive(f[1..], 0);
    } else {
      RunsPositive(f[1..], k - 1);
    }
  }

  /** Trailing `false` entries add no run. */
  lemma {:induction false} RunsAppendQuiet(f: seq<bool>, g: seq<bool>)
    requires forall i | 0 <= i < |g| :: !g[i]
    ensures Runs(f + g) == Runs(f)
  {
    if f == [] {
      assert f + g == g;
      RunsZero(g);
    } else {
      assert (f + g)[1..] == f[1..] + g;
      RunsAppendQuiet(f[1..], g);
    }
  }

  /** Consecutive `true` entries form exactly one run. */
  lemma {:induction false} RunsOne(f: seq<bool>, k: nat)
    requires Contiguous(f) && k < |f| && f[k]
    ensures Runs(f) == 1
  {
    var t := f[1..];
    assert Contiguous(t) by {
      forall i, j, l | 0 <= i < j < l < |t| && t[i] && t[l] ensures t[j] {
        assert f[i + 1] && f[l + 1];
      }
    }
    if !f[0] {
      RunsOne(t, k - 1);
    } else if |f| == 1 {
    } else if !f[1] {
      forall i | 0 <= i < |t| ensures !t[i] {
        assert t[i] == f[i + 1];
      }
      RunsZero(t);
    } else {
      RunsOne(t, 0);
    }
  }

  /** A `true`, a later `false` and a still later `true` make two runs. */
  lemma {:induction false} RunsTwo(f: seq<bool>, i: nat, j: nat, k: nat)
    requires i < j < k < |f| && f[i] && !f[j] && f[k]
    ensures Runs(f) >= 2
  {
    var t := f[1..];
    if i > 0 {
      RunsTwo(t, i - 1, j - 1, k - 1);
    } else if !f[1] {
      RunsPositive(t, k - 1);
    } else {
      RunsTwo(t, 0, j - 1, k - 1);
    }
  }

  /* The effect of a reveal. */

  /** After the reveal every block enclosing `e` is expanded and every block
      the reveal reached has its button checked; every node other than the
      reached blocks and their buttons is unchanged. */
  lemma RevealEffect(d: Doc, e: NodeId)
    requires RevealableElement(d, e)
    ensures var r, reach := RevealDoc(d, e), Reach(d, Blocks(d, e));
            && WF(r) && |r.nodes| == |d.nodes|
            && (forall b | b in Blocks(d, e) :: !IsCollapsed(r, b))
            && (forall b | b in reach :: b < |d.nodes| && ButtonOf(d, b).Some? && r.nodes[Btn(d, b)].checked)
            && (forall m | 0 <= m < |d.nodes| && m !in reach && m !in ButtonsOf(d, reach) :: r.nodes[m] == d.nodes[m])
  {
    var bs := Blocks(d, e);
    ReachExpanded(d, bs);
    ReachChecked(d, bs);
    ReachUntouched(d, bs);
  }

  lemma ReachExpanded(d: Doc, bs: seq<NodeId>)
    requires WF(d) && Buttoned(d, Reach(d, bs))
    ensures var r := ExpandBlocks(d, Reach(d, bs));
            |r.nodes| == |d.nodes| && forall b | b in bs :: !IsCollapsed(r, b)
  {
    var reach := Reach(d, bs);
    var r := ExpandBlocks(d, reach);
    ExpandedClasses(d, reach);
    forall b | b in bs ensures !IsCollapsed(r, b) {
      var i := IndexOf(bs, b);
      if i < |reach| {
        assert reach[i] == b && b in reach;
      } else {
        assert !IsCollapsed(d, bs[i]) && b !in reach;
      }
      assert b < |d.nodes|;
      assert Expanded in r.nodes[b].classes;
    }
  }

  /** Expansion adds `expanded` to the blocks of `bs` and changes no other
      class list. */
  lemma ExpandedClasses(d: Doc, bs: seq<NodeId>)
    requires WF(d) && Buttoned(d, bs)
    ensures var r := ExpandBlocks(d, bs);
            && |r.nodes| == |d.nodes|
            && forall m | 0 <= m < |d.nodes| ::
                 r.nodes[m].classes == if m in bs then d.nodes[m].classes + {Expanded} else d.nodes[m].classes
  {
    ExpandBlocksEffect(d, bs);
  }

  lemma ReachChecked(d: Doc, bs: seq<NodeId>)
    requires WF(d) && Buttoned(d, Reach(d, bs))
    ensures var reach := Reach(d, bs);
            var r := ExpandBlocks(d, reach);
            forall b | b in reach :: b < |d.nodes| && ButtonOf(d, b).Some? && r.nodes[Btn(d, b)].checked
  {
    var reach := Reach(d, bs);
    ExpandBlocksEffect(d, reach);
    forall b | b in reach ensures Btn(d, b) in ButtonsOf(d, reach) {
    }
  }

  lemma ReachUntouched(d: Doc, bs: seq<NodeId>)
    requires WF(d) && Buttoned(d, Reach(d, bs))
    ensures var reach := Reach(d, bs);
            var r := ExpandBlocks(d, reach);
            forall m | 0 <= m < |d.nodes| && m !in reach && m !in ButtonsOf(d, reach) :: r.nodes[m] == d.nodes[m]
  {
    ExpandBlocksEffect(d, Reach(d, bs));
  }

  /** The blocks enclosing `e`, its outermost element and the buttons are the
      same after the reveal. */
  lemma RevealFrame(d: Doc, e: NodeId)
    requires RevealableElement(d, e)
    ensures var r := RevealDoc(d, e);
            && WF(r) && e < |r.nodes| && Blocks(r, e) == Blocks(d, e)
            && TopIsNotBlock(r, e) == TopIsNotBlock(d, e)
            && forall n | 0 <= n < |d.nodes| :: ButtonOf(r, n) == ButtonOf(d, n)
  {
    var r := RevealDoc(d, e);
    BlocksFrame(d, r, e);
    MarksButtons(d, r);
  }

  /** A reveal that throws stops at the first reached block without a
      disclosure button, or, when every reached block has one, because the
      outermost element is an expanded block; the blocks reached before the
      throw are expanded with their buttons checked, and every other node is
      unchanged. */
  lemma ThrowEffect(d: Doc, e: NodeId)
    requires WF(d) && e < |d.nodes| && !RevealableElement(d, e)
    ensures var reach := Reach(d, Blocks(d, e));
            var j := ButtonedPrefix(d, reach);
            var r := PartialDoc(d, e);
            && (j < |reach| ==> reach[j] < |d.nodes| && ButtonOf(d, reach[j]).None?)
            && (j == |reach| ==> !RevealDefined(d, e))
            && |r.nodes| == |d.nodes|
            && forall m | 0 <= m < |d.nodes| ::
                 r.nodes[m] == Opened(d.nodes[m], m in reach[..j], m in ButtonsOf(d, reach[..j]))
  {
    var reach := Reach(d, Blocks(d, e));
    var j := ButtonedPrefix(d, reach);
    ExpandBlocksEffect(d, reach[..j]);
    if j < |reach| {
      assert reach[j] in Chain(d, e);
    }
  }

  /** When the outermost element is not itself a block, the element is no
      longer within a collapsed block after the reveal. */
  lemma RevealClearsChain(d: Doc, e: NodeId)
    requires RevealableElement(d, e) && TopIsNotBlock(d, e)
    ensures var r := RevealDoc(d, e);
            WF(r) && e < |r.nodes| && IsWithinCollapsedBlock(r, Some(e)) == Some(false)
  {
    var r := RevealDoc(d, e);
    RevealEffect(d, e);
    RevealFrame(d, e);
    assert WalkDefined(r, e);
    assert forall b | b in Blocks(r, e) :: !IsCollapsed(r, b);
  }

  /** Revealing twice is revealing once: the second reveal reports nothing,
      changes nothing and fires nothing. */
  lemma RevealIdempotent(d: Doc, e: NodeId)
    requires RevealableElement(d, e) && TopIsNotBlock(d, e)
    ensures var r := RevealDoc(d, e);
            && RevealableElement(r, e)
            && !RevealFlag(r, e) && RevealDoc(r, e) == r && RevealEvents(r, e) == 0
  {
    var r := RevealDoc(d, e);
    RevealEffect(d, e);
    RevealFrame(d, e);
    assert Reach(r, Blocks(r, e)) == [];
    assert RevealDoc(r, e) == ExpandBlocks(r, []);
  }

  /** The returned flag: some enclosing block is collapsed and the nearest
      enclosing block's button was unchecked. */
  lemma RevealFlagNearest(d: Doc, e: NodeId)
    requires RevealableElement(d, e)
    ensures (exists b | b in Blocks(d, e) :: IsCollapsed(d, b)) ==>
              Blocks(d, e) != [] && Blocks(d, e)[0] < |d.nodes| && ButtonOf(d, Blocks(d, e)[0]).Some?
    ensures RevealFlag(d, e) <==>
              && (exists b | b in Blocks(d, e) :: IsCollapsed(d, b))
              && !d.nodes[Btn(d, Blocks(d, e)[0])].checked
  {
    var reach := Reach(d, Blocks(d, e));
    if reach != [] {
      assert reach[0] in reach;
      UncheckedAt(d, reach, 0);
    }
  }

  /** With buttons and classes in sync, the flag says whether the nearest
      enclosing block was collapsed. */
  lemma RevealFlagInSync(d: Doc, e: NodeId)
    requires RevealableElement(d, e) && InSync(d, Blocks(d, e))
    ensures RevealFlag(d, e) <==> Blocks(d, e) != [] && IsCollapsed(d, Blocks(d, e)[0])
  {
    RevealFlagNearest(d, e);
    var bs := Blocks(d, e);
    if bs != [] {
      assert bs[0] in bs;
    }
  }

  /** A reveal keeps buttons and classes in sync along the chain, and leaves
      every enclosing block's button checked. */
  lemma RevealKeepsSync(d: Doc, e: NodeId)
    requires RevealableElement(d, e) && InSync(d, Blocks(d, e))
    ensures var r := RevealDoc(d, e);
            && InSync(r, Blocks(d, e))
            && forall b | b in Blocks(d, e) :: r.nodes[Btn(r, b)].checked
  {
    ReachKeepsSync(d, Blocks(d, e));
  }

  lemma ReachKeepsSync(d: Doc, bs: seq<NodeId>)
    requires WF(d) && Buttoned(d, Reach(d, bs)) && InSync(d, bs)
    ensures var r := ExpandBlocks(d, Reach(d, bs));
            && InSync(r, bs)
            && forall b | b in bs :: r.nodes[Btn(r, b)].checked
  {
    var reach := Reach(d, bs);
    var r := ExpandBlocks(d, reach);
    MarksButtons(d, r);
    ReachExpanded(d, bs);
    ExpandedChecked(d, reach);
    forall b | b in bs
      ensures b < |r.nodes| && ButtonOf(r, b).Some? && r.nodes[Btn(r, b)].checked && !IsCollapsed(r, b)
    {
      ReachedOrOpen(d, bs, b);
      var x := Btn(d, b);
      assert ButtonOf(r, b) == Some(x);
      if b in reach {
        assert x in ButtonsOf(d, reach);
      } else {
        assert d.nodes[x].checked;
      }
      assert r.nodes[x].checked;
    }
  }

  /** A block the recursion does not reach is not collapsed. */
  lemma ReachedOrOpen(d: Doc, bs: seq<NodeId>, b: NodeId)
    requires b in bs
    ensures b in Reach(d, bs) || !IsCollapsed(d, b)
  {
    var reach := Reach(d, bs);
    var i := IndexOf(bs, b);
    if i < |reach| {
      assert reach[i] == b;
    }
  }

  /** Expansion checks the buttons of the blocks of `bs` and unchecks
      nothing. */
  lemma ExpandedChecked(d: Doc, bs: seq<NodeId>)
    requires WF(d) && Buttoned(d, bs)
    ensures var r := ExpandBlocks(d, bs);
            && |r.nodes| == |d.nodes|
            && forall m | 0 <= m < |d.nodes| :: r.nodes[m].checked == (m in ButtonsOf(d, bs) || d.nodes[m].checked)
  {
    ExpandBlocksEffect(d, bs);
  }

  /** With buttons and classes in sync, the reveal fires one notification per
      maximal run of consecutive collapsed blocks enclosing the element. */
  lemma RevealEventsInSync(d: Doc, e: NodeId)
    requires RevealableElement(d, e) && InSync(d, Blocks(d, e))
    ensures RevealEvents(d, e) == Runs(CollapsedFlags(d, Blocks(d, e)))
  {
    ReachRuns(d, Blocks(d, e));
  }

  lemma ReachRuns(d: Doc, bs: seq<NodeId>)
    requires Buttoned(d, Reach(d, bs)) && InSync(d, bs)
    ensures Runs(Unchecked(d, Reach(d, bs))) == Runs(CollapsedFlags(d, bs))
  {
    var reach := Reach(d, bs);
    var f, g := Unchecked(d, reach), CollapsedFlags(d, bs[|reach|..]);
    UncheckedInSync(d, reach, bs);
    FlagsSplit(d, bs, |reach|);
    RunsAppendQuiet(f, g);
  }

  /** Where buttons and classes are in sync, a button is unchecked exactly
      when its block is collapsed. */
  lemma UncheckedInSync(d: Doc, part: seq<NodeId>, bs: seq<NodeId>)
    requires Buttoned(d, part) && InSync(d, bs) && |part| <= |bs| && part == bs[..|part|]
    ensures Unchecked(d, part) == CollapsedFlags(d, part)
  {
    var f := Unchecked(d, part);
    forall i | 0 <= i < |part| ensures f[i] == CollapsedFlags(d, part)[i] {
      UncheckedAt(d, part, i);
      assert part[i] in bs;
    }
  }

  lemma FlagsSplit(d: Doc, bs: seq<NodeId>, n: nat)
    requires n <= |bs|
    ensures CollapsedFlags(d, bs) == CollapsedFlags(d, bs[..n]) + CollapsedFlags(d, bs[n..])
  {
    var l, r := CollapsedFlags(d, bs[..n]), CollapsedFlags(d, bs[n..]);
    forall i | 0 <= i < |bs| ensures CollapsedFlags(d, bs)[i] == (l + r)[i] {
      if i < n {
        assert bs[..n][i] == bs[i];
      } else {
        assert bs[n..][i - n] == bs[i];
      }
    }
  }

  /** What the doc comment of `expandCollapseBlocksToReveal` promises, which
      holds when the collapsed enclosing blocks are consecutive: exactly one
      notification. */
  lemma RevealFiresOnce(d: Doc, e: NodeId, k: nat)
    requires RevealableElement(d, e) && InSync(d, Blocks(d, e))
    requires Contiguous(CollapsedFlags(d, Blocks(d, e)))
    requires k < |Blocks(d, e)| && IsCollapsed(d, Blocks(d, e)[k])
    ensures RevealEvents(d, e) == 1
  {
    RevealEventsInSync(d, e);
    RunsOne(CollapsedFlags(d, Blocks(d, e)), k);
  }

  /** What the code does otherwise: a collapsed block, an expanded block
      around it and a collapsed block around that give two notifications. */
  lemma RevealFiresPerRun(d: Doc, e: NodeId, i: nat, j: nat, k: nat)
    requires RevealableElement(d, e) && InSync(d, Blocks(d, e))
    requires i < j < k < |Blocks(d, e)|
    requires IsCollapsed(d, Blocks(d, e)[i]) && !IsCollapsed(d, Blocks(d, e)[j]) && IsCollapsed(d, Blocks(d, e)[k])
    ensures RevealEvents(d, e) >= 2
  {
    RevealEventsInSync(d, e);
    RunsTwo(CollapsedFlags(d, Blocks(d, e)), i, j, k);
  }
}
