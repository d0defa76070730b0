# Collapse blocks and link rewrites, modelled in Dafny

This project models the collapse-block machinery of the site's front-end
scripts (js/collapse.js) and the DOM rewrites of js/rewrite.js that
touch the same structures.

A collapse block is an element with class `collapse`. Its disclosure
button is an `input.disclosure-button` checkbox. The block is expanded
when it carries class `expanded`, and collapsed otherwise.

The model covers:

- preparing collapse blocks from the authored markup, in the current way and the legacy way;
- wiring the disclosure buttons (change, hover, mouse-leave and click);
- the expand-locked rendering, which removes the buttons and flattens the blocks;
- the visibility query `isWithinCollapsedBlock`;
- revealing a node or the URL-hash target by expanding every collapsed block around it;
- the find-in-page ancestor expansion;
- table wrappers;
- zero-width spaces after slashes in link text;
- up/down direction classes on links to sections.

The DOM is an arena `Dom.Doc`: a sequence of nodes addressed by index.

- Each node has a kind (an element with a tag, a text node, or a fragment), a class set, an id, its text, a parent and an ordered child list.
- Each node also carries the few pieces of state the scripts read or write: `checked`, the installed `stateChangedHandler`, and its listeners.
- Well-formedness `Dom.WF` makes parent and child links agree and gives each node a real-valued rank above its parent's. Walks up the tree terminate on that rank.

Pure queries (`closest`, `firstElementChild`, `isWithinCollapsedBlock`, the outcome of a whole loop) are functions on `Doc`. Each operation of the scripts that changes the page is a method on `Dom.Page`.

- `Dom.Page` holds the document and the notifications fired so far.
- Each such method is proved equal to a specification function of the old state.
- Its meaning is proved as lemmas about that function.

Notifications of the notification centre are `Dom.Event(name, source)` values appended to `page.events`.

Where the JS throws, the model does not crash. It returns a `false` or `None` outcome and keeps the state that was reached before the throw. Nothing fired after that point is fired. For example, a reveal that reaches a block without a disclosure button leaves the blocks it already expanded expanded, and fires nothing.

The comment above `expandCollapseBlocksToReveal` (js/collapse.js:34-39) disagrees with its code (js/collapse.js:59-74) in two places. The model follows the code in both.

- The comment promises one notification per outside call. The code fires one notification per maximal run of consecutive unchecked buttons along the chain of blocks it expands. It fires exactly once only when the collapsed blocks form a single run (`CollapseRevealProps.RevealFiresOnce`). A chain with an expanded block between two collapsed ones gets at least two notifications (`CollapseRevealProps.RevealFiresPerRun`).
- The comment promises a result that says whether any expansion occurred. The code returns whether the nearest enclosing block's button was unchecked (`CollapseRevealProps.RevealFlagNearest`). So the result is false when only an outer block had to be opened.

## Model

| member | source | states |
|---|---|---|
| Dom.Closest | js/collapse.js:60 | `element.closest(".collapse")`: the first node carrying the class on the chain from the node up through its parent elements, or None when that chain has none |
| Dom.FirstElementChild | js/collapse.js:131 | an element that is a child and no child before it in child order is an element; None exactly when no child is an element |
| Dom.ParentElement | js/collapse.js:110 | the parent when it is an element, else None; a parent element ranks below its child |
| Dom.Chain | js/collapse.js:93-111 | the node followed by its successive parent elements, ending at a node with no parent element |
| CollapseState.IsWithinCollapsedBlock | js/collapse.js:93-111 | true exactly when some collapse block enclosing the element (the element itself included) lacks `expanded`: the whole ancestor chain, not only the nearest block; None (a throw) for a null element and exactly when the walk reaches an expanded block that has no parent element |
| CollapseState.WithinStep | js/collapse.js:97-110 | one level of the walk: no nearest block means no collapsed block; a collapsed nearest block decides true; an expanded one without a parent element throws; otherwise the question and whether it throws are the same for that block's parent element, which ranks lower |
| CollapseState.CollapsedByToggle | js/collapse.js:81-83 | `isCollapsed`: a block is collapsed exactly when it lacks `expanded`, so toggling `expanded` on it decides its state, toggling any other class does not change it, and no other node's state changes |
| CollapseState.BlocksStep | js/collapse.js:97-110 | the blocks enclosing an element are its nearest block followed by the blocks enclosing that block's parent element; a block with no parent element is the only one |
| CollapseState.ButtonOf | js/collapse.js:61 | the block's disclosure button: a child of the block carrying `disclosure-button`, None exactly when no child carries it |
| CollapseState.ButtonsDistinct | js/collapse.js:61 | two different blocks never resolve to the same button |
| CollapseReveal.ExpandBlock | js/collapse.js:62-64 | one level of the reveal: the block gains `expanded`, its button becomes checked, and no other node changes |
| CollapseReveal.ExpandBlocksEffect | js/collapse.js:59-71 | expanding a list of blocks touches exactly those blocks (which gain `expanded`) and their buttons (which become checked) |
| CollapseReveal.Reach | js/collapse.js:56-70 | the blocks the recursion reaches: the enclosing blocks up to and including the outermost collapsed one; empty exactly when none is collapsed, and none beyond it is collapsed |
| CollapseReveal.ElementOf | js/collapse.js:51 | the node itself when it is an element, otherwise its parent element |
| CollapseReveal.RevealNothing | js/collapse.js:56-57 | with no collapsed block around the element the reveal changes nothing, fires nothing and reports no expansion |
| CollapseReveal.RevealStart | js/collapse.js:56-61 | with some collapsed block around the element, the nearest enclosing block exists, is the first block the reveal reaches, and owns a button whenever the reveal runs to the end |
| CollapseReveal.ButtonedPrefix | js/collapse.js:61-62 | how many leading blocks own a disclosure button: the block right after them has none, and the count is the whole list exactly when every block has one |
| CollapseReveal.PartialIsReveal | js/collapse.js:59-74 | when the reveal runs to the end, the document a throw would leave is the reveal's own document |
| CollapseReveal.WalkThrows | js/collapse.js:56 | when `isWithinCollapsedBlock` throws, the reveal does not run to the end and leaves the document unchanged |
| CollapseReveal.NothingToReveal | js/collapse.js:56-57 | when the walk is defined and no enclosing block is collapsed, the reveal runs to the end |
| CollapseReveal.NoButtonThrows | js/collapse.js:60-62 | when the nearest block has no disclosure button, the reveal throws there, leaving the document unchanged |
| CollapseReveal.StepAny | js/collapse.js:59-74 | after the nearest block is expanded, the reveal runs to the end exactly when the reveal of that block's parent element does, and a throw leaves the same document; with no parent element it runs to the end |
| CollapseReveal.StepUpDefined | js/collapse.js:56-70 | after the nearest block is expanded, the walk from its parent element is defined exactly when the walk from the element was |
| CollapseReveal.StepUpPartial | js/collapse.js:66-70 | one level up, the reveal runs to the end on the same inputs and throws leaving the same document |
| CollapseReveal.PartialCons | js/collapse.js:59-70 | expanding a block that owns a button and then the buttoned prefix of the rest is expanding the buttoned prefix of the whole list |
| CollapseReveal.AfterUp | js/collapse.js:70-74 | from what the recursive call returned to what this level returns: it runs to the end exactly when the recursion does; a throw above leaves the partial document of the element; otherwise the flag is this level's, and a notification is added exactly when this level expanded and the recursion reported nothing |
| CollapseReveal.NearestStep | js/collapse.js:59-74 | one level of the recursion: the flag is whether the nearest block's button was unchecked, and the rest of the reveal is the reveal from that block's parent element in the expanded document |
| CollapseReveal.RevealStepUp | js/collapse.js:66-74 | the document, flag and notification count of a reveal are those of the reveal one level up, plus this level's notification when the level above expanded nothing and this one did |
| CollapseReveal.ExpandCollapseBlocksToReveal | js/collapse.js:44-75 | a null node changes nothing; otherwise it throws exactly when the reveal is not defined (no element, `isWithinCollapsedBlock` throws, or a reached block has no button), leaving `ThrownDoc` and firing nothing; when it runs to the end, the result, the new document and the notifications fired are `RevealFlag`, `RevealDoc` and `RevealEvents` of the node's element |
| CollapseReveal.CheckButton | js/collapse.js:62-64 | reports whether the button was unchecked; the result is `ExpandBlock`, where the block is no longer collapsed and its button is checked |
| CollapseReveal.ExpandFromNearestBlock | js/collapse.js:59-74 | the recursion body: runs to the end exactly when the reveal of the element is defined, with the reveal's flag, document and notifications; a throw leaves `PartialDoc` and fires nothing |
| CollapseReveal.ExpandAt | js/collapse.js:62-74 | the same, once the nearest block is known to own a button: expand it, recurse on its parent element, and fire after the recursion returns |
| CollapseReveal.RevealElement | js/collapse.js:316-325 | returns the reveal's flag, with the document and notifications of the reveal; a throw in the reveal propagates with its partial document |
| CollapseReveal.GetHashTargetedElement | js/collapse.js:333-337 | no target when the hash is at most one character long, otherwise the document's match for the hash |
| CollapseReveal.RevealTarget | js/collapse.js:343-355 | no target: nothing happens; otherwise the reveal runs and `Collapse.targetDidReveal` fires exactly when it expanded a block; when the reveal throws, its partial document is left and neither notification fires |
| CollapseRevealProps.RevealEffect | js/collapse.js:44-75 | after the reveal every block enclosing the element is expanded and every reached block's button is checked; every other node is unchanged |
| CollapseRevealProps.ThrowEffect | js/collapse.js:59-70 | a reveal that throws stops at the first reached block without a button, or, when all have one, because the outermost element is an expanded block; the blocks before that point are expanded with their buttons checked and every other node is unchanged |
| CollapseRevealProps.ReachExpanded | js/collapse.js:62-70 | expanding the reached blocks leaves every enclosing block expanded, the ones above the reach included |
| CollapseRevealProps.ExpandedClasses | js/collapse.js:64 | expansion adds `expanded` to the expanded blocks and changes no other class list |
| CollapseRevealProps.ReachChecked | js/collapse.js:63 | expanding the reached blocks checks every reached block's button |
| CollapseRevealProps.ReachUntouched | js/collapse.js:44-75 | expanding the reached blocks leaves every node that is neither a reached block nor its button unchanged |
| CollapseRevealProps.RevealFrame | js/collapse.js:44-75 | the reveal keeps the blocks enclosing the element, its outermost element and every block's button |
| CollapseRevealProps.RevealClearsChain | js/collapse.js:34-39 | when the outermost element is not itself a block, the element is no longer within a collapsed block after the reveal |
| CollapseRevealProps.RevealIdempotent | js/collapse.js:44-75 | when the outermost element is not itself a block, revealing again changes nothing, fires nothing and reports no expansion |
| CollapseRevealProps.RevealFlagNearest | js/collapse.js:62-74 | the flag is true exactly when some block around the element is collapsed and the nearest block's button was unchecked |
| CollapseRevealProps.RevealFlagInSync | js/collapse.js:62-74 | when buttons agree with their blocks' classes, the flag is true exactly when the nearest enclosing block is collapsed |
| CollapseRevealProps.RevealKeepsSync | js/collapse.js:63-64 | the reveal keeps every enclosing block's button in agreement with its class, and leaves all those buttons checked |
| CollapseRevealProps.ReachKeepsSync | js/collapse.js:63-64 | expanding the reached blocks keeps buttons and classes in agreement |
| CollapseRevealProps.ExpandedChecked | js/collapse.js:63 | expansion checks exactly the buttons of the expanded blocks and unchecks nothing |
| CollapseRevealProps.RevealEventsInSync | js/collapse.js:66-71 | with buttons in agreement, the notification count is the number of maximal runs of collapsed blocks along the chain |
| CollapseRevealProps.ReachRuns | js/collapse.js:66-71 | the runs of unchecked buttons among the reached blocks are the runs of collapsed blocks in the whole chain |
| CollapseRevealProps.RevealFiresOnce | js/collapse.js:66-71 | one contiguous run of collapsed blocks (at least one) gives exactly one notification |
| CollapseRevealProps.RevealFiresPerRun | js/collapse.js:66-71 | collapsed, expanded, collapsed along the chain gives at least two notifications |
| CollapsePrepare.ButtonNode | js/collapse.js:124 | a fresh detached `INPUT` with only class `disclosure-button`, checked as asked |
| CollapsePrepare.SectionBlock | js/collapse.js:129-133 | None exactly when the SECTION has no element child (where `firstElementChild.insertAdjacentHTML` throws); otherwise the document `SectionInsert` builds around that first element child |
| CollapsePrepare.SectionInsert | js/collapse.js:129-133 | the new button sits right after the first element child and is that SECTION's child; the SECTION gains `expanded` only when checked; every other old node is unchanged |
| CollapsePrepare.HeadingBlock | js/collapse.js:134-138 | a heading loses `collapse` (and its class attribute when emptied); no other node changes |
| CollapsePrepare.PromoteBlock | js/collapse.js:139-153 | the only-child's DIV parent becomes the block with the button first; the candidate loses `collapse` |
| CollapsePrepare.WrapBlock | js/collapse.js:154-166 | a new `div.collapse` holding the button then the candidate takes the candidate's place; the candidate loses `collapse` |
| CollapsePrepare.WrapAround | js/collapse.js:155-161 | the new wrapper takes the candidate's place among its parent's children and holds the button and then the candidate; no other node changes |
| CollapsePrepare.NewWrapper | js/collapse.js:156-157 | a fresh `div.collapse`, with `expanded` when checked, whose only child is a fresh button; no old node changes |
| CollapsePrepare.SectionBlockInSync | js/collapse.js:129-133 | the prepared SECTION's button is the new one, and its state agrees with `expanded` |
| CollapsePrepare.PromoteBlockInSync | js/collapse.js:139-153 | the promoted parent's button is the new one, and its state agrees with `expanded` |
| CollapsePrepare.WrapBlockInSync | js/collapse.js:154-166 | the wrapper's button is the new one, and its state agrees with `expanded` |
| CollapsePrepare.PrepareOne | js/collapse.js:122-167 | one candidate by the four branches; None exactly where the JS throws (no element child of a SECTION, no parent element of a non-heading) |
| CollapsePrepare.PrepareFrom | js/collapse.js:119-168 | the loop: the document after every candidate, whether it completed, and whether a block started expanded |
| CollapsePrepare.PrepareFromStep | js/collapse.js:122-168 | after a candidate that does not throw, the loop goes on from the next candidate, with the flag set once some candidate contains the hash target |
| CollapsePrepare.PrepareNext | js/collapse.js:123-167 | one candidate: the flag is raised when it contains the hash target, even when the candidate then throws; a throw ends the loop with the document as it stood, otherwise the rest of the loop is that of the next candidate |
| CollapsePrepare.PrepareLoop | js/collapse.js:119-168 | leaves the document and completion `PrepareFrom` gives, and when it completes, its flag too; fires nothing |
| CollapsePrepare.PrepareStartedIff | js/collapse.js:123-127 | when the loop completes, a block started expanded exactly when some candidate contains the hash target in the original document: preparing one candidate never changes what another contains |
| CollapsePrepare.PrepareCollapseBlocks | js/collapse.js:116-172 | runs the loop and fires one `collapseStateDidChange` (source `prepareCollapseBlocks`) exactly when the loop completes and some candidate contains the hash target; a throw fires nothing |
| CollapseButtons.ActivateOne | js/collapse.js:184-189 | one iteration keeps the tree and every class |
| CollapseButtons.ActivateNext | js/collapse.js:184-189 | one iteration on the remaining buttons: what `ActivateAll` does on them equals what it does on the rest after this one |
| CollapseButtons.ActivateAllNodes | js/collapse.js:184-254 | each listed button that had no handler gets one bound to its `closest(".collapse")` block, plus one change and one hover listener; every other node, and every button that had a handler, is unchanged |
| CollapseButtons.ActivateIdempotent | js/collapse.js:186-187 | activating twice is activating once |
| CollapseButtons.ActivateAttachesOnce | js/collapse.js:186-189 | a listed button ends with a handler, and its change-listener count grows by one exactly when it had none before |
| CollapseButtons.ActivateKeepsOk | js/collapse.js:184-254 | activation keeps the listener bookkeeping consistent: preview listeners only on a handler with a block, at most one mouse-leave listener and only while the button is checked, never more mouse-leave than click listeners, and a handler's block encloses its button |
| CollapseButtons.ActivateCollapseBlockDisclosureButtons | js/collapse.js:180-255 | the loop leaves the document `ActivateAll` gives and fires nothing |
| CollapseButtons.ChangedDoc | js/collapse.js:192 | the change handler's effect keeps the tree |
| CollapseButtons.ChangedSyncs | js/collapse.js:192 | after the handler the bound block carries `expanded` exactly when the button is checked; its other classes and every other node are unchanged |
| CollapseButtons.ChangedKeepsButtons | js/collapse.js:192 | the handler changes classes only: no button's handler, listeners or `checked` state |
| CollapseButtons.ChangedIdempotent | js/collapse.js:192 | running the handler twice is running it once |
| CollapseButtons.StateChanged | js/collapse.js:189-224 | the handler: toggles the block and fires one `collapseStateDidChange`; throws, changing nothing, when the button had no enclosing block |
| CollapseButtons.HoverKeepsOk | js/collapse.js:230-237 | the hover callback keeps the listener bookkeeping of `ActivateKeepsOk` |
| CollapseButtons.LeaveKeepsOk | js/collapse.js:238-244 | the mouse-leave listener keeps the listener bookkeeping |
| CollapseButtons.Clicked | js/collapse.js:245-249 | a button whose preview left a click listener ends with no preview listener and without `expanded-temp`, its `checked` state, handler and other classes unchanged; one without a click listener is unchanged |
| CollapseButtons.ClickDoc | js/collapse.js:245-250 | one button's click listeners run: that button becomes `Clicked`, every other node is unchanged |
| CollapseButtons.ClickUpToNode | js/collapse.js:245-251 | the click listeners of several buttons commute: after the first `k` buttons, each one that hears the click is `Clicked` and every other node is as it was |
| CollapseButtons.ClickAt | js/collapse.js:226-251 | a click on a node reaches the listeners of every block enclosing it: each button previewing such a block loses its preview listeners and `expanded-temp`; no `checked` state, handler or other class changes, so no block opens or closes; every other button is untouched |
| CollapseButtons.ClickKeepsOk | js/collapse.js:245-250 | a click keeps the listener bookkeeping |
| CollapseButtons.ClickSettles | js/collapse.js:226-251 | after a click inside a previewed block the preview is permanent: the button stays checked, has no preview listener, and the mouse leaving afterwards changes nothing |
| CollapseButtons.FlipThenClickOk | js/collapse.js:226-251 | flipping a button may leave it unchecked with a mouse-leave listener, but the click that flipped it bubbles through its own block and removes that listener, so the bookkeeping holds again |
| CollapseButtons.ToggleKeepsOk | js/collapse.js:189-250 | a user toggle (the click listeners of every enclosing block, then the change handler) keeps the listener bookkeeping |
| CollapseButtons.ToggleSettles | js/collapse.js:226-251 | toggling a checkbox nested in a block that another button is previewing makes that preview permanent: the outer button has no preview listener left and the mouse leaving the outer block changes nothing |
| CollapseButtons.PreviewThenLeave | js/collapse.js:230-253 | hovering over a collapsed block and then leaving it puts every node back as it was, except that the click listener stays on the block |
| CollapseButtons.PreviewThenClick | js/collapse.js:230-252 | hovering then clicking leaves the block expanded and the button checked, without `expanded-temp` and without preview listeners; for the block's own button this is the state a reveal leaves |
| CollapseButtons.HoverFire | js/collapse.js:230-237 | the delayed hover: a checked button does nothing; otherwise the button is checked, the handler runs and the button gets `expanded-temp` and the block the two temporary listeners |
| CollapseButtons.BlockMouseLeave | js/collapse.js:238-244 | unchecks the button, runs the handler, removes `expanded-temp` and the mouse-leave listener |
| CollapseButtons.BlockClick | js/collapse.js:245-250 | one button's click listener: the document `ClickDoc` gives, firing nothing |
| CollapseButtons.Click | js/collapse.js:226-251 | a click bubbling from a node runs the click listeners of every block it passes through: the document `ClickAt` gives, firing nothing |
| CollapseButtons.UserToggle | js/collapse.js:189-251 | the user flips the checkbox, the click listeners of every block enclosing it run, then the change handler, firing one notification unless it throws |
| CollapseLock.RemoveAll | js/collapse.js:266-268 | removing the buttons keeps the document well formed |
| CollapseLock.RemoveAllEffect | js/collapse.js:266-268 | every removed button is out of the tree; no class changes and no detached node is reattached |
| CollapseLock.LockOne | js/collapse.js:272-288 | one block: reports whether it lacked `expanded` before, and keeps the document well formed |
| CollapseLock.LockOneEffect | js/collapse.js:272-285 | the block loses `collapse` and `expanded` and keeps its other classes; no other class changes; throws exactly when it has no element child |
| CollapseLock.LockUnwrapsChild | js/collapse.js:277-280 | a classless DIV that is the block's only child is unwrapped: its children move into the block and it leaves the tree |
| CollapseLock.LockUnwrapsBlock | js/collapse.js:281-284 | otherwise a block that is now a classless DIV around an only child is itself replaced by its children |
| CollapseLock.BlockBecomesWrapper | js/collapse.js:273-284 | once its classes are dropped, a classless DIV around an only child is itself the node to unwrap, and its parent is untouched |
| CollapseLock.UnwrapOnlyChild | js/collapse.js:277-280 | unwrapping a block's only child moves that child's children into the block and leaves the child detached and empty |
| CollapseLock.UnwrapAround | js/collapse.js:281-284 | unwrapping a block with a single child puts that child in the block's place among its parent's children and detaches the block |
| CollapseLock.StripBlock | js/collapse.js:273-285 | the document edits of one block, equal to `LockOne`'s document, outcome and flag |
| CollapseLock.LockOneFlattened | js/collapse.js:276-285 | once the block has an element child, `LockOne` completes with the unwrapped document and reports whether the block lacked `expanded` |
| CollapseLock.LockFrom | js/collapse.js:271-290 | the loop: the document, whether it completed, and how many notifications fired |
| CollapseLock.CountCollapsed | js/collapse.js:272 | how many blocks lack `expanded`, never more than the blocks |
| CollapseLock.LockFromEffect | js/collapse.js:271-290 | after a complete run no listed block carries `collapse` or `expanded`, no other classes changed, and one notification fired per block that lacked `expanded` |
| CollapseLock.ExpandLockEffect | js/collapse.js:262-291 | after the whole operation completes, the buttons are out of the tree, no block keeps `collapse` or `expanded`, and one notification fired per originally collapsed block |
| CollapseLock.RemoveButtons | js/collapse.js:266-268 | the first loop, equal to `RemoveAll`, firing nothing |
| CollapseLock.FlattenBlock | js/collapse.js:272-288 | the second loop's body, equal to `LockOne`, firing when the block was collapsed |
| CollapseLock.FlattenBlocks | js/collapse.js:271-290 | the second loop, equal to `LockFrom` |
| CollapseLock.ExpandLockCollapseBlocks | js/collapse.js:262-291 | both loops, equal to `LockFrom` after `RemoveAll` |
| RewriteAncestors.FoundButton | js/rewrite.js:266 | the button found by the `#id > .disclosure-button` query: the block's button, and found exactly when the id makes a valid selector and the block has a button child |
| RewriteAncestors.AncestorsFrom | js/rewrite.js:257-270 | the recursion: the document after it, and whether it returned without throwing |
| RewriteAncestors.AncestorsOk | js/rewrite.js:257-270 | it returns normally exactly when every enclosing block's button is found and the outermost element is not a block |
| RewriteAncestors.AncestorsChecked | js/rewrite.js:263-269 | when it returns normally, the checked buttons are those checked before plus the button of every enclosing block |
| RewriteAncestors.FoundPrefix | js/rewrite.js:263-269 | how far the recursion gets: every block before the returned index has its button found, the block at the index does not, and the index is the whole list exactly when every button is found |
| RewriteAncestors.AncestorsPrefixStep | js/rewrite.js:266-269 | when the nearest block's button is found, the recursion gets one block further than it does from the block's parent element |
| RewriteAncestors.AncestorsCheckedAny | js/rewrite.js:257-270 | whatever the outcome, the checked buttons are those checked before plus the buttons of the enclosing blocks, innermost first, up to the first block whose button is not found; it returns normally only when every button is found |
| RewriteAncestors.CheckedAnyTop | js/rewrite.js:266-269 | the outermost step: the nearest block has a button but no parent element, so its button is checked and the recursion throws |
| RewriteAncestors.CheckedUp | js/rewrite.js:266-269 | the checked buttons one level up: the nearest block's button followed by those the recursion from its parent element checks |
| RewriteAncestors.OkAllFoundUp | js/rewrite.js:266-269 | one level up, the recursion still returns normally only when every button is found |
| RewriteAncestors.AncestorsOnlyCheck | js/rewrite.js:257-270 | whatever the outcome, only `checked` changes, and only from false to true; `expanded` is not set |
| RewriteAncestors.ExpandAllAncestorsOfNode | js/rewrite.js:257-270 | equal to `AncestorsFrom`, firing nothing |
| RewriteCollapse.LegacyPrepareOne | js/rewrite.js:129-147 | one legacy candidate; None exactly where the JS throws; the class attribute is kept even when emptied |
| RewriteCollapse.KeepClassAttr | js/rewrite.js:136-144 | only the candidate's class-attribute flag is put back; nothing else changes |
| RewriteCollapse.LegacyAgreesWithPrepare | js/rewrite.js:129-147 | the legacy preparation agrees with the current one without promotion or hash target, except that it keeps the class attribute |
| RewriteCollapse.LegacyStartsCollapsed | js/rewrite.js:130-146 | every block the legacy loop makes starts collapsed, with the freshly inserted unchecked button; a heading ends without `collapse` |
| RewriteCollapse.LegacyFrom | js/rewrite.js:129-147 | the legacy loop: the document and whether it got through every candidate |
| RewriteCollapse.LegacyThrowsStable | js/rewrite.js:129-147 | preparing one candidate never changes whether another throws |
| RewriteCollapse.LegacyCompletes | js/rewrite.js:129-147 | the loop completes exactly when no candidate throws in the original document |
| RewriteCollapse.LegacyPrepareCollapseBlocks | js/rewrite.js:129-147 | the loop, equal to `LegacyFrom`, firing nothing |
| RewriteCollapse.ListenAll | js/rewrite.js:150-152 | registration keeps the document well formed |
| RewriteCollapse.ListenAllEffect | js/rewrite.js:150-152 | one change listener per occurrence of a button in the list, nothing else |
| RewriteCollapse.ListenAllShape | js/rewrite.js:150-152 | registration keeps the tree and every class |
| RewriteCollapse.LegacyAddChangeListeners | js/rewrite.js:150-152 | registers the listeners and returns, for each button, the block `closest(".collapse")` bound it to |
| RewriteCollapse.ListenOneKeeps | js/rewrite.js:150-152 | registering one listener keeps the tree and every class |
| RewriteCollapse.ListenNext | js/rewrite.js:150-152 | one iteration: binds the button to its enclosing `.collapse` in the document before the loop, and the rest of the loop is that of the next button |
| RewriteCollapse.LegacyChangedDoc | js/rewrite.js:153 | the block lacks `expanded` exactly when the button is unchecked; no other class of it and no other node changes |
| RewriteCollapse.LegacyChangedIdempotent | js/rewrite.js:153 | running the listener twice is running it once |
| RewriteCollapse.LegacyStateChanged | js/rewrite.js:152-165 | the listener: throws before any change without a bound block; otherwise toggles and throws exactly when the code-block height fix finds no last element child |
| RewriteTables.MarkParent | js/rewrite.js:101-102 | reusing the parent keeps the tree |
| RewriteTables.NewWrapper | js/rewrite.js:103-104 | wrapping adds exactly one node |
| RewriteTables.WrapTable | js/rewrite.js:100-105 | None exactly when the table has no parent element; otherwise the table is the only element child of a `div.tableWrapper`, other nodes keep their parents, and a node is added exactly when the parent could not be reused |
| RewriteTables.MarkParentEffect | js/rewrite.js:101-102 | reusing the parent wraps the table without adding a node or changing any node's parent |
| RewriteTables.NewWrapperEffect | js/rewrite.js:103-104 | the table ends alone in a `div.tableWrapper`; no node but the table changes parent |
| RewriteTables.WrapTableFixed | js/rewrite.js:100-104 | the step leaves the document unchanged exactly when the table is already wrapped |
| RewriteTables.WrapTableIdempotent | js/rewrite.js:100-104 | after a table is wrapped, wrapping it again changes nothing |
| RewriteTables.WrapKeepsWrapped | js/rewrite.js:100-105 | wrapping one table keeps every other wrapped table wrapped |
| RewriteTables.MarkKeepsWrapped | js/rewrite.js:101-102 | reusing one table's parent keeps every other wrapped table wrapped |
| RewriteTables.NewWrapperKeepsWrapped | js/rewrite.js:103-104 | wrapping one table in a new div keeps every other wrapped table wrapped |
| RewriteTables.TablesFrom | js/rewrite.js:100-105 | the loop keeps every node's kind |
| RewriteTables.TablesCompleted | js/rewrite.js:100-105 | the loop completes exactly when every table has a parent element |
| RewriteTables.WrapTableParent | js/rewrite.js:100-105 | wrapping one table gives a node a parent element exactly when it had one |
| RewriteTables.TablesWrapped | js/rewrite.js:100-105 | after a complete loop every table is wrapped |
| RewriteTables.WrappedStays | js/rewrite.js:100-105 | a table wrapped before the loop is still wrapped after it |
| RewriteTables.WrapTables | js/rewrite.js:100-105 | the loop, equal to `TablesFrom`, firing nothing |
| RewriteLinks.BreakSlashes | js/rewrite.js:200 | the global replace of word, slash, word with word, slash, zero-width space, word; never shortens the text |
| RewriteLinks.StripBreakSlashes | js/rewrite.js:200 | the replace only inserts zero-width spaces |
| RewriteLinks.RoundTrip | js/rewrite.js:200 | removing the zero-width spaces from the result gives back any text that had none |
| RewriteLinks.SlashExample | js/rewrite.js:200 | `a/b/c` becomes `a/`, zero-width space, `b/c`: the match resumes after the consumed word character |
| RewriteLinks.BreakSlashesChanges | js/rewrite.js:200 | the text is unchanged exactly when no word, slash, word occurs; otherwise it grows |
| RewriteLinks.BreaksSitBetweenWords | js/rewrite.js:200 | every inserted zero-width space follows a word character and a slash and precedes a word character |
| RewriteLinks.RewriteLeaf | js/rewrite.js:199-200 | a childless text node gets its text rewritten; any other node is left alone |
| RewriteLinks.RewriteLeaves | js/rewrite.js:198-201 | rewriting child nodes keeps the tree |
| RewriteLinks.RewriteLeavesEffect | js/rewrite.js:198-201 | each listed childless text node is rewritten once, every other node is unchanged |
| RewriteLinks.RewriteChildLeaves | js/rewrite.js:198-201 | rewriting one element's child nodes keeps the tree |
| RewriteLinks.RewriteLinkText | js/rewrite.js:197-202 | rewriting every selected element keeps the tree |
| RewriteLinks.RewriteLinkTextEffect | js/rewrite.js:197-202 | a text node whose parent is selected gets `BreakSlashes` of its text; every other node is unchanged |
| RewriteLinks.RewriteChildren | js/rewrite.js:198-201 | the inner loop, equal to `RewriteChildLeaves` |
| RewriteLinks.RewriteAllLinkText | js/rewrite.js:197-202 | the outer loop, equal to `RewriteLinkText` |
| RewriteSections.FollowsAsymmetric | js/rewrite.js:296 | no node follows itself, and two nodes never follow each other |
| RewriteSections.FollowsTotal | js/rewrite.js:296 | of two nodes in one tree, neither containing the other, one follows the other |
| RewriteSections.ContainedNotFollowing | js/rewrite.js:296 | a node that contains or is contained by the link neither follows nor precedes it, so such a link is marked up |
| RewriteSections.FindSection | js/rewrite.js:294 | the first section, in document order, whose id is the fragment; None exactly when the fragment is empty or no section has that id |
| RewriteSections.MarkLink | js/rewrite.js:294-296 | only the link changes, and not its id |
| RewriteSections.MarkLinkEffect | js/rewrite.js:295-296 | no section found: nothing changes; otherwise the link gains `section-link-down` when the section follows it and `section-link-up` otherwise |
| RewriteSections.MarkLinks | js/rewrite.js:293-297 | marking links keeps the tree |
| RewriteSections.MarkLinksEffect | js/rewrite.js:293-297 | with distinct links, each link ends with the mark its own section gives it |
| RewriteSections.MarkLinksUntouched | js/rewrite.js:293-297 | a node that is not one of the links is unchanged |
| RewriteSections.MarkSectionLinks | js/rewrite.js:293-297 | the loop, equal to `MarkLinks`, firing nothing |

## Left out

- Scrolling, layout, timers and CSS transitions are not modelled. This covers `scrollElementIntoView`, `isOnScreen`, `getBoundingClientRect`, the transition reset at js/collapse.js:194-200, the scroll in the change handler at js/collapse.js:202-221, the scroll in `revealElement` and the `requestAnimationFrame` height fix at js/rewrite.js:160-163. They change no state the model tracks.
- `GWLog` calls are not modelled, because they only log.
- The registration of handlers is not modelled: `addContentLoadHandler`, the `GW.hashHandlingSetupDidComplete` handler, the `selectionchange` listener, and the blur/focus wiring at js/rewrite.js:275-286. The operations they call are modelled and take the node they would receive as a parameter.
- `location.hash`, `selectorFromHash` and the document lookup it feeds are parameters of `GetHashTargetedElement` and `RevealTarget`. `selectorFromHash` is not part of this model.
- `newElement`, `isOnlyChild`, `unwrap` and `onEventAfterDelayDo` are defined outside these files. The model gives them their evident meaning: a new element, the only child node of its parent, replacing an element by its child nodes in place, and a delayed callback that fires as `HoverFire`. The 750 ms delay and the cancellation on an early mouse-leave are not modelled.
- The `querySelectorAll` results are parameters, in document order: candidates, buttons, blocks, tables, the `p a, p a *` elements, the section links and the `#markdownBody section` elements.
- CollapseState.ButtonOf: `querySelector(".disclosure-button")` at js/collapse.js:61 returns the first descendant with that class in document order. The model takes the block's first child with that class. The two differ for a SECTION block whose first element child is, or contains, another collapse block. The SECTION's own button is inserted after that first element child (js/collapse.js:131). The nested block is prepared later in document order, and its button is inserted as its own first child (js/collapse.js:146, js/collapse.js:157), so it comes before the SECTION's button. There the JS reveal checks the nested block's button and sets the SECTION's `expanded` from it, leaving the SECTION's own button as it was; the model checks the SECTION's own button. Every other block's own button is its first child, and so its first descendant button, and the two agree. `expandAllAncestorsOfNode` uses the child selector `#id > .disclosure-button` (js/rewrite.js:266), so `RewriteAncestors.FoundButton` is exact.
- RewriteAncestors.FoundButton: ids are assumed unique in the document, so `#id > .disclosure-button` inside a block matches only that block's own button children.
- RewriteTables.WrapTable: `outerHTML` replacement reparses the table into a new copy, dropping its listeners and giving it a new identity. The model keeps the table node and moves it into the new wrapper. Tables nested inside another table are therefore not re-created. The visible consequence: in the browser, once an outer table is re-created, the live copy of a table nested in it stays unwrapped, because the later iteration wraps the detached original. The model wraps the nested table in the live tree.
- RewriteLinks.RewriteLeaf: only text nodes carry text in this model. A childless element has empty `textContent` and is left alone. Comments and other node types are not modelled.
- RewriteLinks.BreakSlashes: JavaScript's `\w` is taken as ASCII letters, digits and underscore, and the text as a sequence of characters rather than UTF-16 code units.
- RewriteSections.MarkSectionLinks: it requires every fragment to be free of `'` and `\`. Those characters change the attribute selector at js/rewrite.js:294, or make it throw. Percent-decoding of the hash is not modelled.
- RewriteSections.FindSection: an absent `id` is modelled as the empty id, so an empty fragment matches no section. In the browser, `section[id='']` would match a section that has an explicitly empty id attribute.
- RewriteSections.Follows: `compareDocumentPosition` is modelled only through the comparison with `DOCUMENT_POSITION_FOLLOWING`, in tree order within one root. For nodes in different trees the browser sets the disconnected and implementation-specific bits as well, so the comparison is never true there; the model agrees by never letting such nodes follow each other. The other bits (contains, contained-by, preceding) are not modelled.
- RewriteCollapse.LegacyPrepareOne: `Array.prototype.contains` at js/rewrite.js:134 is not standard JavaScript. It is assumed to be membership, like `includes` at js/collapse.js:134.
- RewriteCollapse.LegacyStateChanged: the inline `style.height` reset and the `rectifyCodeBlockHeight` call are not modelled. Only whether the height fix throws is modelled.
- The selection check inside the `selectionchange` handlers is not modelled. The handlers themselves are not modelled either.
- Everything else in js/rewrite.js is not part of this model: full-width blocks, source-code unwrapping, captions, margin notes, smart quotes and instant.page. So is js/extracts-annotations.js.
