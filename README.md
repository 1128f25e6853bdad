# HermiT anywhere core blocking and clash detection, modelled in Dafny

This project models four parts of the HermiT tableau reasoner and proves
properties of them.

- **The core blockers cache** (`blockers_cache.dfy`). It is a chained hash table.
  Each entry is an id-ordered set of tableau nodes that share a blocking core.
  Emptied entries are recycled through a free list. Every cached node records
  its entry (its "blocking cargo"), so it can be removed later even after its
  hash has changed.
- **The anywhere core blocking strategy** (`blocking.dfy`, with the
  side-constraint checks in `suitability.dfy`).
  - It tracks the least node changed since the last pass.
  - Pre-blocking re-runs in creation order from that node on, taking blockers
    from the cache.
  - On the final chance, every block is checked against the core blocking
    constraints. Each blocked node remembers the greatest candidate found invalid
    (its cursor), so later checks resume above it.
- **The rule-compilation hook and its worker `ComputeCoreVariables`**
  (`core_variables.dfy`). They decide which variables of a DL clause are core
  when the clause fires.
- **The clash manager's `tupleAdded`** (`clash_manager.dfy`). It sees every
  tuple the extension tables add. It then either sets a clash with a combined
  dependency set, or derives core inequalities between concrete successors.

`base.dfy` holds the shared vocabulary:
- node ids, literal concepts and roles;
- the answers of the direct blocking checker;
- Java `int` wrap-around;
- id-ordered node sets, which is what the source's `TreeSet<Node>` with
  `NodeIDComparator` amounts to.

Objects whose fields the source updates become classes:
- `CoreBlockersCache`;
- `AnywhereCoreBlocking`;
- `ExtensionManager` / `ClashManager`;
- `ComputeCoreVariables`.

Their methods are proved against value-level specification functions and
predicates. Properties that span several calls are lemmas about those values.

The tableau is passed in as a value, `Blocking.Tableau`. It gives:
- the node list in creation order;
- activity;
- parents;
- atomic concept labels;
- the role and concept assertions.

The direct blocking checker is a datatype of total functions (`Base.DirectBlockingChecker`).

The passes of `computePreBlocking` and `validateBlocks` are stated over
`PassState`. That value holds the node statuses, the blocking-info-changed flags,
the cursors and the set of cached nodes.

## Model

| member | source | states |
|---|---|---|
| Base.CompareNodeIds | src/org/semanticweb/HermiT/blocking/AnywhereCoreBlocking.java:796-798 | the Java int difference of two ids is negative, zero or positive exactly when the first id is below, equal to or above the second, so every node TreeSet is ordered by id |
| Base.WrapInt32 | src/org/semanticweb/HermiT/blocking/AnywhereCoreBlocking.java:797 | the result lies in the Java int range and equals the input when the input already does |
| Base.Negation | src/org/semanticweb/HermiT/tableau/ClashManager.java:53 | the negation of a literal concept has the same atomic concept and the opposite polarity |
| Base.Inverse | src/org/semanticweb/HermiT/blocking/AnywhereCoreBlocking.java:390-404 | the inverse of a role has the same name and the opposite direction |
| Base.First | src/org/semanticweb/HermiT/blocking/AnywhereCoreBlocking.java:632 | `first()` of a non-empty node set is a member at or below every member |
| Base.Ascending | src/org/semanticweb/HermiT/blocking/AnywhereCoreBlocking.java:634 | iterating a node set visits its members in strictly increasing id order, each once |
| Base.AscendingElements | src/org/semanticweb/HermiT/blocking/AnywhereCoreBlocking.java:634 | the iteration order visits every member of the set and nothing else |
| Suitability.IsInLabel | src/org/semanticweb/HermiT/blocking/AnywhereCoreBlocking.java:405-409 | an atomic concept holds when it is in the label, a negated one exactly when it is not |
| Suitability.IsInLabelNegation | src/org/semanticweb/HermiT/blocking/AnywhereCoreBlocking.java:405-409 | a literal's negation holds in a label exactly when the literal does not |
| Suitability.IsInABox | src/org/semanticweb/HermiT/blocking/AnywhereCoreBlocking.java:390-404 | r(first, second) holds when the atomic-role tuple is stored, and for an inverse role when the swapped tuple is stored |
| Suitability.IsInABoxInverse | src/org/semanticweb/HermiT/blocking/AnywhereCoreBlocking.java:390-404 | inv(r)(y, x) holds exactly when r(x, y) does |
| Suitability.Successors | src/org/semanticweb/HermiT/blocking/AnywhereCoreBlocking.java:331-389 | a node is an r-successor exactly when r(blocker, node) holds in the tables |
| Suitability.FillerLookup | src/org/semanticweb/HermiT/blocking/AnywhereCoreBlocking.java:350-386 | the lookup of the filler in the binary table agrees with the filler holding in the successor's label |
| Suitability.HasMoreThanNSuccessors | src/org/semanticweb/HermiT/blocking/AnywhereCoreBlocking.java:331-389 | the answer is true exactly when at least n distinct r-successors of the blocker carry the filler |
| Suitability.ParentConjunctSatisfied | src/org/semanticweb/HermiT/blocking/AnywhereCoreBlocking.java:245-281 | a conjunct is satisfied exactly when one of its disjuncts holds at the blocked node's parent once the blocker replaces the blocked node |
| Suitability.IsBlockedParentSuitable | src/org/semanticweb/HermiT/blocking/AnywhereCoreBlocking.java:243-283 | the answer is true exactly when every conjunct of the conclusions has a disjunct that holds at the blocked node's parent |
| Suitability.BlockerDisjunctSatisfied | src/org/semanticweb/HermiT/blocking/AnywhereCoreBlocking.java:288-326 | at-least, at-most and atomic disjuncts of the blocker's constraints are judged as their meaning after copying to the blocked node requires, counting successors only when needed |
| Suitability.BlockerConjunctSatisfied | src/org/semanticweb/HermiT/blocking/AnywhereCoreBlocking.java:286-328 | a conjunct is satisfied exactly when one of its disjuncts holds of the blocker |
| Suitability.IsBlockerSuitable | src/org/semanticweb/HermiT/blocking/AnywhereCoreBlocking.java:284-330 | the answer is true exactly when every conjunct of the conclusions has a disjunct that holds of the blocker |
| Suitability.CheckUnaryParent | src/org/semanticweb/HermiT/blocking/AnywhereCoreBlocking.java:202-206 | the loop accepts exactly when every unary constraint keyed by a concept of the blocked node's parent is met there |
| Suitability.CheckNAryParent | src/org/semanticweb/HermiT/blocking/AnywhereCoreBlocking.java:208-213 | the loop accepts exactly when every n-ary constraint whose premises all label the blocked node's parent is met there (corrected argument order) |
| Suitability.CheckUnaryBlocker | src/org/semanticweb/HermiT/blocking/AnywhereCoreBlocking.java:215-221 | the loop accepts exactly when every unary constraint keyed by a concept of the blocker is met once copied to the blocked node |
| Suitability.CheckNAryBlocker | src/org/semanticweb/HermiT/blocking/AnywhereCoreBlocking.java:223-228 | the loop accepts exactly when every n-ary constraint whose premises all label the blocker is met once copied |
| Suitability.CheckCandidate | src/org/semanticweb/HermiT/blocking/AnywhereCoreBlocking.java:199-228 | a candidate passes exactly when the parent checks hold and, with inverse roles, the blocker checks hold too (intended loop, see Findings) |
| Suitability.NAryParentArgumentsSwapped | src/org/semanticweb/HermiT/blocking/AnywhereCoreBlocking.java:210 | a constraint accepted when keyed by a concept and by the set holding that concept is rejected by the set-keyed check as written |
| BlockersCache.GetIndexFor | src/org/semanticweb/HermiT/blocking/AnywhereCoreBlocking.java:743-749 | the 32-bit mixed hash masked by a power-of-two length is a bucket index within the table |
| BlockersCache.GetIndexForDoubled | src/org/semanticweb/HermiT/blocking/AnywhereCoreBlocking.java:698-712 | after doubling the table an entry of bucket i lands in bucket i or bucket i + the old length |
| BlockersCache.LowBitsDouble | src/org/semanticweb/HermiT/blocking/AnywhereCoreBlocking.java:748 | masking with twice the length keeps the old low bits and adds at most the old length |
| BlockersCache.FirstMatch | src/org/semanticweb/HermiT/blocking/AnywhereCoreBlocking.java:667-678 | the position found is the first entry of the chain with the node's hash whose least member blocks the node, none when no entry does |
| BlockersCache.LookupIn | src/org/semanticweb/HermiT/blocking/AnywhereCoreBlocking.java:664-668 | the entry found lies in the node's bucket, has the node's hash and a least member that blocks the node |
| BlockersCache.FindMatch | src/org/semanticweb/HermiT/blocking/AnywhereCoreBlocking.java:717-723 | the walk over a chain returns the first matching position |
| BlockersCache.IndexOf | src/org/semanticweb/HermiT/blocking/AnywhereCoreBlocking.java:628-658 | the walk from the head stops at the entry's position, or at the end when the entry is in no earlier position |
| BlockersCache.Unlink | src/org/semanticweb/HermiT/blocking/AnywhereCoreBlocking.java:637-640 | unlinking takes exactly one occurrence of the entry out of a chain that holds it and leaves any other chain alone |
| BlockersCache.UnlinkAt | src/org/semanticweb/HermiT/blocking/AnywhereCoreBlocking.java:637-640 | unlinking at the first occurrence joins the chain before it to the chain after it |
| BlockersCache.Without | src/org/semanticweb/HermiT/blocking/AnywhereCoreBlocking.java:634-636 | the nodes of the given set lose their cargo and every other node keeps its own |
| BlockersCache.ReleaseCargo | src/org/semanticweb/HermiT/blocking/AnywhereCoreBlocking.java:634-636 | the loop over an entry's members in id order leaves exactly those members without cargo |
| BlockersCache.ReleaseEach | src/org/semanticweb/HermiT/blocking/AnywhereCoreBlocking.java:647-649 | setting the cargo of each listed node to null leaves the cargo map without exactly those nodes |
| BlockersCache.Rehash | src/org/semanticweb/HermiT/blocking/AnywhereCoreBlocking.java:699-709 | the new table of the requested size is the old chains folded bucket by bucket, each entry pushed onto the head of the bucket of its hash, and it holds every entry exactly there |
| BlockersCache.RehashChain | src/org/semanticweb/HermiT/blocking/AnywhereCoreBlocking.java:701-708 | walking one chain head first pushes each of its entries onto the head of its new bucket, so the buckets become the head-push fold of that chain |
| BlockersCache.RehashBucket | src/org/semanticweb/HermiT/blocking/AnywhereCoreBlocking.java:700-709 | moving one old bucket keeps the fold equation and the placement of the buckets moved so far |
| BlockersCache.PushChainsFrom | src/org/semanticweb/HermiT/blocking/AnywhereCoreBlocking.java:700-709 | folding the old buckets from index i on is folding bucket i and then the rest |
| BlockersCache.RehashDone | src/org/semanticweb/HermiT/blocking/AnywhereCoreBlocking.java:710-711 | the rehashed table with the new threshold satisfies the table invariant and holds the same entries |
| BlockersCache.CoreBlockersCache.constructor | src/org/semanticweb/HermiT/blocking/AnywhereCoreBlocking.java:610-613 | a new cache is valid and holds no entry and no node |
| BlockersCache.CoreBlockersCache.Clear | src/org/semanticweb/HermiT/blocking/AnywhereCoreBlocking.java:617-622 | clear installs 1024 empty buckets, threshold 768, no element and no free list |
| BlockersCache.CoreBlockersCache.IsEmpty | src/org/semanticweb/HermiT/blocking/AnywhereCoreBlocking.java:614-616 | the cache answers empty exactly when no entry is in the table |
| BlockersCache.CoreBlockersCache.RemoveNode | src/org/semanticweb/HermiT/blocking/AnywhereCoreBlocking.java:623-662 | a node without cargo changes nothing and yields false; removing an entry's least member unlinks the entry, releases all its members' cargo and pushes it blank onto the free list; removing another member drops it and every greater member; only the node and nodes above it leave the cache |
| BlockersCache.CoreBlockersCache.UnlinkEntry | src/org/semanticweb/HermiT/blocking/AnywhereCoreBlocking.java:632-645 | the entry leaves its chain for the head of the free list, blank, its members lose their cargo and the count drops by one |
| BlockersCache.CoreBlockersCache.TruncateEntry | src/org/semanticweb/HermiT/blocking/AnywhereCoreBlocking.java:646-650 | the entry keeps its members below the node, its hash and its place, and the members from the node on lose their cargo |
| BlockersCache.CoreBlockersCache.AddNode | src/org/semanticweb/HermiT/blocking/AnywhereCoreBlocking.java:663-697 | a node joins the first entry of its bucket that matches, or opens a new entry holding only the node: recycled from the free list's head or appended to the arena, every other entry unchanged, pushed onto the head of its bucket, and the table then refolded to double size when the count reaches the threshold; a node already cached is the source's fault; the double of 2^30 buckets is the capacity overflow |
| BlockersCache.CoreBlockersCache.JoinMatch | src/org/semanticweb/HermiT/blocking/AnywhereCoreBlocking.java:668-675 | a node already in the matching entry is the fault; otherwise it joins the entry and records it as cargo |
| BlockersCache.CoreBlockersCache.InsertNew | src/org/semanticweb/HermiT/blocking/AnywhereCoreBlocking.java:679-697 | the new entry holds only the node with its hash, is recycled from the free list's head or appended, and is pushed onto the head of its bucket with every other entry unchanged; when the count reaches the threshold the table is refolded to double size with 75% of it as threshold |
| BlockersCache.CoreBlockersCache.OpenEntry | src/org/semanticweb/HermiT/blocking/AnywhereCoreBlocking.java:682-694 | the free list's head becomes the bucket's first entry, holding the node, and the count grows by one |
| BlockersCache.CoreBlockersCache.FreshEntry | src/org/semanticweb/HermiT/blocking/AnywhereCoreBlocking.java:680-681 | with no free entry, a new blank entry is made available and nothing else changes |
| BlockersCache.CoreBlockersCache.Resize | src/org/semanticweb/HermiT/blocking/AnywhereCoreBlocking.java:698-712 | the buckets become the head-push fold of the old chains into a table of the new capacity, with 75% of it as threshold and the same entries, cargo and free list |
| BlockersCache.CoreBlockersCache.GetBlockerRepresentative | src/org/semanticweb/HermiT/blocking/AnywhereCoreBlocking.java:713-726 | for a node that can be blocked, the least member of the matching entry, which is cached and blocks the node; nothing when the node cannot be blocked or no entry matches |
| BlockersCache.CoreBlockersCache.GetPossibleBlockers | src/org/semanticweb/HermiT/blocking/AnywhereCoreBlocking.java:727-742 | for a node that can be blocked, the members of the matching entry with smaller ids; the empty set otherwise; every answer is cached and below the node |
| Blocking.SetBlocked | src/org/semanticweb/HermiT/blocking/AnywhereCoreBlocking.java:126 | no blocker leaves the node unblocked; a blocker blocks it with the given directness |
| Blocking.StartIndex | src/org/semanticweb/HermiT/blocking/AnywhereCoreBlocking.java:99-104 | the passes start at the first listed node at or above the first changed node; all nodes before it are below that node |
| Blocking.StartIndexSuffix | src/org/semanticweb/HermiT/blocking/AnywhereCoreBlocking.java:99-104 | in creation order, every node from the start index on is at or above the first changed node |
| Blocking.Verdicts | src/org/semanticweb/HermiT/blocking/AnywhereCoreBlocking.java:195-228 | one verdict per candidate, in order, each the side-constraint check of that candidate |
| Blocking.FirstFitSpec | src/org/semanticweb/HermiT/blocking/AnywhereCoreBlocking.java:195-241 | the intended candidate loop returns the first fitting candidate with every earlier one rejected and the last rejection before it, or nothing exactly when none fits, the last candidate then being the last rejection |
| Blocking.ScanAsWritten | src/org/semanticweb/HermiT/blocking/AnywhereCoreBlocking.java:193-237 | the candidate loop as written, with the suitability flag set once before the loop: any blocker it answers is a candidate; the recorded greatest invalid blocker is the one passed in or a candidate; when it answers none, that record is the last candidate, or the one passed in if there were no candidates |
| Blocking.ScanAsWrittenMissesLaterBlocker | src/org/semanticweb/HermiT/blocking/AnywhereCoreBlocking.java:193-237 | with candidates 1 and 2, only 2 fitting, the loop as written returns no blocker and moves the cursor to 2, where the intended loop returns 2 |
| Blocking.ScanAsWrittenFirstOnly | src/org/semanticweb/HermiT/blocking/AnywhereCoreBlocking.java:193-237 | the loop as written can only answer its first candidate: that one if it fits and none otherwise |
| Blocking.ScanAsWrittenRejectsAll | src/org/semanticweb/HermiT/blocking/AnywhereCoreBlocking.java:193-237 | once the suitability flag is false, the loop as written rejects every remaining candidate |
| Blocking.ScanCandidates | src/org/semanticweb/HermiT/blocking/AnywhereCoreBlocking.java:195-241 | the loop over the candidates in id order computes the intended first fit and last rejection |
| Blocking.AboveCursor | src/org/semanticweb/HermiT/blocking/AnywhereCoreBlocking.java:183-186 | the candidates are the possible blockers strictly above the cursor, all of them when there is no cursor |
| Blocking.FirstFitAscending | src/org/semanticweb/HermiT/blocking/AnywhereCoreBlocking.java:195-241 | the loop over a set in id order answers its least fitting member (none when none fits), and a reported rejection does not fit and lies below the answer |
| Blocking.SelectBlocker | src/org/semanticweb/HermiT/blocking/AnywhereCoreBlocking.java:182-241 | the answer is the least possible blocker above the cursor that fits, none when none does, including when nothing lies above an existing cursor; a reported rejection does not fit, lies above the cursor and below the answer (intended loop, see Findings) |
| Blocking.VisitKeepsVisited | src/org/semanticweb/HermiT/blocking/AnywhereCoreBlocking.java:104-134 | visiting a later node leaves a smaller node's recomputed status, cache membership and changed flag as the pass left them |
| Blocking.VisitedNow | src/org/semanticweb/HermiT/blocking/AnywhereCoreBlocking.java:104-134 | the node a visit handles ends settled when recomputed, unchanged otherwise, cached exactly when active, able to block and unblocked, and with its flag cleared when relevant |
| Blocking.ProgressStep | src/org/semanticweb/HermiT/blocking/AnywhereCoreBlocking.java:104-134 | one visit extends the second loop's invariant by one node: visited nodes stay visited, later nodes and nodes outside the pass stay untouched, the cache holds only earlier nodes |
| Blocking.RemovedThenVisited | src/org/semanticweb/HermiT/blocking/AnywhereCoreBlocking.java:98-135 | emptying the cache from the first changed node on and then visiting those nodes leaves every listed node at or above it visited and every other node untouched |
| Blocking.PassKeepsParents | src/org/semanticweb/HermiT/blocking/AnywhereCoreBlocking.java:110-114 | pre-blocking blocks only nodes with a parent, so validateBlocks can read the parent of every blocked node |
| Blocking.BelowSuffix | src/org/semanticweb/HermiT/blocking/AnywhereCoreBlocking.java:122-125 | after the first loop every cached node lies below the node where the second loop starts |
| Blocking.CheckProgressStep | src/org/semanticweb/HermiT/blocking/AnywhereCoreBlocking.java:150-173 | one check extends validateBlocks' invariant by one node: earlier checks stay valid against their parents' final status, later and unlisted nodes stay untouched, the cache only grows |
| Blocking.ValidatedBlocks | src/org/semanticweb/HermiT/blocking/AnywhereCoreBlocking.java:150-173 | after validateBlocks every active listed blocked node is directly blocked by an earlier cached node that passes the side-constraint checks, or indirectly blocked under a blocked parent |
| Blocking.UncacheStep | src/org/semanticweb/HermiT/blocking/AnywhereCoreBlocking.java:100-101 | removing one more node keeps the first loop's invariant on the cached-node sets |
| Blocking.SetCursor | src/org/semanticweb/HermiT/blocking/AnywhereCoreBlocking.java:230-232 | a node's cursor moves only when a rejection was reported, and no other node's cursor changes |
| Blocking.AnywhereCoreBlocking.constructor | src/org/semanticweb/HermiT/blocking/AnywhereCoreBlocking.java:63-72 | a new strategy has an empty cache, no changed node and does not yet validate immediately |
| Blocking.AnywhereCoreBlocking.Clear | src/org/semanticweb/HermiT/blocking/AnywhereCoreBlocking.java:83-86 | clear empties the cache and forgets the changed nodes, and nothing else changes |
| Blocking.AnywhereCoreBlocking.UpdateNodeChange | src/org/semanticweb/HermiT/blocking/AnywhereCoreBlocking.java:448-451 | a reported node joins the changed ones, with the first changed node staying the least reported one; a missing node changes nothing |
| Blocking.AnywhereCoreBlocking.NodeDestroyed | src/org/semanticweb/HermiT/blocking/AnywhereCoreBlocking.java:455-464 | the node leaves the cache, with only nodes at or above it; the "not removed" fault cannot occur; a first changed node at or above the destroyed one is dropped |
| Blocking.AnywhereCoreBlocking.GetValidBlocker | src/org/semanticweb/HermiT/blocking/AnywhereCoreBlocking.java:178-242 | the blocker is the least possible blocker above the node's cursor that passes the side-constraint checks, none when none does; it is cached and below the node; a moved cursor is a rejected candidate above the old cursor and below the blocker (intended loop, see Findings) |
| Blocking.AnywhereCoreBlocking.ChooseStatus | src/org/semanticweb/HermiT/blocking/AnywhereCoreBlocking.java:110-127 | no parent leaves the node unblocked; a blocked parent blocks it indirectly; otherwise it is directly blocked by the validated blocker or, before the first validation, by the cache's representative, and unblocked when there is none; the status is a settled one (intended loop, see Findings) |
| Blocking.ValidChoiceCursor | src/org/semanticweb/HermiT/blocking/AnywhereCoreBlocking.java:183-240 | getValidBlocker's cursor only moves up, to a candidate above the old cursor that does not fit and lies below the answer, and stays unset only when it was unset |
| Blocking.ValidChoiceUnique | src/org/semanticweb/HermiT/blocking/AnywhereCoreBlocking.java:182-241 | getValidBlocker's answer and new cursor are determined by the possible blockers and the old cursor (intended loop, see Findings) |
| Blocking.ChosenSettles | src/org/semanticweb/HermiT/blocking/AnywhereCoreBlocking.java:110-127 | the status chosen for a recomputed node, given a sound cache answer, is a settled one |
| Blocking.ChosenUnique | src/org/semanticweb/HermiT/blocking/AnywhereCoreBlocking.java:110-127 | the choice for a recomputed node fixes its status and cursor |
| Blocking.ChosenCursor | src/org/semanticweb/HermiT/blocking/AnywhereCoreBlocking.java:110-127 | the choice never clears a node's cursor |
| Blocking.AnywhereCoreBlocking.ReblockNode | src/org/semanticweb/HermiT/blocking/AnywhereCoreBlocking.java:110-127 | the stored status and cursor are the ones the source chooses (no parent: unblocked; blocked parent: blocked by it; otherwise getValidBlocker's least fitting candidate above the cursor with the cursor at the last rejection, or the cache's representative before the first validation); no other node's status or cursor changes |
| Blocking.AnywhereCoreBlocking.CacheNode | src/org/semanticweb/HermiT/blocking/AnywhereCoreBlocking.java:128-129 | the unblocked node joins the cache; an overflow occurs exactly when it opens a new entry at the threshold of a table that can no longer double |
| Blocking.AnywhereCoreBlocking.RecomputeNode | src/org/semanticweb/HermiT/blocking/AnywhereCoreBlocking.java:107-130 | the node gets exactly the chosen status and cursor, joins the cache exactly when it can block and ends unblocked, and nothing else changes |
| Blocking.AnywhereCoreBlocking.VisitNode | src/org/semanticweb/HermiT/blocking/AnywhereCoreBlocking.java:105-132 | one visit: a relevant node is recomputed unless it is directly blocked by a node below the first changed one with unchanged info, getting the chosen status and cursor; a skipped node keeps both; its changed flag is cleared when relevant |
| Blocking.AnywhereCoreBlocking.RecomputeChanged | src/org/semanticweb/HermiT/blocking/AnywhereCoreBlocking.java:107-131 | the visit of a node that must be recomputed is one visit step: the node gets the chosen status and cursor, joins the cache exactly when it can block and ends unblocked, and its changed flag is cleared; an overflow leaves the node in the cache; the validation mode, first changed node and reported flag are unchanged |
| Blocking.AnywhereCoreBlocking.ClearChanged | src/org/semanticweb/HermiT/blocking/AnywhereCoreBlocking.java:131 | clearing the blocking-info-changed flag removes exactly that node from the changed set and leaves the rest of the pass state, the validation mode, the first changed node and the reported flag as they were |
| Blocking.AnywhereCoreBlocking.ReblockFrom | src/org/semanticweb/HermiT/blocking/AnywhereCoreBlocking.java:103-134 | the second loop visits every node from the start index on in creation order; relative to the recorded answers, each recomputed node ends with the status and cursor chosen against the statuses of its already visited parent and its recorded answer, and skipped nodes keep both |
| Blocking.AnywhereCoreBlocking.VisitNext | src/org/semanticweb/HermiT/blocking/AnywhereCoreBlocking.java:104-133 | one iteration of the second loop keeps its invariant and moves to the next node |
| Blocking.AnywhereCoreBlocking.RevalidateNext | src/org/semanticweb/HermiT/blocking/AnywhereCoreBlocking.java:151-172 | one iteration of validateBlocks' loop keeps its invariant and moves to the next node |
| Blocking.AnywhereCoreBlocking.ForgetChanges | src/org/semanticweb/HermiT/blocking/AnywhereCoreBlocking.java:135 | after a pass no node counts as changed, and the pass state is as the pass left it |
| Blocking.AnywhereCoreBlocking.Uncache | src/org/semanticweb/HermiT/blocking/AnywhereCoreBlocking.java:100 | removeNode reports whether the node was cached, and only it and nodes above it leave the cache |
| Blocking.AnywhereCoreBlocking.RemoveFrom | src/org/semanticweb/HermiT/blocking/AnywhereCoreBlocking.java:98-102 | the first loop leaves every node from the start index on out of the cache and removes only nodes at or above the first changed node |
| Blocking.AnywhereCoreBlocking.ComputePreBlocking | src/org/semanticweb/HermiT/blocking/AnywhereCoreBlocking.java:93-137 | with no changed node nothing changes; otherwise the nodes from the first changed one on leave the cache and are then visited in creation order, each recomputed node getting, relative to the recorded answers, its chosen status and cursor, and no node counts as changed afterwards |
| Blocking.AnywhereCoreBlocking.RecheckStatus | src/org/semanticweb/HermiT/blocking/AnywhereCoreBlocking.java:152-168 | a directly blocked node gets getValidBlocker's answer as a direct block; an indirectly blocked node under an unblocked parent becomes unblocked; otherwise the status stays (intended loop, see Findings) |
| Blocking.RecheckedUnique | src/org/semanticweb/HermiT/blocking/AnywhereCoreBlocking.java:152-168 | the recheck of a node fixes its new status and cursor |
| Blocking.RecheckedCursor | src/org/semanticweb/HermiT/blocking/AnywhereCoreBlocking.java:152-168 | a recheck never clears a node's cursor |
| Blocking.AnywhereCoreBlocking.RestatusNode | src/org/semanticweb/HermiT/blocking/AnywhereCoreBlocking.java:152-168 | the rechecked status and cursor are stored for the node (a direct block gets getValidBlocker's answer and moved cursor, an indirect block under an unblocked parent is dropped), and no other node's status or cursor changes |
| Blocking.AnywhereCoreBlocking.RevalidateNode | src/org/semanticweb/HermiT/blocking/AnywhereCoreBlocking.java:152-171 | an active blocked node gets exactly the rechecked status and cursor and joins the cache when it ends unblocked and can block; any other node leaves the state as it is |
| Blocking.AnywhereCoreBlocking.RevalidateAll | src/org/semanticweb/HermiT/blocking/AnywhereCoreBlocking.java:150-173 | validateBlocks' loop checks every node in creation order; relative to the recorded answers, each checked node ends with the status and cursor rechecked against its parent's final status, and unchecked nodes stay unchanged |
| Blocking.AnywhereCoreBlocking.ValidateBlocks | src/org/semanticweb/HermiT/blocking/AnywhereCoreBlocking.java:138-177 | blocks are validated immediately from now on; with side constraints every active blocked node gets, relative to the recorded answers, its rechecked status and cursor, and no node counts as changed afterwards; without them nothing else changes |
| Blocking.AnywhereCoreBlocking.ComputeBlocking | src/org/semanticweb/HermiT/blocking/AnywhereCoreBlocking.java:87-92 | pre-blocking, with every recomputed node getting its chosen status and cursor relative to the recorded answers, then on the final chance the recheck of every block relative to its recorded answers; before the final chance the state is the pre-blocked one |
| CoreVariables.BodyCompiledTouchesFirstOnly | src/org/semanticweb/HermiT/blocking/AnywhereCoreBlocking.java:514-531 | the hook writes at most the first flag, and it installs a worker exactly for rules with at most two head atoms that are not inclusions over some variable |
| CoreVariables.InclusionMarksNoneCore | src/org/semanticweb/HermiT/blocking/AnywhereCoreBlocking.java:516-521 | an inclusion leaves no variable core when the flags start out false |
| CoreVariables.DisjunctionMakesCentreCore | src/org/semanticweb/HermiT/blocking/AnywhereCoreBlocking.java:522-527 | a disjunctive rule makes its first variable core and installs no worker |
| CoreVariables.DlClauseBodyCompiled | src/org/semanticweb/HermiT/blocking/AnywhereCoreBlocking.java:514-531 | the outcome and the new flags are those of the hook on values, including the index fault of an empty array for a disjunction |
| CoreVariables.Shallowest | src/org/semanticweb/HermiT/blocking/AnywhereCoreBlocking.java:548-555 | the index found is in range and bound to a tree node |
| CoreVariables.ShallowestIsLeast | src/org/semanticweb/HermiT/blocking/AnywhereCoreBlocking.java:548-555 | no index is found exactly when no binding is a tree node; the one found has least tree depth and is the last of that depth in variable order |
| CoreVariables.CoreAfterAtMostOneNoncore | src/org/semanticweb/HermiT/blocking/AnywhereCoreBlocking.java:545-567 | unless the head is a concept on X, all variables but at most one are core, and a non-core one is bound to a shallowest tree node that every other binding is a root of, equal to or descends from; such a variable is non-core |
| CoreVariables.NoTreeNodeAllCore | src/org/semanticweb/HermiT/blocking/AnywhereCoreBlocking.java:548-566 | with no binding to a tree node every variable is core |
| CoreVariables.ComputeCoreVariables.constructor | src/org/semanticweb/HermiT/blocking/AnywhereCoreBlocking.java:539-543 | the worker keeps the rule, the bindings buffer and the flags it was given |
| CoreVariables.ComputeCoreVariables.Execute | src/org/semanticweb/HermiT/blocking/AnywhereCoreBlocking.java:544-569 | the flags become the worker's result on the current bindings and the program counter advances by one; a rule without head atoms is the source's index fault |
| CoreVariables.ComputeCoreVariables.FindPotentialNoncore | src/org/semanticweb/HermiT/blocking/AnywhereCoreBlocking.java:546-555 | every flag is set and the shallowest tree-node binding with its index is found, or none with index -1 |
| CoreVariables.ComputeCoreVariables.IsNoncore | src/org/semanticweb/HermiT/blocking/AnywhereCoreBlocking.java:557-562 | the answer is true exactly when every binding is a root node, the candidate or one of its descendants |
| Clashes.Inserted | src/org/semanticweb/HermiT/tableau/ClashManager.java:103 | storing a tuple adds exactly that tuple and leaves every other stored fact as it was |
| Clashes.Partners | src/org/semanticweb/HermiT/tableau/ClashManager.java:88-92 | the retrieval with the predicate and the first node bound enumerates exactly the z of the stored tuples P(x, z) |
| Clashes.WithInequalitiesStep | src/org/semanticweb/HermiT/tableau/ClashManager.java:92-107 | adding the inequality for one more retrieved tuple is one addTuple of the core inequality with the combined dependency set |
| Clashes.Complement | src/org/semanticweb/HermiT/tableau/ClashManager.java:53-54 | the complement of a concept or role assertion is a different literal of the same predicate on the same nodes |
| Clashes.AfterTupleAdded | src/org/semanticweb/HermiT/tableau/ClashManager.java:42-110 | a tuple either sets the clash or adds facts, never both; facts only grow, and only inequalities are added or changed |
| Clashes.UnsatisfiableClashes | src/org/semanticweb/HermiT/tableau/ClashManager.java:45-51 | owl:Nothing(x), not rdfs:Literal(x) and x != x set the clash with exactly their own dependency set and change no fact |
| Clashes.ConceptClash | src/org/semanticweb/HermiT/tableau/ClashManager.java:52-64 | a checked concept assertion clashes exactly when its complement is stored, with the union of both dependency sets, and otherwise changes nothing |
| Clashes.ConceptCounterZero | src/org/semanticweb/HermiT/tableau/ClashManager.java:52 | with the node's complementary counter at zero the assertion is not checked, even when the complement is stored |
| Clashes.RoleClash | src/org/semanticweb/HermiT/tableau/ClashManager.java:65-82 | a checked role assertion whose complementary role tuple is stored clashes with the union of both dependency sets |
| Clashes.InequalitiesDerived | src/org/semanticweb/HermiT/tableau/ClashManager.java:83-107 | without a role clash and with a concrete second node, each stored tuple of the complementary role literal from x yields the core inequality y != z, a new one with the combined dependency set; nothing else changes and no clash is set |
| Clashes.DerivedInequalitiesProper | src/org/semanticweb/HermiT/tableau/ClashManager.java:83-107 | every derived inequality relates two different nodes, so its own notification would set no clash |
| Clashes.AbstractDerivesNothing | src/org/semanticweb/HermiT/tableau/ClashManager.java:83 | a role assertion whose second node is abstract derives nothing |
| Clashes.UnmatchedUnchanged | src/org/semanticweb/HermiT/tableau/ClashManager.java:42-110 | an inequality between different nodes, an unchecked role assertion or any other predicate changes neither the facts nor the clash |
| Clashes.ExtensionManager.constructor | src/org/semanticweb/HermiT/tableau/ClashManager.java:27 | a new extension manager stores no fact and has no clash |
| Clashes.ExtensionManager.SetClash | src/org/semanticweb/HermiT/tableau/ClashManager.java:48 | the clash now carries the given dependency set and the facts stay |
| Clashes.ExtensionManager.AddTuple | src/org/semanticweb/HermiT/tableau/ClashManager.java:103 | the facts become those with the tuple stored, and the clash stays |
| Clashes.ClashManager.constructor | src/org/semanticweb/HermiT/tableau/ClashManager.java:34-41 | the clash manager works on the given extension manager |
| Clashes.ClashManager.TupleAdded | src/org/semanticweb/HermiT/tableau/ClashManager.java:42-110 | the extension manager's state afterwards is the one the ordered case analysis prescribes |
| Clashes.ClashManager.DeriveInequalities | src/org/semanticweb/HermiT/tableau/ClashManager.java:85-107 | the loop over the retrieval adds, for every retrieved z, the core inequality y != z with the combined dependency set, and leaves the clash alone |

## Left out

- Statistics, printing and the tableau monitor hooks are not modelled (`printStatistics`, `numBlockingComputed`, `clashDetectionStarted`/`Finished`). They do not affect the results.
- The extension tables, the direct blocking checker, `Node`, `DLClause` and `ExtensionTable.Retrieval` are not part of this model. They are represented by the values they answer:
  - `Blocking.Tableau`, `Base.DirectBlockingChecker`, `Clashes.NodeView`, `CoreVariables.NodeFacts`;
  - the set of stored facts.
- `AnywhereCoreBlocking.initialize`, `isPermanentAssertion`, the `assertionAdded`/`Removed`/`CoreSet` callbacks and `nodeStatusChanged` are left out. Each forwards to the direct blocking checker and then to `updateNodeChange`, which is modelled.
- `Blocking.AnywhereCoreBlocking.ComputePreBlocking`, `ReblockFrom`, `RemoveFrom`, `ValidateBlocks`, `RevalidateAll` and `ComputeBlocking` require what the tableau guarantees:
  - node ids increase in creation order;
  - a parent is older than its child;
  - cached nodes are tableau nodes;
  - every blocked node has a parent.
- The tableau's linked node list is a sequence in creation order. A pass starts at the first listed node at or above the first changed node; this is that node itself whenever it is still in the tableau.
- `Blocking.AnywhereCoreBlocking.ComputePreBlocking` and `ComputeBlocking` state their result through ghost out-states (the state after the first loop, and the pre-blocked state). `RemovedThenVisited`, `PassKeepsParents` and `ValidatedBlocks` turn these into statements about the pass as a whole.
- A capacity overflow in either pass ends that pass at once. This is the source's `NegativeArraySizeException` (line 699) when `addNode` doubles 2^30 buckets. The state reached before it is not described.
- Blocking.AnywhereCoreBlocking.ReblockFrom: each visited node's status and cursor are stated relative to a ghost map of cache answers that the method returns. `VisitNext` pins each answer to the cache's answer at that node's visit, but the loop's contract does not carry that link, because the cache's contents between visits are not described as values. So the contract also admits answers that block nothing.
- Blocking.AnywhereCoreBlocking.ComputePreBlocking: the recomputed statuses and cursors are stated relative to the recorded answers, as for `ReblockFrom`.
- Blocking.AnywhereCoreBlocking.RevalidateAll: each checked node's status and cursor are stated relative to a returned ghost map of possible blockers. `RevalidateNext` pins each entry to the cache's answer at that node's check, but the loop's contract does not carry that link.
- Blocking.AnywhereCoreBlocking.ValidateBlocks: the rechecked statuses and cursors are stated relative to the recorded answers, as for `RevalidateAll`.
- Blocking.AnywhereCoreBlocking.ComputeBlocking: inherits the two gaps above through its recorded pre-blocking and validation answers.
- `Blocking.AnywhereCoreBlocking.GetValidBlocker` returns the node's new cursor instead of writing it into the blocking object; its callers store it.
- The blocking objects themselves are not modelled as objects. Their state is kept in the strategy's `status`, `greatestInvalidBlocker` and `infoChanged` maps.
- `Blocking.FitsAt` treats a candidate without a parent as not fitting. The source would throw there, but cached nodes are tree nodes and always have a parent.
- `BlockersCache.CoreBlockersCache.Clear` also empties the cargo map. The source leaves stale cargo on the nodes, but clear is only called when the tableau discards those nodes.
- `BlockersCache.CoreBlockersCache`: the buckets are a sequence field replaced by each store, not an array updated in place. Resize still fills a fresh array and then adopts its contents. Entries live in an arena addressed by handles, with `m_nextEntry` links represented by the bucket chains and the free list, so aliasing between entries is not modelled.
- BlockersCache.GetIndexFor: the bucket index is `LowBits`, the number formed by the low log2(length) bits of the mixed hash, which is what `& (tableLength - 1)` selects for a power-of-two length (line 748). Its equality with the 32-bit `&` applied to the converted length is not proved: the conversions between `bv32` and integers that it needs are beyond what the verifier can discharge.
- `BlockersCache.CoreBlockersCache.RemoveNode` and `Blocking.AnywhereCoreBlocking.NodeDestroyed`: the two "entry not in cache" faults and the "was not removed" fault are unreachable under the table invariant. They are not modelled as outcomes.
- `BlockersCache.CoreBlockersCache.AddNode` requires that a node already cached be looked up to its own entry. The source's "already in the cache" fault is the `AlreadyCached` outcome.
- Concepts in the conclusions other than at-least, at-most and atomic concepts are excluded by the `Disjunct` datatype. The source's "unexpected class" faults (lines 275 and 322) are therefore not modelled.
- Clashes: one fact map stands for the binary and the ternary extension table.
- `Clashes.Inserted` is this model's reading of `addTuple`, whose code is not part of this model: a stored tuple keeps its dependency set and becomes core when added as core.
- `Clashes.ClashManager.DeriveInequalities`: the retrieval order is a nondeterministic choice over the set of matching tuples.
- `Clashes.ClashManager.DeriveInequalities`: the reentrant `tupleAdded` notification for each derived inequality is not modelled. `DerivedInequalitiesProper` shows that no derived inequality is x != x, and `UnmatchedUnchanged` shows that such a notification changes nothing.
- The assertion at ClashManager.java line 93 is not modelled.
- The auxiliary tuples, the union dependency set object and the retrieval buffers are represented by plain values.
- `CoreVariables`: the index faults of the Java arrays are outcomes:
  - `HeadAtomMissing` for a rule without head atoms;
  - `IndexOutOfBounds` for a disjunction over no variable.
- `CoreVariables.DlClauseBodyCompiled`: the worker list is the `WorkerAdded` outcome.
- `CoreVariables.ComputeCoreVariables.Execute` requires the bindings buffer and the flags to have equal length. The evaluator allocates them together.
- Bindings to non-node values are not modelled.

Two behaviours of the code are worth stating plainly:

- Inequalities are derived from the complementary role literal, not from other assertions of the same role. For R(x, y) the code (ClashManager.java lines 66-70 and 88) retrieves the stored not R(x, z), and for not R(x, y) the stored R(x, z).
- For an inclusion, the code clears only the first core flag and returns (AnywhereCoreBlocking.java lines 517-520); it does not touch the other flags. `InclusionMarksNoneCore` shows that no variable is core afterwards when the flags start out false.

## Findings

| source | as written | input that shows it | evidently intended | confidence | as-written member | corrected member |
|---|---|---|---|---|---|---|
| src/org/semanticweb/HermiT/blocking/AnywhereCoreBlocking.java:193 | `blockerIsSuitable` is set to true once before the candidate loop and never reset, so after the first rejected candidate every later candidate is rejected unchecked | possible blockers 1 and 2 above no cursor, where only 2 passes the checks: no blocker is returned and the cursor moves to 2 | each candidate is checked afresh and the first that passes is returned ("try alternative blockers", line 236) | high; not executed | Blocking.ScanAsWrittenMissesLaterBlocker | Blocking.SelectBlocker |
| src/org/semanticweb/HermiT/blocking/AnywhereCoreBlocking.java:210 | the n-ary parent check passes the labels as (blocked, blocked parent, blocker, blocker parent), while `isBlockedParentSuitable` and the unary call at line 204 use (blocker, blocker parent, blocked, blocked parent) | the constraint A implies C, keyed both by A and by {A}, with blocked parent label {A, C} and blocker parent label {}: the unary check accepts, the n-ary check rejects | the n-ary check uses the same argument order as the unary one | medium; not executed | Suitability.NAryParentArgumentsSwapped | Suitability.CheckNAryParent |
