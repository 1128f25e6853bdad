/**
  The anywhere core blocking strategy: it tracks the least changed node since
  the last pass, recomputes pre-blocking in creation order from there using the
  core blockers cache, and validates blocks against the core blocking
  constraints, remembering per blocked node the greatest candidate found invalid.
 */
module Blocking {
  import opened Base
  import opened Suitability
  import opened BlockersCache

  /** Node.isBlocked, isDirectlyBlocked and getBlocker of a tableau node. */
  datatype BlockStatus = Unblocked | Blocked(blocker: NodeId, directly: bool)

  /**
    The tableau as the strategy reads it: its node list in creation order,
    which nodes are active, each node's parent, the atomic concept label of each
    node's blocking object, and the extension tables.
   */
  datatype Tableau = Tableau(
    nodes: seq<NodeId>,
    active: NodeId -> bool,
    parent: NodeId -> Option<NodeId>,
    labelOf: NodeId -> set<AtomicConcept>,
    abox: ABox)

  /** The status of a node; nodes never given one are unblocked. */
  function StatusIn(status: map<NodeId, BlockStatus>, n: NodeId): BlockStatus {
    if n in status then status[n] else Unblocked
  }

  /** Node.setBlocked(blocker, directly): no blocker means unblocked. */
  function SetBlocked(blocker: Option<NodeId>, directly: bool): (s: BlockStatus)
    ensures s.Unblocked? <==> blocker.None?
    ensures s.Blocked? ==> s.blocker == blocker.value && s.directly == directly
  {
    match blocker
    case None => Unblocked
    case Some(b) => Blocked(b, directly)
  }

  /** The nodes a pass starting at the first changed node visits: the list from the first id at or above it. */
  function StartIndex(nodes: seq<NodeId>, first: NodeId): (k: nat)
    ensures k <= |nodes|
    ensures forall j :: 0 <= j < k ==> nodes[j] < first
    ensures k < |nodes| ==> first <= nodes[k]
  {
    if nodes == [] || first <= nodes[0] then 0 else 1 + StartIndex(nodes[1..], first)
  }

  /** From the start index on, a list in creation order holds only ids at or above the first changed node. */
  lemma StartIndexSuffix(nodes: seq<NodeId>, first: NodeId)
    requires StrictlyIncreasing(nodes)
    ensures forall j :: StartIndex(nodes, first) <= j < |nodes| ==> first <= nodes[j]
  {
    var k := StartIndex(nodes, first);
    forall j | k <= j < |nodes| ensures first <= nodes[j] {
      if k < j {
        assert nodes[k] < nodes[j];
      }
    }
  }

  /** The first changed node is the least node reported changed since the last pass, and absent when none was. */
  ghost predicate LeastReported(first: Option<NodeId>, reported: set<NodeId>) {
    && (first.None? <==> reported == {})
    && (first.Some? ==> first.value in reported && forall n :: n in reported ==> first.value <= n)
  }

  /** The arguments getValidBlocker hands to the checks for one candidate. */
  function PairingOf(t: Tableau, candidate: NodeId, blocked: NodeId, blockedParent: NodeId): Pairing
    requires t.parent(candidate).Some?
  {
    var candidateParent := t.parent(candidate).value;
    Pairing(candidate, candidateParent, blocked, blockedParent,
            t.labelOf(candidate), t.labelOf(candidateParent), t.labelOf(blocked), t.labelOf(blockedParent))
  }

  /**
    Whether a candidate passes the side-constraint checks for the blocked node.
    Cached nodes are tree nodes, which always have a parent; a candidate without
    one is taken not to fit.
   */
  predicate FitsAt(cs: Constraints, t: Tableau, blocked: NodeId, blockedParent: NodeId, candidate: NodeId) {
    t.parent(candidate).Some? && Fits(cs, t.abox, PairingOf(t, candidate, blocked, blockedParent))
  }

  /** Whether each candidate, in order, passes the side-constraint checks. */
  function Verdicts(cs: Constraints, t: Tableau, blocked: NodeId, blockedParent: NodeId,
                    candidates: seq<NodeId>): (v: seq<bool>)
    ensures |v| == |candidates|
    ensures forall i :: 0 <= i < |v| ==> v[i] == FitsAt(cs, t, blocked, blockedParent, candidates[i])
  {
    seq(|candidates|, i requires 0 <= i < |candidates| => FitsAt(cs, t, blocked, blockedParent, candidates[i]))
  }

  // ---------------------------------------------------------------------------
  // The candidate loop of getValidBlocker

  /**
    The candidate loop as intended: the first candidate that fits, and the last
    candidate rejected before it (or `rejected` when none was).
   */
  function FirstFit(candidates: seq<NodeId>, fit: seq<bool>, rejected: Option<NodeId>)
    : (r: (Option<NodeId>, Option<NodeId>))
    requires |fit| == |candidates|
    decreases |candidates|
  {
    if candidates == [] then (None, rejected)
    else if fit[0] then (Some(candidates[0]), rejected)
    else FirstFit(candidates[1..], fit[1..], Some(candidates[0]))
  }

  /**
    Candidate j is the first that fits, and the last candidate rejected before
    it is the one just before it, or `rejected` when j is the first.
   */
  ghost predicate FirstFitAt(candidates: seq<NodeId>, fit: seq<bool>, rejected: Option<NodeId>,
                             found: NodeId, last: Option<NodeId>, j: int)
    requires |fit| == |candidates|
  {
    && 0 <= j < |candidates| && candidates[j] == found && fit[j]
    && (forall i :: 0 <= i < j ==> !fit[i])
    && last == (if j == 0 then rejected else Some(candidates[j - 1]))
  }

  /**
    FirstFit returns the first fitting candidate, every candidate before it
    being rejected; with none fitting it returns nothing, and the last rejected
    candidate is then the last candidate.
   */
  lemma {:induction false} FirstFitSpec(candidates: seq<NodeId>, fit: seq<bool>, rejected: Option<NodeId>)
    requires |fit| == |candidates|
    ensures var (found, last) := FirstFit(candidates, fit, rejected);
      && (found.None? <==> forall i :: 0 <= i < |fit| ==> !fit[i])
      && (found.Some? ==> exists j :: FirstFitAt(candidates, fit, rejected, found.value, last, j))
      && (found.None? ==> last == (if candidates == [] then rejected else Some(candidates[|candidates| - 1])))
    decreases |candidates|
  {
    var (found, last) := FirstFit(candidates, fit, rejected);
    if candidates == [] {
    } else if fit[0] {
      assert FirstFitAt(candidates, fit, rejected, found.value, last, 0);
    } else {
      FirstFitSpec(candidates[1..], fit[1..], Some(candidates[0]));
      if found.Some? {
        var j :| FirstFitAt(candidates[1..], fit[1..], Some(candidates[0]), found.value, last, j);
        forall i | 0 <= i < j + 1 ensures !fit[i] {
          if i > 0 {
            assert fit[i] == fit[1..][i - 1];
          }
        }
        assert FirstFitAt(candidates, fit, rejected, found.value, last, j + 1);
      } else {
        forall i | 0 <= i < |fit| ensures !fit[i] {
          if i > 0 {
            assert fit[i] == fit[1..][i - 1];
          }
        }
      }
    }
  }

  /**
    The candidate loop as the source writes it: the suitability flag is set once
    before the loop and never reset, so after the first rejection every later
    candidate is rejected without being checked.
   */
  function ScanAsWritten(candidates: seq<NodeId>, fit: seq<bool>, blockerIsSuitable: bool,
                         rejected: Option<NodeId>): (r: (Option<NodeId>, Option<NodeId>))
    requires |fit| == |candidates|
    ensures r.0.Some? ==> r.0.value in candidates
    ensures r.1 == rejected || (r.1.Some? && r.1.value in candidates)
    ensures r.0.None? ==> r.1 == (if candidates == [] then rejected else Some(candidates[|candidates| - 1]))
    decreases |candidates|
  {
    if candidates == [] then (None, rejected)
    else
      var suitable := blockerIsSuitable && fit[0];
      if suitable then (Some(candidates[0]), rejected)
      else ScanAsWritten(candidates[1..], fit[1..], suitable, Some(candidates[0]))
  }

  /**
    With candidates 1 and 2 where only 2 passes the checks, the loop as written
    returns no blocker and moves the cursor to 2, while the intended loop
    returns 2.
   */
  lemma ScanAsWrittenMissesLaterBlocker()
    ensures ScanAsWritten([1, 2], [false, true], true, None) == (None, Some(2))
    ensures FirstFit([1, 2], [false, true], None) == (Some(2), Some(1))
  {
    assert [1, 2][1..] == [2] && [false, true][1..] == [true];
    assert [2][1..] == [] && [true][1..] == [];
  }

  /** The loop as written answers its first candidate when that one fits, and no blocker otherwise. */
  lemma ScanAsWrittenFirstOnly(candidates: seq<NodeId>, fit: seq<bool>, rejected: Option<NodeId>)
    requires |fit| == |candidates| && candidates != []
    ensures ScanAsWritten(candidates, fit, true, rejected).0 ==
            (if fit[0] then Some(candidates[0]) else None)
  {
    if !fit[0] {
      ScanAsWrittenRejectsAll(candidates[1..], fit[1..], Some(candidates[0]));
    }
  }

  /** Once the flag is false the loop as written rejects every remaining candidate. */
  lemma {:induction false} ScanAsWrittenRejectsAll(candidates: seq<NodeId>, fit: seq<bool>, rejected: Option<NodeId>)
    requires |fit| == |candidates|
    ensures ScanAsWritten(candidates, fit, false, rejected).0.None?
    decreases |candidates|
  {
    if candidates != [] {
      ScanAsWrittenRejectsAll(candidates[1..], fit[1..], Some(candidates[0]));
    }
  }

  /**
    The loop over the possible blockers above the cursor, in id order: each
    candidate is checked afresh, the first that fits is returned, and the last
    rejected one is reported so that the cursor can move to it.
   */
  method ScanCandidates(cs: Constraints, t: Tableau, blocked: NodeId, blockedParent: NodeId, candidates: seq<NodeId>)
    returns (found: Option<NodeId>, greatestInvalidBlocker: Option<NodeId>)
    ensures (found, greatestInvalidBlocker) == FirstFit(candidates, Verdicts(cs, t, blocked, blockedParent, candidates), None)
  {
    ghost var fit := Verdicts(cs, t, blocked, blockedParent, candidates);
    greatestInvalidBlocker := None;
    var i := 0;
    while i < |candidates|
      invariant 0 <= i <= |candidates|
      invariant FirstFit(candidates, fit, None) == FirstFit(candidates[i..], fit[i..], greatestInvalidBlocker)
    {
      var possibleBlocker := candidates[i];
      var suitable := false;
      if t.parent(possibleBlocker).Some? {
        suitable := CheckCandidate(cs, t.abox, PairingOf(t, possibleBlocker, blocked, blockedParent));
      }
      assert candidates[i..][1..] == candidates[i + 1..] && fit[i..][1..] == fit[i + 1..];
      if suitable {
        return Some(possibleBlocker), greatestInvalidBlocker;
      }
      greatestInvalidBlocker := Some(possibleBlocker);
      i := i + 1;
    }
    return None, greatestInvalidBlocker;
  }

  /** The side-constraint check for a blocked node and its parent, as a test on candidates. */
  function FitsFor(cs: Constraints, t: Tableau, blocked: NodeId, blockedParent: NodeId): NodeId -> bool {
    (c: NodeId) => FitsAt(cs, t, blocked, blockedParent, c)
  }

  /** m_greatestInvalidBlocker of a node's blocking object. */
  function CursorOf(greatestInvalidBlocker: map<NodeId, NodeId>, n: NodeId): Option<NodeId> {
    if n in greatestInvalidBlocker then Some(greatestInvalidBlocker[n]) else None
  }

  /** The possible blockers strictly above the cursor: tailSet(cursor) without the cursor itself. */
  function AboveCursor(possible: set<NodeId>, cursor: Option<NodeId>): (r: set<NodeId>)
    ensures forall c :: c in r <==> c in possible && (cursor.Some? ==> cursor.value < c)
  {
    if cursor.None? then possible else set c | c in possible && cursor.value < c
  }

  /**
    The least candidate of a node set that fits, or none when none does: what
    getValidBlocker promises of its answer.
   */
  ghost predicate LeastFitting(fits: NodeId -> bool, candidates: set<NodeId>, r: Option<NodeId>) {
    && (r.Some? ==> r.value in candidates && fits(r.value))
    && (r.Some? ==> forall c :: c in candidates && c < r.value ==> !fits(c))
    && (r.None? ==> forall c :: c in candidates ==> !fits(c))
  }

  /** The candidates the loop rejects before it stops: those below its answer, or all of them when there is none. */
  function RejectedBefore(candidates: set<NodeId>, b: Option<NodeId>): (r: set<NodeId>)
    ensures forall c :: c in r <==> c in candidates && (b.Some? ==> c < b.value)
  {
    if b.None? then candidates else set c | c in candidates && c < b.value
  }

  /**
    Where getValidBlocker leaves a node's cursor after answering b: at the
    greatest candidate it rejected, or where it was when it rejected none.
   */
  function MovedCursor(candidates: set<NodeId>, b: Option<NodeId>, cursor: Option<NodeId>): Option<NodeId> {
    var rejected := RejectedBefore(candidates, b);
    if rejected == {} then cursor else Some(Last(rejected))
  }

  /**
    The candidate loop run over a node set in id order returns the least
    candidate that fits, and the last candidate it rejected is the greatest
    candidate below that answer (of all candidates when none fits).
   */
  lemma FirstFitAscending(candidates: set<NodeId>, order: seq<NodeId>, fit: seq<bool>, fits: NodeId -> bool)
    requires StrictlyIncreasing(order) && Elements(order) == candidates
    requires |fit| == |order|
    requires forall i :: 0 <= i < |fit| ==> fit[i] == fits(order[i])
    ensures var (found, last) := FirstFit(order, fit, None);
      && LeastFitting(fits, candidates, found)
      && last == MovedCursor(candidates, found, None)
  {
    FirstFitSpec(order, fit, None);
    var (found, last) := FirstFit(order, fit, None);
    forall c | c in candidates
      ensures exists i :: 0 <= i < |order| && order[i] == c
    {
      assert c in Elements(order);
    }
    if found.Some? {
      var j :| FirstFitAt(order, fit, None, found.value, last, j);
      forall c | c in candidates && c < found.value ensures !fits(c) {
        var i :| 0 <= i < |order| && order[i] == c;
      }
      RejectedPrefix(order, candidates, found, j);
    } else {
      forall c | c in candidates ensures !fits(c) {
        var i :| 0 <= i < |order| && order[i] == c;
      }
      RejectedPrefix(order, candidates, found, |order|);
    }
  }

  /**
    When the scan of an ascending order stops at index j (the end when it
    finds nothing), the cursor it reports is the candidate just before j.
   */
  lemma RejectedPrefix(order: seq<NodeId>, candidates: set<NodeId>, b: Option<NodeId>, j: nat)
    requires StrictlyIncreasing(order) && Elements(order) == candidates && j <= |order|
    requires b.Some? ==> j < |order| && order[j] == b.value
    requires b.None? ==> j == |order|
    ensures MovedCursor(candidates, b, None) == (if j == 0 then None else Some(order[j - 1]))
  {
    var rejected := RejectedBefore(candidates, b);
    forall c | c in rejected ensures exists i :: 0 <= i < j && order[i] == c {
      assert c in Elements(order);
      var i :| 0 <= i < |order| && order[i] == c;
      if b.Some? {
        IndexBelow(order, i, j);
      }
    }
    if j == 0 {
      assert rejected == {};
    } else {
      assert order[j - 1] in Elements(order);
      assert order[j - 1] in rejected by {
        if b.Some? { assert order[j - 1] < order[j]; }
      }
      forall c | c in rejected ensures c <= order[j - 1] {
        var i :| 0 <= i < j && order[i] == c;
        if i < j - 1 { assert order[i] < order[j - 1]; }
      }
      assert Last(rejected) == order[j - 1];
    }
  }

  /**
    The body of getValidBlocker on the node sets: the candidates are the
    possible blockers strictly above the cursor, scanned in id order; an empty
    set above an existing cursor gives no blocker at once. The answer is the
    least candidate that fits, and the reported rejected candidate, where the
    cursor moves, is the greatest candidate below the answer, none when there
    is none.
   */
  method SelectBlocker(cs: Constraints, t: Tableau, blocked: NodeId, possible: set<NodeId>, cursor: Option<NodeId>)
    returns (r: Option<NodeId>, rejected: Option<NodeId>)
    requires t.parent(blocked).Some?
    ensures LeastFitting(FitsFor(cs, t, blocked, t.parent(blocked).value), AboveCursor(possible, cursor), r)
    ensures rejected == MovedCursor(AboveCursor(possible, cursor), r, None)
  {
    var candidates := AboveCursor(possible, cursor);
    if cursor.Some? && candidates == {} {
      return None, None;
    }
    var blockedParent := t.parent(blocked).value;
    var order := Ascending(candidates);
    r, rejected := ScanCandidates(cs, t, blocked, blockedParent, order);
    AscendingElements(candidates);
    FirstFitAscending(candidates, order, Verdicts(cs, t, blocked, blockedParent, order),
                      FitsFor(cs, t, blocked, blockedParent));
  }

  // ---------------------------------------------------------------------------
  // What a pass leaves behind

  /** A node the strategy looks at: active, and able to be blocked or to block (root nodes are neither). */
  predicate Relevant(t: Tableau, checker: DirectBlockingChecker, n: NodeId) {
    t.active(n) && (checker.canBeBlocked(n) || checker.canBeBlocker(n))
  }

  /**
    Whether computePreBlocking recomputes a relevant node: its blocking
    information changed, or it is not directly blocked, or its blocker is at or
    above the first changed node.
   */
  predicate Recomputed(t: Tableau, checker: DirectBlockingChecker, status: map<NodeId, BlockStatus>,
                       infoChanged: set<NodeId>, first: NodeId, n: NodeId) {
    && Relevant(t, checker, n)
    && (n in infoChanged || !(StatusIn(status, n).Blocked? && StatusIn(status, n).directly)
        || StatusIn(status, n).blocker >= first)
  }

  /**
    The status a recomputed node ends with: unblocked without a parent,
    blocked by its parent when the parent is blocked, and otherwise unblocked or
    directly blocked by an earlier node that passes the side-constraint
    checks once blocks are validated immediately, and that the direct blocking
    checker accepts before.
   */
  predicate Settled(cs: Constraints, t: Tableau, checker: DirectBlockingChecker, immediately: bool,
                    status: map<NodeId, BlockStatus>, n: NodeId) {
    var s := StatusIn(status, n);
    match t.parent(n)
    case None => s == Unblocked
    case Some(p) =>
      if StatusIn(status, p).Blocked? then s == Blocked(p, false)
      else
        s.Unblocked? ||
        (&& s.directly && s.blocker < n
         && (immediately ==> FitsAt(cs, t, n, p, s.blocker))
         && (!immediately ==> checker.isBlockedBy(s.blocker, n)))
  }

  /** The blocker of a status, none for an unblocked node. */
  function BlockerOf(s: BlockStatus): (b: Option<NodeId>)
    ensures b.Some? <==> s.Blocked?
    ensures b.Some? ==> b.value == s.blocker
  {
    if s.Blocked? then Some(s.blocker) else None
  }

  /**
    What the cache answers for a node at the moment the strategy handles it:
    getPossibleBlockers and getBlockerRepresentative.
   */
  datatype CacheAnswer = CacheAnswer(possible: set<NodeId>, representative: Option<NodeId>)

  /**
    What the cache promises of its answer for node n: the possible blockers
    lie below n, and the representative lies below n and blocks it in the
    direct blocking checker's sense.
   */
  ghost predicate AnswerSound(checker: DirectBlockingChecker, n: NodeId, a: CacheAnswer) {
    && (forall c :: c in a.possible ==> c < n)
    && (a.representative.Some? ==> a.representative.value < n && checker.isBlockedBy(a.representative.value, n))
  }

  /**
    getValidBlocker for node n with parent p, given the possible blockers and
    n's cursor: the answer b is the least possible blocker above the cursor
    that passes the side-constraint checks, none when none does, and the
    cursor moves to the greatest candidate rejected before b.
   */
  ghost predicate ValidChoice(cs: Constraints, t: Tableau, n: NodeId, p: NodeId, possible: set<NodeId>,
                              cursor: Option<NodeId>, b: Option<NodeId>, newCursor: Option<NodeId>) {
    var candidates := AboveCursor(possible, cursor);
    && LeastFitting(FitsFor(cs, t, n, p), candidates, b)
    && newCursor == MovedCursor(candidates, b, cursor)
  }

  /**
    getValidBlocker's cursor only moves up, to a candidate above the old
    cursor that does not fit and lies below the answer; it stays unset only
    when it was unset.
   */
  lemma ValidChoiceCursor(cs: Constraints, t: Tableau, n: NodeId, p: NodeId, possible: set<NodeId>,
                          cursor: Option<NodeId>, b: Option<NodeId>, newCursor: Option<NodeId>)
    requires ValidChoice(cs, t, n, p, possible, cursor, b, newCursor)
    ensures newCursor != cursor ==>
      && newCursor.Some? && newCursor.value in AboveCursor(possible, cursor)
      && !FitsAt(cs, t, n, p, newCursor.value) && (b.Some? ==> newCursor.value < b.value)
    ensures cursor.Some? ==> newCursor.Some? && cursor.value <= newCursor.value
    ensures newCursor.None? ==> cursor.None?
  {
    var candidates := AboveCursor(possible, cursor);
    var rejected := RejectedBefore(candidates, b);
    if rejected != {} {
      var m := Last(rejected);
      assert m in candidates;
      if b.None? {
        assert !FitsFor(cs, t, n, p)(m);
      }
    }
  }

  /** getValidBlocker's answer and cursor are determined by the possible blockers, the cursor and the checks. */
  lemma ValidChoiceUnique(cs: Constraints, t: Tableau, n: NodeId, p: NodeId, possible: set<NodeId>,
                          cursor: Option<NodeId>, b1: Option<NodeId>, c1: Option<NodeId>,
                          b2: Option<NodeId>, c2: Option<NodeId>)
    requires ValidChoice(cs, t, n, p, possible, cursor, b1, c1)
    requires ValidChoice(cs, t, n, p, possible, cursor, b2, c2)
    ensures b1 == b2 && c1 == c2
  {
  }

  /**
    The status and cursor computePreBlocking gives a node n it recomputes,
    from the statuses, n's cursor and the cache's answer: unblocked without a
    parent, indirectly blocked by a blocked parent, and otherwise directly
    blocked by getValidBlocker's answer once blocks are validated immediately
    and by the cache's representative before; unblocked when that is none.
    Only getValidBlocker moves the cursor.
   */
  ghost predicate Chosen(cs: Constraints, t: Tableau, immediately: bool, status: map<NodeId, BlockStatus>,
                         cursor: Option<NodeId>, n: NodeId, a: CacheAnswer, s: BlockStatus, newCursor: Option<NodeId>) {
    match t.parent(n)
    case None => s == Unblocked && newCursor == cursor
    case Some(p) =>
      if StatusIn(status, p).Blocked? then s == Blocked(p, false) && newCursor == cursor
      else if immediately then
        (s.Blocked? ==> s.directly) && ValidChoice(cs, t, n, p, a.possible, cursor, BlockerOf(s), newCursor)
      else s == SetBlocked(a.representative, a.representative.Some?) && newCursor == cursor
  }

  /** The choice is one a recomputed node may settle on, given a sound answer of the cache. */
  lemma ChosenSettles(cs: Constraints, t: Tableau, checker: DirectBlockingChecker, immediately: bool,
                      status: map<NodeId, BlockStatus>, cursor: Option<NodeId>, n: NodeId, a: CacheAnswer,
                      newCursor: Option<NodeId>)
    requires AnswerSound(checker, n, a)
    requires Chosen(cs, t, immediately, status, cursor, n, a, StatusIn(status, n), newCursor)
    ensures Settled(cs, t, checker, immediately, status, n)
  {
    var s := StatusIn(status, n);
    match t.parent(n)
    case None =>
    case Some(p) =>
      if !StatusIn(status, p).Blocked? && s.Blocked? && immediately {
        assert s.blocker in a.possible;
        assert FitsFor(cs, t, n, p)(s.blocker);
      }
  }

  /** The choice fixes the status and the cursor: two choices from the same state and answer agree. */
  lemma ChosenUnique(cs: Constraints, t: Tableau, immediately: bool, status: map<NodeId, BlockStatus>,
                     cursor: Option<NodeId>, n: NodeId, a: CacheAnswer,
                     s1: BlockStatus, c1: Option<NodeId>, s2: BlockStatus, c2: Option<NodeId>)
    requires Chosen(cs, t, immediately, status, cursor, n, a, s1, c1)
    requires Chosen(cs, t, immediately, status, cursor, n, a, s2, c2)
    ensures s1 == s2 && c1 == c2
  {
    match t.parent(n)
    case None =>
    case Some(p) =>
      if !StatusIn(status, p).Blocked? && immediately {
        ValidChoiceUnique(cs, t, n, p, a.possible, cursor, BlockerOf(s1), c1, BlockerOf(s2), c2);
      }
  }

  /** A chosen cursor is unset only when it was unset, so storing it leaves the node's cursor equal to it. */
  lemma ChosenCursor(cs: Constraints, t: Tableau, immediately: bool, status: map<NodeId, BlockStatus>,
                     cursor: Option<NodeId>, n: NodeId, a: CacheAnswer, s: BlockStatus, newCursor: Option<NodeId>)
    requires Chosen(cs, t, immediately, status, cursor, n, a, s, newCursor)
    ensures newCursor.None? ==> newCursor == cursor
  {
    match t.parent(n)
    case None =>
    case Some(p) =>
      if !StatusIn(status, p).Blocked? && immediately {
        ValidChoiceCursor(cs, t, n, p, a.possible, cursor, BlockerOf(s), newCursor);
      }
  }

  /**
    The part of the strategy's state a pass changes, as values: the node
    statuses, the changed flags, the cursors and the cached nodes.
   */
  datatype PassState = PassState(
    status: map<NodeId, BlockStatus>,
    infoChanged: set<NodeId>,
    cursors: map<NodeId, NodeId>,
    cached: set<NodeId>)

  /**
    One visit of computePreBlocking's second loop, from state s0 to s1, with
    the cache answering a for the node: a recomputed node gets the chosen
    status and cursor and every other keeps its status and cursor; the node
    joins the cache when it ends unblocked, active and able to block; no other
    node's cursor changes; a relevant node's changed flag is cleared.
   */
  ghost predicate VisitStep(cs: Constraints, t: Tableau, checker: DirectBlockingChecker, immediately: bool,
                            first: NodeId, node: NodeId, a: CacheAnswer, s0: PassState, s1: PassState) {
    var recomputed := Recomputed(t, checker, s0.status, s0.infoChanged, first, node);
    && (recomputed ==> AnswerSound(checker, node, a))
    && (recomputed ==> s1.status == s0.status[node := StatusIn(s1.status, node)])
    && (recomputed ==> Chosen(cs, t, immediately, s1.status, CursorOf(s0.cursors, node), node, a,
                              StatusIn(s1.status, node), CursorOf(s1.cursors, node)))
    && (!recomputed ==> s1.status == s0.status && CursorOf(s1.cursors, node) == CursorOf(s0.cursors, node))
    && s1.cached == s0.cached +
       (if t.active(node) && checker.canBeBlocker(node) && StatusIn(s1.status, node) == Unblocked then {node} else {})
    && (forall n :: n != node ==> CursorOf(s1.cursors, n) == CursorOf(s0.cursors, n))
    && s1.infoChanged == s0.infoChanged - (if Relevant(t, checker, node) then {node} else {})
  }

  /**
    Recomputing a node, from s0 to s1, with the cache answering a: the node
    gets the chosen status and cursor, and joins the cache when it ends
    unblocked and can block; nothing else changes.
   */
  ghost predicate RecomputeStep(cs: Constraints, t: Tableau, checker: DirectBlockingChecker, immediately: bool,
                                node: NodeId, a: CacheAnswer, s0: PassState, s1: PassState) {
    && AnswerSound(checker, node, a)
    && s1.status == s0.status[node := StatusIn(s1.status, node)]
    && Chosen(cs, t, immediately, s1.status, CursorOf(s0.cursors, node), node, a,
              StatusIn(s1.status, node), CursorOf(s1.cursors, node))
    && s1.cached == s0.cached +
       (if checker.canBeBlocker(node) && StatusIn(s1.status, node) == Unblocked then {node} else {})
    && (forall n :: n != node ==> CursorOf(s1.cursors, n) == CursorOf(s0.cursors, n))
    && s1.infoChanged == s0.infoChanged
  }

  /** Reblocking a node, then caching it when it ends unblocked and can block, is one recompute step. */
  lemma RecomputedParts(cs: Constraints, t: Tableau, checker: DirectBlockingChecker, immediately: bool,
                        node: NodeId, a: CacheAnswer, s: BlockStatus, cursor: Option<NodeId>,
                        s0: PassState, s1: PassState, s2: PassState)
    requires AnswerSound(checker, node, a)
    requires s1.status == s0.status[node := s] && s1.cursors == SetCursor(s0.cursors, node, cursor)
    requires CursorOf(s1.cursors, node) == cursor
    requires Chosen(cs, t, immediately, s1.status, CursorOf(s0.cursors, node), node, a, s, cursor)
    requires s1.cached == s0.cached && s1.infoChanged == s0.infoChanged
    requires s2 == s1.(cached := s1.cached + (if s == Unblocked && checker.canBeBlocker(node) then {node} else {}))
    ensures RecomputeStep(cs, t, checker, immediately, node, a, s0, s2)
  {
  }

  /** A visit of a relevant node recomputes it, then clears its changed flag. */
  lemma VisitRecomputed(cs: Constraints, t: Tableau, checker: DirectBlockingChecker, immediately: bool,
                        first: NodeId, node: NodeId, a: CacheAnswer, s0: PassState, s1: PassState, s2: PassState)
    requires Recomputed(t, checker, s0.status, s0.infoChanged, first, node)
    requires RecomputeStep(cs, t, checker, immediately, node, a, s0, s1)
    requires s2 == s1.(infoChanged := s1.infoChanged - {node})
    ensures VisitStep(cs, t, checker, immediately, first, node, a, s0, s2)
  {
  }

  /** A visit of a node that is not recomputed only clears the changed flag of a relevant node. */
  lemma VisitSkipped(cs: Constraints, t: Tableau, checker: DirectBlockingChecker, immediately: bool,
                     first: NodeId, node: NodeId, a: CacheAnswer, s0: PassState, s1: PassState)
    requires !Recomputed(t, checker, s0.status, s0.infoChanged, first, node)
    requires s1 == s0.(infoChanged := s0.infoChanged - (if Relevant(t, checker, node) then {node} else {}))
    ensures VisitStep(cs, t, checker, immediately, first, node, a, s0, s1)
  {
  }

  /**
    What computePreBlocking's second loop leaves for a node it visited, given
    the state s0 before the loop and the cache's answers at each visit: a
    recomputed node has the chosen status and cursor, any other keeps both;
    the node is cached exactly when it is active, can block and is unblocked;
    the changed flag of a relevant node is cleared.
   */
  ghost predicate Visited(cs: Constraints, t: Tableau, checker: DirectBlockingChecker, immediately: bool, first: NodeId,
                          s0: PassState, s: PassState, answers: map<NodeId, CacheAnswer>, n: NodeId) {
    && n in answers
    && (Recomputed(t, checker, s0.status, s0.infoChanged, first, n) ==> AnswerSound(checker, n, answers[n]))
    && (Recomputed(t, checker, s0.status, s0.infoChanged, first, n) ==>
          Chosen(cs, t, immediately, s.status, CursorOf(s0.cursors, n), n, answers[n],
                 StatusIn(s.status, n), CursorOf(s.cursors, n)))
    && (!Recomputed(t, checker, s0.status, s0.infoChanged, first, n) ==>
          StatusIn(s.status, n) == StatusIn(s0.status, n) && CursorOf(s.cursors, n) == CursorOf(s0.cursors, n))
    && (n in s.cached <==> t.active(n) && checker.canBeBlocker(n) && StatusIn(s.status, n) == Unblocked)
    && (n in s.infoChanged <==> n in s0.infoChanged && !Relevant(t, checker, n))
  }

  /** A node the loop has not reached, or will never change: status, flag, cursor and cache membership as before. */
  predicate Untouched(s0: PassState, s: PassState, n: NodeId) {
    && StatusIn(s.status, n) == StatusIn(s0.status, n)
    && (n in s.infoChanged <==> n in s0.infoChanged)
    && CursorOf(s.cursors, n) == CursorOf(s0.cursors, n)
    && (n in s.cached <==> n in s0.cached)
  }

  /**
    The second loop's invariant after the nodes from k below i: those are
    visited, the rest of the list is untouched, the cache holds only nodes
    below the next one, and nodes below the first changed node or outside the
    list are untouched.
   */
  ghost predicate Progress(cs: Constraints, t: Tableau, checker: DirectBlockingChecker, immediately: bool, first: NodeId,
                           s0: PassState, s: PassState, answers: map<NodeId, CacheAnswer>, k: nat, i: nat)
    requires k <= i <= |t.nodes|
  {
    && (forall j :: k <= j < i ==> Visited(cs, t, checker, immediately, first, s0, s, answers, t.nodes[j]))
    && (forall j :: i <= j < |t.nodes| ==> Untouched(s0, s, t.nodes[j]))
    && (forall c :: c in s.cached ==> i < |t.nodes| ==> c < t.nodes[i])
    && (forall n: NodeId :: n < first || n !in t.nodes ==> Untouched(s0, s, n))
  }

  /** A visit leaves what earlier visits established about a smaller node. */
  lemma VisitKeepsVisited(cs: Constraints, t: Tableau, checker: DirectBlockingChecker, immediately: bool,
                          first: NodeId, s0: PassState, s: PassState, s': PassState,
                          answers: map<NodeId, CacheAnswer>, a: CacheAnswer, node: NodeId, n: NodeId)
    requires n < node && (t.parent(n).Some? ==> t.parent(n).value < n)
    requires Visited(cs, t, checker, immediately, first, s0, s, answers, n)
    requires VisitStep(cs, t, checker, immediately, first, node, a, s, s')
    ensures Visited(cs, t, checker, immediately, first, s0, s', answers[node := a], n)
  {
    assert StatusIn(s'.status, n) == StatusIn(s.status, n);
    match t.parent(n)
    case None =>
    case Some(p) =>
      assert StatusIn(s'.status, p) == StatusIn(s.status, p);
  }

  /** The node a visit handles, untouched before, counts as visited after it. */
  lemma VisitedNow(cs: Constraints, t: Tableau, checker: DirectBlockingChecker, immediately: bool,
                   first: NodeId, s0: PassState, s: PassState, s': PassState,
                   answers: map<NodeId, CacheAnswer>, a: CacheAnswer, node: NodeId)
    requires Untouched(s0, s, node) && node !in s.cached
    requires VisitStep(cs, t, checker, immediately, first, node, a, s, s')
    ensures Visited(cs, t, checker, immediately, first, s0, s', answers[node := a], node)
  {
  }

  /** One visit keeps the loop invariant, one node further on. */
  lemma ProgressStep(cs: Constraints, t: Tableau, checker: DirectBlockingChecker, immediately: bool, first: NodeId,
                     s0: PassState, s: PassState, s': PassState, answers: map<NodeId, CacheAnswer>, a: CacheAnswer,
                     k: nat, i: nat)
    requires StrictlyIncreasing(t.nodes) && k <= i < |t.nodes|
    requires forall j :: k <= j < |t.nodes| ==> first <= t.nodes[j]
    requires forall n :: t.parent(n).Some? ==> t.parent(n).value < n
    requires Progress(cs, t, checker, immediately, first, s0, s, answers, k, i)
    requires VisitStep(cs, t, checker, immediately, first, t.nodes[i], a, s, s')
    ensures Progress(cs, t, checker, immediately, first, s0, s', answers[t.nodes[i] := a], k, i + 1)
  {
    var node := t.nodes[i];
    var answers' := answers[node := a];
    assert Untouched(s0, s, node);
    forall j | k <= j < i + 1
      ensures Visited(cs, t, checker, immediately, first, s0, s', answers', t.nodes[j])
    {
      if j < i {
        VisitKeepsVisited(cs, t, checker, immediately, first, s0, s, s', answers, a, node, t.nodes[j]);
      } else {
        VisitedNow(cs, t, checker, immediately, first, s0, s, s', answers, a, node);
      }
    }
    forall j | i + 1 <= j < |t.nodes| ensures Untouched(s0, s', t.nodes[j]) {
      assert node < t.nodes[j];
      assert Untouched(s0, s, t.nodes[j]);
    }
    forall c | c in s'.cached && i + 1 < |t.nodes| ensures c < t.nodes[i + 1] {
      assert node < t.nodes[i + 1];
    }
    forall n: NodeId | n < first || n !in t.nodes ensures Untouched(s0, s', n) {
      assert n != node;
      assert Untouched(s0, s, n);
    }
  }

  /**
    What computePreBlocking leaves behind relative to the state s0 before it,
    for a first changed node: every listed node from the first changed one on
    is visited, so that a recomputed one holds the chosen status and cursor
    and is settled, and every other node is untouched.
   */
  ghost predicate PreBlocked(cs: Constraints, t: Tableau, checker: DirectBlockingChecker, immediately: bool,
                             first: NodeId, s0: PassState, s: PassState, answers: map<NodeId, CacheAnswer>) {
    && (forall n :: n in t.nodes && first <= n ==> Visited(cs, t, checker, immediately, first, s0, s, answers, n))
    && (forall n :: n in t.nodes && first <= n && Recomputed(t, checker, s0.status, s0.infoChanged, first, n) ==>
          Settled(cs, t, checker, immediately, s.status, n))
    && (forall n: NodeId :: n < first || n !in t.nodes ==> Untouched(s0, s, n))
  }

  /**
    What computePreBlocking's first loop leaves, from s0 to s1: statuses, flags
    and cursors as before; the cache has lost at least the listed nodes from the
    start index k on, and only nodes at or above the first changed node.
   */
  ghost predicate Removed(t: Tableau, first: NodeId, k: nat, s0: PassState, s1: PassState) {
    && s1.status == s0.status && s1.infoChanged == s0.infoChanged && s1.cursors == s0.cursors
    && s1.cached <= s0.cached
    && (forall m :: m in s0.cached && m !in s1.cached ==> first <= m)
    && (forall j :: k <= j < |t.nodes| ==> t.nodes[j] !in s1.cached)
  }

  /**
    The two loops of computePreBlocking together: removing the nodes from the
    start index on from the cache and then visiting them leaves the pass's
    result, given that the cache held only listed nodes.
   */
  lemma {:induction false} RemovedThenVisited(cs: Constraints, t: Tableau, checker: DirectBlockingChecker,
                                              immediately: bool, first: NodeId, s0: PassState, s1: PassState,
                                              s: PassState, answers: map<NodeId, CacheAnswer>)
    requires StrictlyIncreasing(t.nodes) && s0.cached <= Elements(t.nodes)
    requires Removed(t, first, StartIndex(t.nodes, first), s0, s1)
    requires Progress(cs, t, checker, immediately, first, s1, s, answers, StartIndex(t.nodes, first), |t.nodes|)
    ensures PreBlocked(cs, t, checker, immediately, first, s0, s, answers)
  {
    var k := StartIndex(t.nodes, first);
    forall n | n in t.nodes && first <= n ensures Visited(cs, t, checker, immediately, first, s0, s, answers, n) {
      var j :| 0 <= j < |t.nodes| && t.nodes[j] == n;
      assert k <= j;
      assert Visited(cs, t, checker, immediately, first, s1, s, answers, t.nodes[j]);
    }
    forall n | n in t.nodes && first <= n && Recomputed(t, checker, s0.status, s0.infoChanged, first, n)
      ensures Settled(cs, t, checker, immediately, s.status, n)
    {
      ChosenSettles(cs, t, checker, immediately, s.status, CursorOf(s0.cursors, n), n, answers[n], CursorOf(s.cursors, n));
    }
    forall n: NodeId | n < first || n !in t.nodes ensures Untouched(s0, s, n) {
      assert Untouched(s1, s, n);
    }
  }

  /** A pass of computePreBlocking leaves every blocked node with a parent, as before. */
  lemma PassKeepsParents(cs: Constraints, t: Tableau, checker: DirectBlockingChecker, immediately: bool,
                         first: NodeId, s0: PassState, s1: PassState, s: PassState, answers: map<NodeId, CacheAnswer>)
    requires StrictlyIncreasing(t.nodes) && s0.cached <= Elements(t.nodes)
    requires Removed(t, first, StartIndex(t.nodes, first), s0, s1)
    requires Progress(cs, t, checker, immediately, first, s1, s, answers, StartIndex(t.nodes, first), |t.nodes|)
    requires BlockedHaveParents(t, s0.status)
    ensures BlockedHaveParents(t, s.status)
  {
    RemovedThenVisited(cs, t, checker, immediately, first, s0, s1, s, answers);
    forall n | StatusIn(s.status, n).Blocked? ensures t.parent(n).Some? {
      if n in t.nodes && first <= n {
        assert Visited(cs, t, checker, immediately, first, s0, s, answers, n);
      } else {
        assert Untouched(s0, s, n);
      }
    }
  }

  /** Listed nodes outside the list's suffix from k lie below its k-th node. */
  lemma BelowSuffix(nodes: seq<NodeId>, c: set<NodeId>, k: nat)
    requires StrictlyIncreasing(nodes) && k <= |nodes| && c <= Elements(nodes)
    requires forall j :: k <= j < |nodes| ==> nodes[j] !in c
    ensures forall x :: x in c ==> k < |nodes| ==> x < nodes[k]
  {
    forall x | x in c && k < |nodes| ensures x < nodes[k] {
      var j :| 0 <= j < |nodes| && nodes[j] == x;
      assert j < k;
    }
  }

  /** Every blocked node has a parent: validateBlocks reads the parent of each blocked node it checks. */
  ghost predicate BlockedHaveParents(t: Tableau, status: map<NodeId, BlockStatus>) {
    forall n :: StatusIn(status, n).Blocked? ==> t.parent(n).Some?
  }

  /** A node validateBlocks checks: an active blocked node. */
  predicate Checked(t: Tableau, status: map<NodeId, BlockStatus>, n: NodeId) {
    t.active(n) && StatusIn(status, n).Blocked? && t.parent(n).Some?
  }

  /**
    The status and cursor validateBlocks gives node n with parent p it
    checks, from its status st, its parent's status, its cursor and the
    possible blockers: a directly blocked node gets getValidBlocker's answer as
    a direct block and its cursor; an indirectly blocked node stays as it is
    under a blocked parent and is unblocked otherwise, its cursor unchanged.
   */
  ghost predicate Rechecked(cs: Constraints, t: Tableau, n: NodeId, p: NodeId, possible: set<NodeId>,
                            st: BlockStatus, parentStatus: BlockStatus, cursor: Option<NodeId>,
                            ns: BlockStatus, newCursor: Option<NodeId>) {
    if st.Blocked? && st.directly then
      (ns.Blocked? ==> ns.directly) && ValidChoice(cs, t, n, p, possible, cursor, BlockerOf(ns), newCursor)
    else
      ns == (if parentStatus.Blocked? then st else Unblocked) && newCursor == cursor
  }

  /** A recheck fixes the status and the cursor. */
  lemma RecheckedUnique(cs: Constraints, t: Tableau, n: NodeId, p: NodeId, possible: set<NodeId>,
                        st: BlockStatus, parentStatus: BlockStatus, cursor: Option<NodeId>,
                        ns1: BlockStatus, c1: Option<NodeId>, ns2: BlockStatus, c2: Option<NodeId>)
    requires Rechecked(cs, t, n, p, possible, st, parentStatus, cursor, ns1, c1)
    requires Rechecked(cs, t, n, p, possible, st, parentStatus, cursor, ns2, c2)
    ensures ns1 == ns2 && c1 == c2
  {
    if st.Blocked? && st.directly {
      ValidChoiceUnique(cs, t, n, p, possible, cursor, BlockerOf(ns1), c1, BlockerOf(ns2), c2);
    }
  }

  /** A rechecked cursor is unset only when it was unset, so storing it leaves the node's cursor equal to it. */
  lemma RecheckedCursor(cs: Constraints, t: Tableau, n: NodeId, p: NodeId, possible: set<NodeId>,
                        st: BlockStatus, parentStatus: BlockStatus, cursor: Option<NodeId>,
                        ns: BlockStatus, newCursor: Option<NodeId>)
    requires Rechecked(cs, t, n, p, possible, st, parentStatus, cursor, ns, newCursor)
    ensures newCursor.None? ==> newCursor == cursor
  {
    if st.Blocked? && st.directly {
      ValidChoiceCursor(cs, t, n, p, possible, cursor, BlockerOf(ns), newCursor);
    }
  }

  /**
    One visit of validateBlocks' loop, from s0 to s1, with the cache answering
    a for the node: a checked node gets the rechecked status and cursor, the
    possible blockers being cached nodes below it, and joins the cache when it
    ends unblocked and can block; no other node's status or cursor changes; any
    other node leaves the state as it is.
   */
  ghost predicate CheckStep(cs: Constraints, t: Tableau, checker: DirectBlockingChecker, node: NodeId, a: CacheAnswer,
                            s0: PassState, s1: PassState) {
    if Checked(t, s0.status, node) then
      var ns := StatusIn(s1.status, node);
      var p := t.parent(node).value;
      && s1.status == s0.status[node := ns]
      && a.possible <= s0.cached && (forall c :: c in a.possible ==> c < node)
      && Rechecked(cs, t, node, p, a.possible, StatusIn(s0.status, node), StatusIn(s0.status, p),
                   CursorOf(s0.cursors, node), ns, CursorOf(s1.cursors, node))
      && s1.cached == s0.cached + (if checker.canBeBlocker(node) && ns.Unblocked? then {node} else {})
      && (forall n :: n != node ==> CursorOf(s1.cursors, n) == CursorOf(s0.cursors, n))
      && s1.infoChanged == s0.infoChanged
    else
      s1 == s0
  }

  /** Rechecking a node, then caching it when it ends unblocked and can block, is one check step. */
  lemma RecheckedParts(cs: Constraints, t: Tableau, checker: DirectBlockingChecker, node: NodeId, a: CacheAnswer,
                       s: BlockStatus, cursor: Option<NodeId>, s0: PassState, s1: PassState, s2: PassState)
    requires Checked(t, s0.status, node)
    requires a.possible <= s0.cached && forall c :: c in a.possible ==> c < node
    requires s1.status == s0.status[node := s] && s1.cursors == SetCursor(s0.cursors, node, cursor)
    requires CursorOf(s1.cursors, node) == cursor
    requires Rechecked(cs, t, node, t.parent(node).value, a.possible, StatusIn(s0.status, node),
                       StatusIn(s0.status, t.parent(node).value), CursorOf(s0.cursors, node), s, cursor)
    requires s1.cached == s0.cached && s1.infoChanged == s0.infoChanged
    requires s2 == s1.(cached := s1.cached + (if s == Unblocked && checker.canBeBlocker(node) then {node} else {}))
    ensures CheckStep(cs, t, checker, node, a, s0, s2)
  {
  }

  /**
    What validateBlocks' loop leaves for a node it visited, given the state s0
    before the loop and the cache's answers at each visit: a checked node has
    the status and cursor rechecked against its parent's final status, and is
    cached when it ends unblocked and can block; any other node keeps its
    status, cursor and cache membership.
   */
  ghost predicate CheckedNode(cs: Constraints, t: Tableau, checker: DirectBlockingChecker, s0: PassState, s: PassState,
                              answers: map<NodeId, CacheAnswer>, n: NodeId) {
    var ns := StatusIn(s.status, n);
    if Checked(t, s0.status, n) then
      var p := t.parent(n).value;
      && n in answers && answers[n].possible <= s.cached && (forall c :: c in answers[n].possible ==> c < n)
      && Rechecked(cs, t, n, p, answers[n].possible, StatusIn(s0.status, n), StatusIn(s.status, p),
                   CursorOf(s0.cursors, n), ns, CursorOf(s.cursors, n))
      && (n in s.cached <==> n in s0.cached || (checker.canBeBlocker(n) && ns.Unblocked?))
    else
      ns == StatusIn(s0.status, n) && CursorOf(s.cursors, n) == CursorOf(s0.cursors, n)
      && (n in s.cached <==> n in s0.cached)
  }

  /**
    validateBlocks' loop invariant after the first i nodes: those are
    visited, the rest and every unlisted node untouched, the cache only grows
    and the changed flags stay.
   */
  ghost predicate CheckProgress(cs: Constraints, t: Tableau, checker: DirectBlockingChecker,
                                s0: PassState, s: PassState, answers: map<NodeId, CacheAnswer>, i: nat)
    requires i <= |t.nodes|
  {
    && (forall j :: 0 <= j < i ==> CheckedNode(cs, t, checker, s0, s, answers, t.nodes[j]))
    && (forall j :: i <= j < |t.nodes| ==> Untouched(s0, s, t.nodes[j]))
    && (forall n: NodeId :: n !in t.nodes ==> Untouched(s0, s, n))
    && s0.cached <= s.cached && s.infoChanged == s0.infoChanged
  }

  /** One visit keeps validateBlocks' loop invariant, one node further on. */
  lemma CheckProgressStep(cs: Constraints, t: Tableau, checker: DirectBlockingChecker,
                          s0: PassState, s: PassState, s': PassState, answers: map<NodeId, CacheAnswer>,
                          a: CacheAnswer, i: nat)
    requires StrictlyIncreasing(t.nodes) && i < |t.nodes|
    requires forall n :: t.parent(n).Some? ==> t.parent(n).value < n
    requires CheckProgress(cs, t, checker, s0, s, answers, i)
    requires CheckStep(cs, t, checker, t.nodes[i], a, s, s')
    ensures CheckProgress(cs, t, checker, s0, s', answers[t.nodes[i] := a], i + 1)
  {
    var node := t.nodes[i];
    var answers' := answers[node := a];
    assert Untouched(s0, s, node);
    forall j | 0 <= j < i + 1 ensures CheckedNode(cs, t, checker, s0, s', answers', t.nodes[j]) {
      var n := t.nodes[j];
      if j < i {
        assert n < node;
        assert CheckedNode(cs, t, checker, s0, s, answers, n);
        assert StatusIn(s'.status, n) == StatusIn(s.status, n);
        match t.parent(n)
        case None =>
        case Some(p) =>
          assert StatusIn(s'.status, p) == StatusIn(s.status, p);
      }
    }
    forall j | i + 1 <= j < |t.nodes| ensures Untouched(s0, s', t.nodes[j]) {
      assert node < t.nodes[j];
      assert Untouched(s0, s, t.nodes[j]);
    }
    forall n: NodeId | n !in t.nodes ensures Untouched(s0, s', n) {
      assert Untouched(s0, s, n);
    }
  }

  /**
    After validateBlocks has visited every node, every active listed node
    that is still blocked is either directly blocked by an earlier cached
    node that passes the side-constraint checks, or indirectly blocked under
    a blocked parent, provided it had a parent.
   */
  lemma {:induction false} ValidatedBlocks(cs: Constraints, t: Tableau, checker: DirectBlockingChecker,
                                           s0: PassState, s: PassState, answers: map<NodeId, CacheAnswer>, n: NodeId)
    requires CheckProgress(cs, t, checker, s0, s, answers, |t.nodes|)
    requires n in t.nodes && t.active(n) && StatusIn(s.status, n).Blocked? && t.parent(n).Some?
    ensures StatusIn(s.status, n).directly ==>
      var b := StatusIn(s.status, n).blocker;
      b < n && b in s.cached && FitsAt(cs, t, n, t.parent(n).value, b)
    ensures !StatusIn(s.status, n).directly ==> StatusIn(s.status, t.parent(n).value).Blocked?
  {
    var j :| 0 <= j < |t.nodes| && t.nodes[j] == n;
    assert CheckedNode(cs, t, checker, s0, s, answers, t.nodes[j]);
    var st := StatusIn(s0.status, n);
    if st.Blocked? && st.directly {
      var b := StatusIn(s.status, n).blocker;
      assert b in answers[n].possible;
      assert FitsFor(cs, t, n, t.parent(n).value)(b);
    }
  }

  /** One step of removing a suffix of the node list from the cache, on the sets alone. */
  lemma UncacheStep(nodes: seq<NodeId>, k: nat, i: nat, first: NodeId,
                    orig: set<NodeId>, before: set<NodeId>, after: set<NodeId>)
    requires k <= i < |nodes| && first <= nodes[i]
    requires forall j :: k <= j < i ==> nodes[j] !in before
    requires forall m :: m in orig && m !in before ==> first <= m
    requires nodes[i] !in after && after <= before
    requires forall m :: m in before && m !in after ==> nodes[i] <= m
    ensures forall j :: k <= j < i + 1 ==> nodes[j] !in after
    ensures forall m :: m in orig && m !in after ==> first <= m
  {
  }

  /** The cursor map after a node's cursor is set; no new cursor leaves the map as it is. */
  function SetCursor(greatestInvalidBlocker: map<NodeId, NodeId>, n: NodeId, cursor: Option<NodeId>)
    : (r: map<NodeId, NodeId>)
    ensures CursorOf(r, n) == (if cursor.Some? then cursor else CursorOf(greatestInvalidBlocker, n))
    ensures forall m :: m != n ==> CursorOf(r, m) == CursorOf(greatestInvalidBlocker, m)
  {
    if cursor.Some? then greatestInvalidBlocker[n := cursor.value] else greatestInvalidBlocker
  }

  // ---------------------------------------------------------------------------
  // The strategy

  class AnywhereCoreBlocking {
    const constraints: Constraints
    const cache: CoreBlockersCache
    var firstChangedNode: Option<NodeId>
    var immediatelyValidateBlocks: bool
    /** The blocking status of every tableau node that has been given one. */
    var status: map<NodeId, BlockStatus>
    /** m_greatestInvalidBlocker of each node's blocking object. */
    var greatestInvalidBlocker: map<NodeId, NodeId>
    /** The direct blocking checker's hasBlockingInfoChanged flags. */
    var infoChanged: set<NodeId>
    /** The nodes reported changed since the last pass. */
    ghost var reported: set<NodeId>

    /** The cache holds only unblocked nodes, and the first changed node is the least reported one. */
    ghost predicate Valid()
      reads this, cache
    {
      && cache.Valid()
      && (forall n :: n in cache.Cached() ==> StatusIn(status, n) == Unblocked)
      && LeastReported(firstChangedNode, reported)
    }

    /** The strategy's pass state as a value. */
    ghost function State(): PassState
      reads this, cache
    {
      PassState(status, infoChanged, greatestInvalidBlocker, cache.Cached())
    }

    constructor (constraints: Constraints)
      ensures Valid() && fresh(cache)
      ensures this.constraints == constraints && cache.Cached() == {} && firstChangedNode == None
      ensures !immediatelyValidateBlocks && status == map[] && greatestInvalidBlocker == map[]
    {
      this.constraints := constraints;
      cache := new CoreBlockersCache();
      firstChangedNode := None;
      immediatelyValidateBlocks := false;
      status := map[];
      greatestInvalidBlocker := map[];
      infoChanged := {};
      reported := {};
    }

    /** clear: an empty cache and no changed node. */
    method Clear()
      requires Valid()
      modifies this, cache
      ensures Valid()
      ensures cache.Cached() == {} && firstChangedNode == None && reported == {}
      ensures status == old(status) && greatestInvalidBlocker == old(greatestInvalidBlocker)
      ensures immediatelyValidateBlocks == old(immediatelyValidateBlocks) && infoChanged == old(infoChanged)
    {
      cache.Clear();
      firstChangedNode := None;
      reported := {};
    }

    /** updateNodeChange: a reported node joins the changed ones; a missing node is ignored. */
    method UpdateNodeChange(node: Option<NodeId>)
      requires Valid()
      modifies this
      ensures Valid()
      ensures reported == old(reported) + (if node.Some? then {node.value} else {})
      ensures node.Some? ==> firstChangedNode.Some? && firstChangedNode.value <= node.value
      ensures status == old(status) && greatestInvalidBlocker == old(greatestInvalidBlocker)
      ensures immediatelyValidateBlocks == old(immediatelyValidateBlocks) && infoChanged == old(infoChanged)
    {
      if node.Some? && (firstChangedNode.None? || node.value < firstChangedNode.value) {
        firstChangedNode := node;
      }
      if node.Some? {
        reported := reported + {node.value};
      }
    }

    /**
      nodeDestroyed: the node leaves the cache; the source's fault for a node
      whose cargo was not removed cannot happen. A first changed node at or
      above the destroyed one is dropped with the nodes reported since.
     */
    method NodeDestroyed(node: NodeId) returns (fault: bool)
      requires Valid()
      modifies this, cache
      ensures Valid()
      ensures !fault
      ensures node !in cache.Cached() && cache.Cached() <= old(cache.Cached())
      ensures forall m :: m in old(cache.Cached()) && m !in cache.Cached() ==> node <= m
      ensures if old(firstChangedNode).Some? && node <= old(firstChangedNode).value
        then firstChangedNode == None && reported == {}
        else firstChangedNode == old(firstChangedNode) && reported == old(reported)
      ensures status == old(status) && greatestInvalidBlocker == old(greatestInvalidBlocker)
      ensures immediatelyValidateBlocks == old(immediatelyValidateBlocks) && infoChanged == old(infoChanged)
    {
      var hadBlockingCargo := node in cache.cargo;
      var wasRemoved := Uncache(node);
      fault := hadBlockingCargo && !wasRemoved;
      if firstChangedNode.Some? && firstChangedNode.value >= node {
        firstChangedNode := None;
        reported := {};
      }
    }

    /** getPossibleBlockers for a node, as the cache answers it. */
    ghost function Possible(blocked: NodeId, checker: DirectBlockingChecker): set<NodeId>
      requires cache.Valid()
      reads cache
    {
      if checker.canBeBlocked(blocked) && cache.Lookup(blocked, checker).Some? then
        Below(cache.arena[cache.Lookup(blocked, checker).value].nodes, blocked)
      else {}
    }

    /** getBlockerRepresentative for a node, as the cache answers it: the least member of the entry with its core. */
    ghost function Representative(node: NodeId, checker: DirectBlockingChecker): Option<NodeId>
      requires cache.Valid()
      reads cache
    {
      if checker.canBeBlocked(node) && cache.Lookup(node, checker).Some? then
        Some(First(cache.arena[cache.Lookup(node, checker).value].nodes))
      else None
    }

    /** The cache's answer for a node in the current state. */
    ghost function Answer(node: NodeId, checker: DirectBlockingChecker): CacheAnswer
      requires cache.Valid()
      reads cache
    {
      CacheAnswer(Possible(node, checker), Representative(node, checker))
    }

    /**
      The cache answers with cached nodes, the possible blockers lying below
      the node and the representative blocking it; the answer is sound when
      every cached node lies below the node.
     */
    lemma AnswerCached(node: NodeId, checker: DirectBlockingChecker)
      requires Valid()
      ensures Possible(node, checker) <= cache.Cached()
      ensures forall c :: c in Possible(node, checker) ==> c < node
      ensures Representative(node, checker).Some? ==>
        && Representative(node, checker).value in cache.Cached()
        && checker.isBlockedBy(Representative(node, checker).value, node)
      ensures (forall c :: c in cache.Cached() ==> c < node) ==> AnswerSound(checker, node, Answer(node, checker))
    {
      if checker.canBeBlocked(node) && cache.Lookup(node, checker).Some? {
        cache.LookupCached(node, checker);
      }
    }

    /**
      getValidBlocker: among the possible blockers above the node's cursor, the
      least one that passes the side-constraint checks, or none when none does.
      The new cursor, the greatest candidate rejected on the way, is returned
      for the caller to store in the node's blocking object.
     */
    method GetValidBlocker(t: Tableau, checker: DirectBlockingChecker, blocked: NodeId)
      returns (r: Option<NodeId>, cursor: Option<NodeId>)
      requires Valid() && t.parent(blocked).Some?
      ensures ValidChoice(constraints, t, blocked, t.parent(blocked).value, Possible(blocked, checker),
                          CursorOf(greatestInvalidBlocker, blocked), r, cursor)
    {
      var possibleValidBlockers := cache.GetPossibleBlockers(blocked, checker);
      assert possibleValidBlockers == Possible(blocked, checker);
      cursor := CursorOf(greatestInvalidBlocker, blocked);
      var rejected;
      r, rejected := SelectBlocker(constraints, t, blocked, possibleValidBlockers, cursor);
      if rejected.Some? {
        cursor := rejected;
      }
    }

    /** The branch of computePreBlocking's loop that chooses a recomputed node's status and cursor. */
    method ChooseStatus(t: Tableau, checker: DirectBlockingChecker, node: NodeId)
      returns (s: BlockStatus, cursor: Option<NodeId>)
      requires Valid()
      requires t.parent(node).Some? ==> t.parent(node).value < node
      ensures Chosen(constraints, t, immediatelyValidateBlocks, status[node := s], CursorOf(greatestInvalidBlocker, node),
                     node, Answer(node, checker), s, cursor)
    {
      cursor := CursorOf(greatestInvalidBlocker, node);
      match t.parent(node)
      case None =>
        s := Unblocked;
      case Some(p) =>
        if StatusIn(status, p).Blocked? {
          s := Blocked(p, false);
        } else {
          var blocker;
          if immediatelyValidateBlocks {
            blocker, cursor := GetValidBlocker(t, checker, node);
          } else {
            blocker := cache.GetBlockerRepresentative(node, checker);
          }
          s := SetBlocked(blocker, blocker.Some?);
        }
        assert StatusIn(status[node := s], p) == StatusIn(status, p);
    }

    /**
      The branch of computePreBlocking's loop that recomputes a node: the
      status and cursor chosen in the state before are stored.
     */
    method ReblockNode(t: Tableau, checker: DirectBlockingChecker, node: NodeId)
      returns (s: BlockStatus, cursor: Option<NodeId>)
      requires Valid()
      requires forall c :: c in cache.Cached() ==> c < node
      requires t.parent(node).Some? ==> t.parent(node).value < node
      modifies this
      ensures Valid() && cache.Cached() == old(cache.Cached())
      ensures status == old(status)[node := s]
      ensures greatestInvalidBlocker == SetCursor(old(greatestInvalidBlocker), node, cursor)
      ensures CursorOf(greatestInvalidBlocker, node) == cursor
      ensures Chosen(constraints, t, immediatelyValidateBlocks, status, old(CursorOf(greatestInvalidBlocker, node)),
                     node, Answer(node, checker), s, cursor)
      ensures infoChanged == old(infoChanged) && immediatelyValidateBlocks == old(immediatelyValidateBlocks)
      ensures firstChangedNode == old(firstChangedNode) && reported == old(reported)
    {
      s, cursor := ChooseStatus(t, checker, node);
      ChosenCursor(constraints, t, immediatelyValidateBlocks, status[node := s], CursorOf(greatestInvalidBlocker, node),
                   node, Answer(node, checker), s, cursor);
      status := status[node := s];
      greatestInvalidBlocker := SetCursor(greatestInvalidBlocker, node, cursor);
    }

    /**
      addNode for a node that has just become unblocked and can block; the
      source's failure to double a table of 2^30 buckets is reported as an
      overflow after the node has been added.
     */
    method CacheNode(checker: DirectBlockingChecker, node: NodeId) returns (overflow: bool)
      requires Valid() && node !in cache.Cached() && StatusIn(status, node) == Unblocked
      modifies cache
      ensures Valid()
      ensures cache.Cached() == old(cache.Cached()) + {node}
      ensures overflow <==>
        && old(cache.Lookup(node, checker)).None?
        && old(cache.numberOfElements) + 1 >= old(cache.threshold) && 2 * old(|cache.buckets|) > INT_MAX
      ensures unchanged(this)
    {
      var outcome := cache.AddNode(node, checker);
      overflow := outcome == CapacityOverflow;
      assert cache.Cached() == old(cache.Cached()) + {node} by {
        assert cache.cargo.Keys == old(cache.cargo).Keys + {node};
      }
      assert forall n :: n in cache.Cached() ==> StatusIn(status, n) == Unblocked;
    }

    /**
      Recomputing a node in computePreBlocking: the chosen status and cursor
      are stored, and a node that ends unblocked and can block joins the cache.
     */
    method RecomputeNode(t: Tableau, checker: DirectBlockingChecker, node: NodeId, ghost a: CacheAnswer)
      returns (overflow: bool)
      requires Valid() && a == Answer(node, checker) && AnswerSound(checker, node, a)
      requires forall c :: c in cache.Cached() ==> c < node
      requires t.parent(node).Some? ==> t.parent(node).value < node
      modifies this, cache
      ensures Valid()
      ensures RecomputeStep(constraints, t, checker, immediatelyValidateBlocks, node, a, old(State()), State())
      ensures overflow ==> node in cache.Cached()
      ensures immediatelyValidateBlocks == old(immediatelyValidateBlocks)
      ensures firstChangedNode == old(firstChangedNode) && reported == old(reported)
    {
      ghost var s0 := State();
      var s, cursor := ReblockNode(t, checker, node);
      ghost var s1 := State();
      overflow := false;
      if s == Unblocked && checker.canBeBlocker(node) {
        overflow := CacheNode(checker, node);
      }
      RecomputedParts(constraints, t, checker, immediatelyValidateBlocks, node, a, s, cursor, s0, s1, State());
    }

    /**
      One step of computePreBlocking's second loop: a relevant node is
      recomputed unless it is directly blocked by a node below the first changed
      one and its blocking information is unchanged; its changed flag is then
      cleared.
     */
    method VisitNode(t: Tableau, checker: DirectBlockingChecker, node: NodeId, first: NodeId, ghost a: CacheAnswer)
      returns (overflow: bool)
      requires Valid() && a == Answer(node, checker) && AnswerSound(checker, node, a)
      requires forall c :: c in cache.Cached() ==> c < node
      requires t.parent(node).Some? ==> t.parent(node).value < node
      modifies this, cache
      ensures Valid()
      ensures VisitStep(constraints, t, checker, immediatelyValidateBlocks, first, node, a, old(State()), State())
      ensures overflow ==> node in cache.Cached()
      ensures immediatelyValidateBlocks == old(immediatelyValidateBlocks)
      ensures firstChangedNode == old(firstChangedNode) && reported == old(reported)
    {
      ghost var s0 := State();
      overflow := false;
      if Relevant(t, checker, node) {
        var s := StatusIn(status, node);
        if node in infoChanged || !(s.Blocked? && s.directly) || s.blocker >= first {
          overflow := RecomputeChanged(t, checker, node, first, a);
        } else {
          ClearChanged(node);
          VisitSkipped(constraints, t, checker, immediatelyValidateBlocks, first, node, a, s0, State());
        }
      } else {
        VisitSkipped(constraints, t, checker, immediatelyValidateBlocks, first, node, a, s0, s0);
      }
    }

    /** The visit of a node that is recomputed: recompute it, then clear its changed flag. */
    method RecomputeChanged(t: Tableau, checker: DirectBlockingChecker, node: NodeId, first: NodeId,
                            ghost a: CacheAnswer)
      returns (overflow: bool)
      requires Valid() && a == Answer(node, checker) && AnswerSound(checker, node, a)
      requires Recomputed(t, checker, status, infoChanged, first, node)
      requires forall c :: c in cache.Cached() ==> c < node
      requires t.parent(node).Some? ==> t.parent(node).value < node
      modifies this, cache
      ensures Valid()
      ensures VisitStep(constraints, t, checker, immediatelyValidateBlocks, first, node, a, old(State()), State())
      ensures overflow ==> node in cache.Cached()
      ensures immediatelyValidateBlocks == old(immediatelyValidateBlocks)
      ensures firstChangedNode == old(firstChangedNode) && reported == old(reported)
    {
      ghost var s0 := State();
      overflow := RecomputeNode(t, checker, node, a);
      ghost var s1 := State();
      ClearChanged(node);
      VisitRecomputed(constraints, t, checker, immediatelyValidateBlocks, first, node, a, s0, s1, State());
    }

    /** clearBlockingInfoChanged: the node no longer counts as having changed blocking information. */
    method ClearChanged(node: NodeId)
      requires Valid()
      modifies this
      ensures Valid() && State() == old(State()).(infoChanged := old(State()).infoChanged - {node})
      ensures immediatelyValidateBlocks == old(immediatelyValidateBlocks)
      ensures firstChangedNode == old(firstChangedNode) && reported == old(reported)
    {
      infoChanged := infoChanged - {node};
    }

    /**
      computePreBlocking's second loop, from the start index on: every node is
      visited in creation order, answers recording what the cache answered at
      each visit; a capacity overflow of the cache ends the pass.
     */
    method ReblockFrom(t: Tableau, checker: DirectBlockingChecker, k: nat, first: NodeId)
      returns (overflow: bool, ghost answers: map<NodeId, CacheAnswer>)
      requires Valid() && StrictlyIncreasing(t.nodes) && k <= |t.nodes|
      requires forall j :: k <= j < |t.nodes| ==> first <= t.nodes[j]
      requires forall c :: c in cache.Cached() ==> k < |t.nodes| ==> c < t.nodes[k]
      requires forall n :: t.parent(n).Some? ==> t.parent(n).value < n
      modifies this, cache
      ensures Valid()
      ensures !overflow ==>
        Progress(constraints, t, checker, immediatelyValidateBlocks, first, old(State()), State(), answers, k, |t.nodes|)
      ensures immediatelyValidateBlocks == old(immediatelyValidateBlocks)
      ensures firstChangedNode == old(firstChangedNode) && reported == old(reported)
    {
      overflow := false;
      answers := map[];
      var i := k;
      while i < |t.nodes|
        invariant k <= i <= |t.nodes|
        invariant Valid()
        invariant Progress(constraints, t, checker, immediatelyValidateBlocks, first, old(State()), State(), answers, k, i)
        invariant immediatelyValidateBlocks == old(immediatelyValidateBlocks)
        invariant firstChangedNode == old(firstChangedNode) && reported == old(reported)
      {
        overflow, i, answers := VisitNext(t, checker, k, i, first, old(State()), answers);
        if overflow {
          return;
        }
      }
    }

    /** One iteration of the second loop: the visit of the i-th node keeps the loop invariant. */
    method VisitNext(t: Tableau, checker: DirectBlockingChecker, k: nat, i: nat, first: NodeId, ghost s0: PassState,
                     ghost answers: map<NodeId, CacheAnswer>)
      returns (overflow: bool, next: nat, ghost answers': map<NodeId, CacheAnswer>)
      requires Valid() && StrictlyIncreasing(t.nodes) && k <= i < |t.nodes|
      requires forall j :: k <= j < |t.nodes| ==> first <= t.nodes[j]
      requires forall n :: t.parent(n).Some? ==> t.parent(n).value < n
      requires Progress(constraints, t, checker, immediatelyValidateBlocks, first, s0, State(), answers, k, i)
      modifies this, cache
      ensures Valid()
      ensures next == i + 1
      ensures answers' == answers[t.nodes[i] := old(Answer(t.nodes[i], checker))]
      ensures !overflow ==> Progress(constraints, t, checker, immediatelyValidateBlocks, first, s0, State(), answers', k, next)
      ensures immediatelyValidateBlocks == old(immediatelyValidateBlocks)
      ensures firstChangedNode == old(firstChangedNode) && reported == old(reported)
    {
      ghost var a := Answer(t.nodes[i], checker);
      AnswerCached(t.nodes[i], checker);
      overflow := VisitNode(t, checker, t.nodes[i], first, a);
      next := i + 1;
      answers' := answers[t.nodes[i] := a];
      ProgressStep(constraints, t, checker, immediatelyValidateBlocks, first, s0, old(State()), State(), answers, a, k, i);
    }

    /** The end of a pass: no node counts as changed any more. */
    method ForgetChanges()
      requires Valid()
      modifies this
      ensures Valid() && State() == old(State())
      ensures firstChangedNode == None && reported == {}
      ensures immediatelyValidateBlocks == old(immediatelyValidateBlocks)
    {
      firstChangedNode := None;
      reported := {};
    }

    /** removeNode on the strategy's cache: the node and possibly later members of its entry leave it. */
    method Uncache(node: NodeId) returns (removed: bool)
      requires Valid()
      modifies cache
      ensures Valid()
      ensures removed <==> node in old(cache.Cached())
      ensures node !in cache.Cached() && cache.Cached() <= old(cache.Cached())
      ensures forall m :: m in old(cache.Cached()) && m !in cache.Cached() ==> node <= m
    {
      removed := cache.RemoveNode(node);
    }

    /**
      computePreBlocking's first loop: every node from the start index on is
      removed from the cache, which also drops the later members of an entry
      whose least member is removed; nodes below the start index stay.
     */
    method RemoveFrom(t: Tableau, k: nat, first: NodeId)
      requires Valid() && k <= |t.nodes|
      requires forall j :: k <= j < |t.nodes| ==> first <= t.nodes[j]
      modifies cache
      ensures Valid()
      ensures cache.Cached() <= old(cache.Cached())
      ensures forall j :: k <= j < |t.nodes| ==> t.nodes[j] !in cache.Cached()
      ensures forall m :: m in old(cache.Cached()) && m !in cache.Cached() ==> first <= m
    {
      var i := k;
      while i < |t.nodes|
        invariant k <= i <= |t.nodes|
        invariant Valid()
        invariant cache.Cached() <= old(cache.Cached())
        invariant forall j :: k <= j < i ==> t.nodes[j] !in cache.Cached()
        invariant forall m :: m in old(cache.Cached()) && m !in cache.Cached() ==> first <= m
      {
        ghost var before := cache.Cached();
        var _ := Uncache(t.nodes[i]);
        UncacheStep(t.nodes, k, i, first, old(cache.Cached()), before, cache.Cached());
        i := i + 1;
      }
    }

    /**
      computePreBlocking: with no changed node nothing happens. Otherwise the
      nodes from the first changed one on leave the cache, giving the state
      removed, and are then visited in creation order, the cache answering
      answers, after which no node counts as changed; a capacity overflow of
      the cache ends the pass early. RemovedThenVisited turns the two steps
      into the pass's result.
     */
    method ComputePreBlocking(t: Tableau, checker: DirectBlockingChecker)
      returns (overflow: bool, ghost removed: PassState, ghost answers: map<NodeId, CacheAnswer>)
      requires Valid() && StrictlyIncreasing(t.nodes)
      requires cache.Cached() <= Elements(t.nodes)
      requires forall n :: t.parent(n).Some? ==> t.parent(n).value < n
      modifies this, cache
      ensures Valid()
      ensures old(firstChangedNode).None? ==> !overflow && State() == old(State()) && firstChangedNode == None
      ensures old(firstChangedNode).Some? ==>
        var first := old(firstChangedNode).value;
        && Removed(t, first, StartIndex(t.nodes, first), old(State()), removed)
        && (!overflow ==>
              && Progress(constraints, t, checker, immediatelyValidateBlocks, first, removed, State(), answers,
                          StartIndex(t.nodes, first), |t.nodes|)
              && firstChangedNode == None && reported == {})
      ensures immediatelyValidateBlocks == old(immediatelyValidateBlocks)
    {
      overflow := false;
      removed := State();
      answers := map[];
      if firstChangedNode.Some? {
        var first := firstChangedNode.value;
        var k := StartIndex(t.nodes, first);
        StartIndexSuffix(t.nodes, first);
        RemoveFrom(t, k, first);
        removed := State();
        BelowSuffix(t.nodes, removed.cached, k);
        overflow, answers := ReblockFrom(t, checker, k, first);
        if !overflow {
          ghost var s2 := State();
          ForgetChanges();
          assert State() == s2;
        }
      }
    }

    /**
      The check validateBlocks makes of an active blocked node: a directly
      blocked node gets getValidBlocker's answer as a direct block, with the
      new cursor; an indirectly blocked node under an unblocked parent is
      unblocked; otherwise the status stays.
     */
    method RecheckStatus(t: Tableau, checker: DirectBlockingChecker, node: NodeId)
      returns (s: BlockStatus, cursor: Option<NodeId>)
      requires Valid() && Checked(t, status, node)
      ensures Rechecked(constraints, t, node, t.parent(node).value, Possible(node, checker), StatusIn(status, node),
                        StatusIn(status, t.parent(node).value), CursorOf(greatestInvalidBlocker, node), s, cursor)
    {
      var st := StatusIn(status, node);
      cursor := CursorOf(greatestInvalidBlocker, node);
      if st.directly {
        var validBlocker;
        validBlocker, cursor := GetValidBlocker(t, checker, node);
        s := SetBlocked(validBlocker, validBlocker.Some?);
      } else if !StatusIn(status, t.parent(node).value).Blocked? {
        s := Unblocked;
      } else {
        s := st;
      }
    }

    /** The check of an active blocked node, its new status and cursor stored. */
    method RestatusNode(t: Tableau, checker: DirectBlockingChecker, node: NodeId)
      returns (s: BlockStatus, cursor: Option<NodeId>)
      requires Valid() && Checked(t, status, node)
      modifies this
      ensures Valid() && cache.Cached() == old(cache.Cached())
      ensures status == old(status)[node := s]
      ensures greatestInvalidBlocker == SetCursor(old(greatestInvalidBlocker), node, cursor)
      ensures CursorOf(greatestInvalidBlocker, node) == cursor
      ensures Rechecked(constraints, t, node, t.parent(node).value, old(Possible(node, checker)), old(StatusIn(status, node)),
                        old(StatusIn(status, t.parent(node).value)), old(CursorOf(greatestInvalidBlocker, node)), s, cursor)
      ensures infoChanged == old(infoChanged) && immediatelyValidateBlocks == old(immediatelyValidateBlocks)
      ensures firstChangedNode == old(firstChangedNode) && reported == old(reported)
    {
      assert node !in cache.Cached();
      s, cursor := RecheckStatus(t, checker, node);
      RecheckedCursor(constraints, t, node, t.parent(node).value, Possible(node, checker), StatusIn(status, node),
                      StatusIn(status, t.parent(node).value), CursorOf(greatestInvalidBlocker, node), s, cursor);
      status := status[node := s];
      greatestInvalidBlocker := SetCursor(greatestInvalidBlocker, node, cursor);
    }

    /**
      One step of validateBlocks' loop: an active blocked node is checked, its
      new status and cursor stored, and it joins the cache when it ends
      unblocked and can block.
     */
    method RevalidateNode(t: Tableau, checker: DirectBlockingChecker, node: NodeId, ghost a: CacheAnswer)
      returns (overflow: bool)
      requires Valid() && (StatusIn(status, node).Blocked? ==> t.parent(node).Some?)
      requires a.possible == Possible(node, checker) && a.possible <= cache.Cached() && forall c :: c in a.possible ==> c < node
      modifies this, cache
      ensures Valid()
      ensures CheckStep(constraints, t, checker, node, a, old(State()), State())
      ensures overflow ==> node in cache.Cached()
      ensures immediatelyValidateBlocks == old(immediatelyValidateBlocks)
      ensures firstChangedNode == old(firstChangedNode) && reported == old(reported)
    {
      ghost var s0 := State();
      overflow := false;
      if Checked(t, status, node) {
        var s, cursor := RestatusNode(t, checker, node);
        ghost var s1 := State();
        if s == Unblocked && checker.canBeBlocker(node) {
          overflow := CacheNode(checker, node);
        }
        RecheckedParts(constraints, t, checker, node, a, s, cursor, s0, s1, State());
      }
    }

    /**
      validateBlocks' loop over every node in creation order, answers
      recording what the cache answered at each visit; a capacity overflow of
      the cache ends it early.
     */
    method RevalidateAll(t: Tableau, checker: DirectBlockingChecker)
      returns (overflow: bool, ghost answers: map<NodeId, CacheAnswer>)
      requires Valid() && StrictlyIncreasing(t.nodes) && BlockedHaveParents(t, status)
      requires forall n :: t.parent(n).Some? ==> t.parent(n).value < n
      modifies this, cache
      ensures Valid()
      ensures !overflow ==> CheckProgress(constraints, t, checker, old(State()), State(), answers, |t.nodes|)
      ensures immediatelyValidateBlocks == old(immediatelyValidateBlocks)
      ensures firstChangedNode == old(firstChangedNode) && reported == old(reported)
    {
      overflow := false;
      answers := map[];
      var i := 0;
      while i < |t.nodes|
        invariant i <= |t.nodes|
        invariant Valid()
        invariant CheckProgress(constraints, t, checker, old(State()), State(), answers, i)
        invariant immediatelyValidateBlocks == old(immediatelyValidateBlocks)
        invariant firstChangedNode == old(firstChangedNode) && reported == old(reported)
      {
        overflow, i, answers := RevalidateNext(t, checker, i, old(State()), answers);
        if overflow {
          return;
        }
      }
    }

    /** One iteration of validateBlocks' loop: the check of the i-th node keeps the loop invariant. */
    method RevalidateNext(t: Tableau, checker: DirectBlockingChecker, i: nat, ghost s0: PassState,
                          ghost answers: map<NodeId, CacheAnswer>)
      returns (overflow: bool, next: nat, ghost answers': map<NodeId, CacheAnswer>)
      requires Valid() && StrictlyIncreasing(t.nodes) && i < |t.nodes| && BlockedHaveParents(t, s0.status)
      requires forall n :: t.parent(n).Some? ==> t.parent(n).value < n
      requires CheckProgress(constraints, t, checker, s0, State(), answers, i)
      modifies this, cache
      ensures Valid()
      ensures next == i + 1
      ensures answers' == answers[t.nodes[i] := old(Answer(t.nodes[i], checker))]
      ensures !overflow ==> CheckProgress(constraints, t, checker, s0, State(), answers', next)
      ensures immediatelyValidateBlocks == old(immediatelyValidateBlocks)
      ensures firstChangedNode == old(firstChangedNode) && reported == old(reported)
    {
      ghost var a := Answer(t.nodes[i], checker);
      AnswerCached(t.nodes[i], checker);
      assert Untouched(s0, State(), t.nodes[i]);
      overflow := RevalidateNode(t, checker, t.nodes[i], a);
      next := i + 1;
      answers' := answers[t.nodes[i] := a];
      if !overflow {
        CheckProgressStep(constraints, t, checker, s0, old(State()), State(), answers, a, i);
      }
    }

    /**
      validateBlocks: from now on blocks are validated immediately. When side
      constraints exist, every node is checked in creation order, after which
      no node counts as changed; a capacity overflow of the cache ends the
      check early. Without side constraints nothing else changes.
     */
    method ValidateBlocks(t: Tableau, checker: DirectBlockingChecker)
      returns (overflow: bool, ghost answers: map<NodeId, CacheAnswer>)
      requires Valid() && StrictlyIncreasing(t.nodes) && BlockedHaveParents(t, status)
      requires forall n :: t.parent(n).Some? ==> t.parent(n).value < n
      modifies this, cache
      ensures Valid()
      ensures immediatelyValidateBlocks
      ensures constraints.unary == map[] && constraints.nary == map[] ==>
        !overflow && State() == old(State()) && firstChangedNode == old(firstChangedNode) && reported == old(reported)
      ensures (constraints.unary != map[] || constraints.nary != map[]) && !overflow ==>
        && CheckProgress(constraints, t, checker, old(State()), State(), answers, |t.nodes|)
        && firstChangedNode == None && reported == {}
    {
      ghost var s0 := State();
      immediatelyValidateBlocks := true;
      assert State() == s0;
      overflow := false;
      answers := map[];
      if constraints.unary != map[] || constraints.nary != map[] {
        overflow, answers := RevalidateAll(t, checker);
        if !overflow {
          ghost var s2 := State();
          ForgetChanges();
          assert State() == s2;
        }
      }
    }

    /**
      computeBlocking: pre-blocking, giving the state preBlocked with the
      cache's answers preAnswers, and on the final chance the validation of
      every block after it, with the answers checkAnswers. Before the first
      validation blocks rest on the cache's representatives alone.
     */
    method ComputeBlocking(t: Tableau, checker: DirectBlockingChecker, finalChance: bool)
      returns (overflow: bool, ghost removed: PassState, ghost preBlocked: PassState,
               ghost preAnswers: map<NodeId, CacheAnswer>, ghost checkAnswers: map<NodeId, CacheAnswer>)
      requires Valid() && StrictlyIncreasing(t.nodes) && BlockedHaveParents(t, status)
      requires cache.Cached() <= Elements(t.nodes)
      requires forall n :: t.parent(n).Some? ==> t.parent(n).value < n
      modifies this, cache
      ensures Valid()
      ensures old(firstChangedNode).None? ==> preBlocked == old(State())
      ensures old(firstChangedNode).Some? ==>
        var first := old(firstChangedNode).value;
        && Removed(t, first, StartIndex(t.nodes, first), old(State()), removed)
        && (!overflow ==>
              Progress(constraints, t, checker, old(immediatelyValidateBlocks), first, removed, preBlocked, preAnswers,
                       StartIndex(t.nodes, first), |t.nodes|))
      ensures !overflow ==> firstChangedNode == None
      ensures !overflow && !finalChance ==>
        State() == preBlocked && immediatelyValidateBlocks == old(immediatelyValidateBlocks)
      ensures !overflow && finalChance ==>
        && immediatelyValidateBlocks
        && (constraints.unary == map[] && constraints.nary == map[] ==> State() == preBlocked)
        && (constraints.unary != map[] || constraints.nary != map[] ==>
              CheckProgress(constraints, t, checker, preBlocked, State(), checkAnswers, |t.nodes|))
    {
      ghost var s0 := State();
      overflow, removed, preAnswers := ComputePreBlocking(t, checker);
      preBlocked := State();
      checkAnswers := map[];
      if !overflow && finalChance {
        if old(firstChangedNode).Some? {
          PassKeepsParents(constraints, t, checker, old(immediatelyValidateBlocks), old(firstChangedNode).value,
                           s0, removed, preBlocked, preAnswers);
        }
        overflow, checkAnswers := ValidateBlocks(t, checker);
      }
    }
  }
}
