/**
  The side-constraint checks of anywhere core blocking: whether a candidate
  blocker can stand in for a blocked node without violating the cardinality
  restrictions that the blocking constraints name. The extension tables are
  finite sets of assertions; each check is a loop over an immutable set, proved
  against a quantified statement of what satisfying the constraints means.
 */
module Suitability {
  import opened Base

  /**
    The blocked node, the candidate blocker, their parents, and the atomic
    concept labels of all four, as getValidBlocker hands them to the checks.
   */
  datatype Pairing = Pairing(
    blocker: NodeId, blockerParent: NodeId, blocked: NodeId, blockedParent: NodeId,
    blockerLabel: set<AtomicConcept>, blockerParentLabel: set<AtomicConcept>,
    blockedLabel: set<AtomicConcept>, blockedParentLabel: set<AtomicConcept>)

  /** The ternary table of role assertions r(x, y) and the binary table of concept assertions A(x). */
  datatype ABox = ABox(roles: set<(RoleName, NodeId, NodeId)>, concepts: set<(AtomicConcept, NodeId)>)

  // ---------------------------------------------------------------------------
  // Labels and role assertions

  /** isInLabel: an atomic concept holds when it is in the label, a negated one when it is not. */
  function IsInLabel(c: LiteralConcept, nodeLabel: set<AtomicConcept>): (r: bool)
    ensures r <==> (c.Positive? <==> c.concept in nodeLabel)
  {
    match c
    case Positive(a) => a in nodeLabel
    case Negative(a) => a !in nodeLabel
  }

  /** A literal and its negation never hold together nor fail together. */
  lemma IsInLabelNegation(c: LiteralConcept, nodeLabel: set<AtomicConcept>)
    ensures IsInLabel(Negation(c), nodeLabel) == !IsInLabel(c, nodeLabel)
  {
  }

  /** isInABox: r(first, second) is asserted; an inverse role is looked up with its arguments swapped. */
  function IsInABox(abox: ABox, r: Role, first: NodeId, second: NodeId): (b: bool)
    ensures b <==> (r.name, if r.AtomicRole? then first else second, if r.AtomicRole? then second else first) in abox.roles
  {
    match r
    case AtomicRole(n) => (n, first, second) in abox.roles
    case InverseRole(n) => (n, second, first) in abox.roles
  }

  /** r(x, y) holds exactly when Inverse(r)(y, x) does. */
  lemma IsInABoxInverse(abox: ABox, r: Role, x: NodeId, y: NodeId)
    ensures IsInABox(abox, Inverse(r), y, x) == IsInABox(abox, r, x, y)
  {
  }

  /** The atomic concepts asserted of a node in the binary table. */
  function ConceptLabel(abox: ABox, x: NodeId): set<AtomicConcept> {
    set t | t in abox.concepts && t.1 == x :: t.0
  }

  /** The r-successors of a node: the tuples the source retrieves with the role and the node bound. */
  function Successors(abox: ABox, r: Role, x: NodeId): (s: set<NodeId>)
    ensures forall y: NodeId :: y in s <==> IsInABox(abox, r, x, y)
  {
    match r
    case AtomicRole(n) =>
      var s := set t | t in abox.roles && t.0 == n && t.1 == x :: t.2;
      assert forall y: NodeId :: IsInABox(abox, r, x, y) ==> (n, x, y) in abox.roles;
      s
    case InverseRole(n) =>
      var s := set t | t in abox.roles && t.0 == n && t.2 == x :: t.1;
      assert forall y: NodeId :: IsInABox(abox, r, x, y) ==> (n, y, x) in abox.roles;
      s
  }

  /** The nodes of a set at which the filler holds, judged by the binary table. */
  function FillerIn(abox: ABox, filler: LiteralConcept, s: set<NodeId>): set<NodeId> {
    set y | y in s && IsInLabel(filler, ConceptLabel(abox, y))
  }

  /** The r-successors of a node at which the filler holds. */
  function FillerSuccessors(abox: ABox, r: Role, x: NodeId, filler: LiteralConcept): set<NodeId> {
    FillerIn(abox, filler, Successors(abox, r, x))
  }

  /** What hasMoreThanNSuccessors answers: at least n r-successors satisfy the filler. */
  predicate AtLeastSuccessors(abox: ABox, x: NodeId, n: int, r: Role, filler: LiteralConcept) {
    |FillerSuccessors(abox, r, x, filler)| >= n
  }

  /** The binary-table lookup of hasMoreThanNSuccessors agrees with the node's label. */
  lemma ConceptLookup(abox: ABox, filler: LiteralConcept, y: NodeId)
    ensures IsInLabel(filler, ConceptLabel(abox, y)) <==> ((filler.concept, y) in abox.concepts <==> filler.Positive?)
  {
    if (filler.concept, y) in abox.concepts {
      assert filler.concept in ConceptLabel(abox, y);
    }
  }

  /** The binary-table test of hasMoreThanNSuccessors for one successor. */
  function FillerLookup(abox: ABox, filler: LiteralConcept, z: NodeId): (holds: bool)
    ensures holds <==> IsInLabel(filler, ConceptLabel(abox, z))
  {
    ConceptLookup(abox, filler, z);
    match filler
    case Positive(a) => (a, z) in abox.concepts
    case Negative(a) => (a, z) !in abox.concepts
  }

  /** Visiting one more successor adds it to the suitable ones exactly when the filler holds there. */
  lemma FillerInAdd(abox: ABox, filler: LiteralConcept, seen: set<NodeId>, z: NodeId)
    requires z !in seen
    ensures |FillerIn(abox, filler, seen + {z})| ==
            |FillerIn(abox, filler, seen)| + if IsInLabel(filler, ConceptLabel(abox, z)) then 1 else 0
  {
    if IsInLabel(filler, ConceptLabel(abox, z)) {
      assert FillerIn(abox, filler, seen + {z}) == FillerIn(abox, filler, seen) + {z};
    } else {
      assert FillerIn(abox, filler, seen + {z}) == FillerIn(abox, filler, seen);
    }
  }

  /** The suitable nodes of a disjoint union are at least those of either part. */
  lemma FillerInSplit(abox: ABox, filler: LiteralConcept, seen: set<NodeId>, remaining: set<NodeId>)
    requires seen !! remaining
    ensures |FillerIn(abox, filler, seen + remaining)| >= |FillerIn(abox, filler, seen)|
  {
    assert FillerIn(abox, filler, seen + remaining) ==
           FillerIn(abox, filler, seen) + FillerIn(abox, filler, remaining);
  }

  /**
    hasMoreThanNSuccessors: counts the r-successors of the node that satisfy the
    filler, stopping as soon as n are found, and answers whether n were found.
    The successors are visited in no particular order.
   */
  method HasMoreThanNSuccessors(abox: ABox, blocker: NodeId, n: int, r: Role, filler: LiteralConcept)
    returns (more: bool)
    ensures more <==> AtLeastSuccessors(abox, blocker, n, r, filler)
  {
    var all := Successors(abox, r, blocker);
    var suitableSuccessors := 0;
    var remaining := all;
    ghost var seen: set<NodeId> := {};
    while remaining != {} && suitableSuccessors < n
      invariant remaining !! seen && seen + remaining == all
      invariant suitableSuccessors == |FillerIn(abox, filler, seen)|
      decreases remaining
    {
      var z :| z in remaining;
      FillerInAdd(abox, filler, seen, z);
      if FillerLookup(abox, filler, z) {
        suitableSuccessors := suitableSuccessors + 1;
      }
      remaining := remaining - {z};
      seen := seen + {z};
    }
    FillerInSplit(abox, filler, seen, remaining);
    return suitableSuccessors >= n;
  }

  // ---------------------------------------------------------------------------
  // isBlockedParentSuitable

  /**
    What a disjunct of a constraint at the blocked node's parent demands when the
    blocker replaces the blocked node: for (>= n r.B), that B at the blocked node
    carry over to the blocker whenever r(blockedParent, blocked) holds; for
    (<= n r.B), that B at the blocker already hold at the blocked node when
    r(blockedParent, blocked) holds; for an atomic concept, that the blocked
    node's parent has it.
   */
  predicate ParentDisjunctHolds(d: Disjunct, abox: ABox, p: Pairing) {
    match d
    case AtLeast(_, r, f) =>
      IsInABox(abox, r, p.blockedParent, p.blocked) && IsInLabel(f, p.blockedLabel) ==> IsInLabel(f, p.blockerLabel)
    case AtMost(_, r, f) =>
      IsInABox(abox, r, p.blockedParent, p.blocked) && IsInLabel(f, p.blockerLabel) ==> IsInLabel(f, p.blockedLabel)
    case Atomic(c) => c in p.blockedParentLabel
  }

  /** Some disjunct of the conjunct holds at the blocked node's parent. */
  predicate ParentConjunctHolds(conjunct: Conjunct, abox: ABox, p: Pairing) {
    exists d :: d in conjunct && ParentDisjunctHolds(d, abox, p)
  }

  /** Every conjunct of the conclusions has a disjunct that holds at the blocked node's parent. */
  predicate BlockedParentSuitable(conclusions: Conclusions, abox: ABox, p: Pairing) {
    forall conjunct :: conjunct in conclusions ==> ParentConjunctHolds(conjunct, abox, p)
  }

  /**
    The inner loop of isBlockedParentSuitable: the disjuncts of one conjunct are
    judged one at a time until one is satisfied.
   */
  method ParentConjunctSatisfied(conjunct: Conjunct, abox: ABox, p: Pairing) returns (satisfied: bool)
    ensures satisfied <==> ParentConjunctHolds(conjunct, abox, p)
  {
    satisfied := false;
    var rest := conjunct;
    while rest != {} && !satisfied
      invariant rest <= conjunct
      invariant satisfied ==> ParentConjunctHolds(conjunct, abox, p)
      invariant !satisfied ==> forall d :: d in conjunct && d !in rest ==> !ParentDisjunctHolds(d, abox, p)
      decreases rest
    {
      var d :| d in rest;
      rest := rest - {d};
      satisfied := true;
      match d {
        case AtLeast(_, r, filler) =>
          if IsInLabel(filler, p.blockedLabel) && !IsInLabel(filler, p.blockerLabel) &&
             IsInABox(abox, r, p.blockedParent, p.blocked)
          {
            satisfied := false;
          }
        case AtMost(_, r, filler) =>
          if !IsInLabel(filler, p.blockedLabel) && IsInLabel(filler, p.blockerLabel) &&
             IsInABox(abox, r, p.blockedParent, p.blocked)
          {
            satisfied := false;
          }
        case Atomic(c) =>
          if !IsInLabel(Positive(c), p.blockedParentLabel) {
            satisfied := false;
          }
      }
    }
  }

  /**
    isBlockedParentSuitable: true exactly when every conjunct has a satisfied
    disjunct; the first conjunct without one ends the check. Of the four labels
    only the blocker's parent label is not consulted.
   */
  method IsBlockedParentSuitable(conclusions: Conclusions, abox: ABox, p: Pairing) returns (suitable: bool)
    ensures suitable <==> BlockedParentSuitable(conclusions, abox, p)
  {
    var rest := conclusions;
    while rest != {}
      invariant rest <= conclusions
      invariant forall conjunct :: conjunct in conclusions && conjunct !in rest ==>
        ParentConjunctHolds(conjunct, abox, p)
      decreases rest
    {
      var conjunct :| conjunct in rest;
      var satisfied := ParentConjunctSatisfied(conjunct, abox, p);
      if !satisfied {
        return false;
      }
      rest := rest - {conjunct};
    }
    return true;
  }

  // ---------------------------------------------------------------------------
  // isBlockerSuitable

  /**
    What a disjunct of a constraint at the blocker demands once it is copied to
    the blocked node. For (>= n r.B): if the blocker's parent is an r-neighbour
    with B, so is the blocked node's parent, or the blocker has n r-successors
    with B anyway. For (<= n r.B): if the blocked node's parent is an r-neighbour
    with B but the blocker's parent is not, the blocker has fewer than n - 1
    r-successors with B. For an atomic concept: the blocker has it.
   */
  predicate BlockerDisjunctHolds(d: Disjunct, abox: ABox, p: Pairing) {
    match d
    case AtLeast(n, r, f) =>
      IsInLabel(f, p.blockerParentLabel) && IsInABox(abox, r, p.blocker, p.blockerParent) ==>
        (IsInLabel(f, p.blockedParentLabel) && IsInABox(abox, r, p.blocked, p.blockedParent)) ||
        AtLeastSuccessors(abox, p.blocker, n, r, f)
    case AtMost(n, r, f) =>
      IsInLabel(f, p.blockedParentLabel) && IsInABox(abox, r, p.blocked, p.blockedParent) ==>
        (IsInLabel(f, p.blockerParentLabel) && IsInABox(abox, r, p.blocker, p.blockerParent)) ||
        !AtLeastSuccessors(abox, p.blocker, n - 1, r, f)
    case Atomic(c) => c in p.blockerLabel
  }

  /** Some disjunct of the conjunct holds of the blocker. */
  predicate BlockerConjunctHolds(conjunct: Conjunct, abox: ABox, p: Pairing) {
    exists d :: d in conjunct && BlockerDisjunctHolds(d, abox, p)
  }

  /** Every conjunct of the conclusions has a disjunct that holds of the blocker. */
  predicate BlockerSuitable(conclusions: Conclusions, abox: ABox, p: Pairing) {
    forall conjunct :: conjunct in conclusions ==> BlockerConjunctHolds(conjunct, abox, p)
  }

  /** The judgement of one disjunct in isBlockerSuitable, counting successors only when needed. */
  method BlockerDisjunctSatisfied(d: Disjunct, abox: ABox, p: Pairing) returns (satisfied: bool)
    ensures satisfied <==> BlockerDisjunctHolds(d, abox, p)
  {
    satisfied := true;
    match d {
      case AtLeast(n, r, filler) =>
        if IsInLabel(filler, p.blockerParentLabel) && IsInABox(abox, r, p.blocker, p.blockerParent) &&
           (!IsInLabel(filler, p.blockedParentLabel) || !IsInABox(abox, r, p.blocked, p.blockedParent))
        {
          var more := HasMoreThanNSuccessors(abox, p.blocker, n, r, filler);
          if !more {
            satisfied := false;
          }
        }
      case AtMost(n, r, filler) =>
        if IsInLabel(filler, p.blockedParentLabel) && IsInABox(abox, r, p.blocked, p.blockedParent) &&
           (!IsInLabel(filler, p.blockerParentLabel) || !IsInABox(abox, r, p.blocker, p.blockerParent))
        {
          var more := HasMoreThanNSuccessors(abox, p.blocker, n - 1, r, filler);
          if more {
            satisfied := false;
          }
        }
      case Atomic(c) =>
        if !IsInLabel(Positive(c), p.blockerLabel) {
          satisfied := false;
        }
    }
  }

  /** The inner loop of isBlockerSuitable: disjuncts are judged until one is satisfied. */
  method BlockerConjunctSatisfied(conjunct: Conjunct, abox: ABox, p: Pairing) returns (satisfied: bool)
    ensures satisfied <==> BlockerConjunctHolds(conjunct, abox, p)
  {
    satisfied := false;
    var rest := conjunct;
    while rest != {} && !satisfied
      invariant rest <= conjunct
      invariant satisfied ==> BlockerConjunctHolds(conjunct, abox, p)
      invariant !satisfied ==> forall d :: d in conjunct && d !in rest ==> !BlockerDisjunctHolds(d, abox, p)
      decreases rest
    {
      var d :| d in rest;
      rest := rest - {d};
      satisfied := BlockerDisjunctSatisfied(d, abox, p);
    }
  }

  /**
    isBlockerSuitable: true exactly when every conjunct has a disjunct that holds
    of the blocker; the first conjunct without one ends the check. Of the four
    labels only the blocked node's own label is not consulted.
   */
  method IsBlockerSuitable(conclusions: Conclusions, abox: ABox, p: Pairing) returns (suitable: bool)
    ensures suitable <==> BlockerSuitable(conclusions, abox, p)
  {
    var rest := conclusions;
    while rest != {}
      invariant rest <= conclusions
      invariant forall conjunct :: conjunct in conclusions && conjunct !in rest ==>
        BlockerConjunctHolds(conjunct, abox, p)
      decreases rest
    {
      var conjunct :| conjunct in rest;
      var satisfied := BlockerConjunctSatisfied(conjunct, abox, p);
      if !satisfied {
        return false;
      }
      rest := rest - {conjunct};
    }
    return true;
  }

  // ---------------------------------------------------------------------------
  // The checks getValidBlocker makes of one candidate

  /**
    The core blocking constraints: conclusions keyed by a single premise concept
    and by a set of premise concepts, and whether the ontology has inverse roles.
   */
  datatype Constraints = Constraints(
    unary: map<AtomicConcept, Conclusions>,
    nary: map<set<AtomicConcept>, Conclusions>,
    hasInverses: bool)

  /** Every unary constraint whose premise labels the blocked node's parent is met there. */
  predicate UnaryParentOk(cs: Constraints, abox: ABox, p: Pairing) {
    forall c :: c in p.blockedParentLabel && c in cs.unary ==> BlockedParentSuitable(cs.unary[c], abox, p)
  }

  /** Every n-ary constraint whose premises all label the blocked node's parent is met there. */
  predicate NAryParentOk(cs: Constraints, abox: ABox, p: Pairing) {
    forall premises :: premises in cs.nary && premises <= p.blockedParentLabel ==>
      BlockedParentSuitable(cs.nary[premises], abox, p)
  }

  /** Every unary constraint whose premise labels the blocker is met once copied to the blocked node. */
  predicate UnaryBlockerOk(cs: Constraints, abox: ABox, p: Pairing) {
    forall c :: c in p.blockerLabel && c in cs.unary ==> BlockerSuitable(cs.unary[c], abox, p)
  }

  /** Every n-ary constraint whose premises all label the blocker is met once copied to the blocked node. */
  predicate NAryBlockerOk(cs: Constraints, abox: ABox, p: Pairing) {
    forall premises :: premises in cs.nary && premises <= p.blockerLabel ==>
      BlockerSuitable(cs.nary[premises], abox, p)
  }

  /**
    A candidate is a valid blocker when the blocked node's parent keeps its
    constraints and, with inverse roles, the blocker's constraints carry over.
   */
  predicate Fits(cs: Constraints, abox: ABox, p: Pairing) {
    && UnaryParentOk(cs, abox, p)
    && NAryParentOk(cs, abox, p)
    && (cs.hasInverses ==> UnaryBlockerOk(cs, abox, p) && NAryBlockerOk(cs, abox, p))
  }

  /** The loop over the blocked node's parent label, stopping at the first violated constraint. */
  method CheckUnaryParent(cs: Constraints, abox: ABox, p: Pairing) returns (ok: bool)
    ensures ok <==> UnaryParentOk(cs, abox, p)
  {
    ok := true;
    var rest := p.blockedParentLabel;
    while rest != {} && ok
      invariant rest <= p.blockedParentLabel
      invariant ok <==> forall c :: c in p.blockedParentLabel && c !in rest && c in cs.unary ==>
        BlockedParentSuitable(cs.unary[c], abox, p)
      decreases rest
    {
      var c :| c in rest;
      rest := rest - {c};
      if c in cs.unary {
        var suitable := IsBlockedParentSuitable(cs.unary[c], abox, p);
        if !suitable {
          ok := false;
        }
      }
    }
  }

  /** The loop over the n-ary premises for the blocked node's parent; once violated, the rest are skipped. */
  method CheckNAryParent(cs: Constraints, abox: ABox, p: Pairing) returns (ok: bool)
    ensures ok <==> NAryParentOk(cs, abox, p)
  {
    ok := true;
    var rest := cs.nary.Keys;
    while rest != {}
      invariant rest <= cs.nary.Keys
      invariant ok <==> forall premises ::
        premises in cs.nary && premises !in rest && premises <= p.blockedParentLabel ==>
          BlockedParentSuitable(cs.nary[premises], abox, p)
      decreases rest
    {
      var premises :| premises in rest;
      rest := rest - {premises};
      if ok && premises <= p.blockedParentLabel {
        var suitable := IsBlockedParentSuitable(cs.nary[premises], abox, p);
        if !suitable {
          ok := false;
        }
      }
    }
  }

  /** The loop over the blocker's label, stopping at the first violated constraint. */
  method CheckUnaryBlocker(cs: Constraints, abox: ABox, p: Pairing) returns (ok: bool)
    ensures ok <==> UnaryBlockerOk(cs, abox, p)
  {
    ok := true;
    var rest := p.blockerLabel;
    while rest != {} && ok
      invariant rest <= p.blockerLabel
      invariant ok <==> forall c :: c in p.blockerLabel && c !in rest && c in cs.unary ==>
        BlockerSuitable(cs.unary[c], abox, p)
      decreases rest
    {
      var c :| c in rest;
      rest := rest - {c};
      if c in cs.unary {
        var suitable := IsBlockerSuitable(cs.unary[c], abox, p);
        if !suitable {
          ok := false;
        }
      }
    }
  }

  /** The loop over the n-ary premises for the blocker; once violated, the rest are skipped. */
  method CheckNAryBlocker(cs: Constraints, abox: ABox, p: Pairing) returns (ok: bool)
    ensures ok <==> NAryBlockerOk(cs, abox, p)
  {
    ok := true;
    var rest := cs.nary.Keys;
    while rest != {}
      invariant rest <= cs.nary.Keys
      invariant ok <==> forall premises ::
        premises in cs.nary && premises !in rest && premises <= p.blockerLabel ==>
          BlockerSuitable(cs.nary[premises], abox, p)
      decreases rest
    {
      var premises :| premises in rest;
      rest := rest - {premises};
      if ok && premises <= p.blockerLabel {
        var suitable := IsBlockerSuitable(cs.nary[premises], abox, p);
        if !suitable {
          ok := false;
        }
      }
    }
  }

  /**
    The body of getValidBlocker's candidate loop: the four groups of checks in
    order, each run only while the candidate is still suitable. The n-ary check
    for the blocked node's parent passes the labels in parameter order here; see
    NAryParentOkAsWritten for the order the source passes.
   */
  method CheckCandidate(cs: Constraints, abox: ABox, p: Pairing) returns (suitable: bool)
    ensures suitable <==> Fits(cs, abox, p)
  {
    suitable := CheckUnaryParent(cs, abox, p);
    if suitable {
      suitable := CheckNAryParent(cs, abox, p);
    }
    if suitable && cs.hasInverses {
      suitable := CheckUnaryBlocker(cs, abox, p);
    }
    if suitable && cs.hasInverses {
      suitable := CheckNAryBlocker(cs, abox, p);
    }
  }

  /**
    The n-ary parent check as the source writes it: the labels reach
    isBlockedParentSuitable in the order (blocked, blocked parent, blocker,
    blocker parent), while its parameters and the unary call use (blocker,
    blocker parent, blocked, blocked parent). The blocked node and its parent
    are passed correctly.
   */
  predicate NAryParentOkAsWritten(cs: Constraints, abox: ABox, p: Pairing) {
    var q := p.(blockerLabel := p.blockedLabel, blockerParentLabel := p.blockedParentLabel,
                blockedLabel := p.blockerLabel, blockedParentLabel := p.blockerParentLabel);
    forall premises :: premises in cs.nary && premises <= p.blockedParentLabel ==>
      BlockedParentSuitable(cs.nary[premises], abox, q)
  }

  /**
    The constraint "A implies C at the blocked node's parent" is accepted when
    keyed by the concept A and, with the parameter order, when keyed by the set
    {A}; as written, the set-keyed check looks for C in the blocker's parent
    label instead and rejects the same candidate.
   */
  lemma NAryParentArgumentsSwapped()
    ensures
      var conclusions: Conclusions := {{Atomic("C")}};
      var cs := Constraints(map["A" := conclusions], map[{"A"} := conclusions], false);
      var p := Pairing(2, 1, 4, 3, {}, {"A"}, {}, {"A", "C"});
      var abox := ABox({}, {});
      && UnaryParentOk(cs, abox, p) && NAryParentOk(cs, abox, p)
      && !NAryParentOkAsWritten(cs, abox, p)
  {
    var conclusions: Conclusions := {{Atomic("C")}};
    var cs := Constraints(map["A" := conclusions], map[{"A"} := conclusions], false);
    var p := Pairing(2, 1, 4, 3, {}, {"A"}, {}, {"A", "C"});
    var abox := ABox({}, {});
    assert ParentDisjunctHolds(Atomic("C"), abox, p);
    assert ParentConjunctHolds({Atomic("C")}, abox, p);
    var q := p.(blockerLabel := p.blockedLabel, blockerParentLabel := p.blockedParentLabel,
                blockedLabel := p.blockerLabel, blockedParentLabel := p.blockerParentLabel);
    assert !ParentDisjunctHolds(Atomic("C"), abox, q);
    assert {"A"} <= p.blockedParentLabel;
    assert !BlockedParentSuitable(cs.nary[{"A"}], abox, q);
  }
}
