/**
  The clash manager of the tableau. The extension tables notify it of every
  tuple they add; it looks at the shape of the tuple and, against the facts
  already stored, either sets a clash carrying a dependency set (the choice
  points the clash depends on) or derives inequality tuples between the
  concrete successors of a node that a role and its negation relate.
 */
module Clashes {
  import opened Base

  /** The choice points a fact depends on; a union dependency set of two is their union. */
  type DependencySet = set<nat>

  /**
    The tuples of the extension tables, by the DL predicate at position 0:
    concept assertions A(x) and not A(x) of the binary table, role assertions
    R(x, y) and not R(x, y) and inequalities x != y of the ternary table, and
    every other predicate (at-least concepts, equalities, description graphs, ...),
    which the clash manager only ever passes by.
   */
  datatype Tuple =
    | ConceptTuple(literal: LiteralConcept, node: NodeId)
    | RoleTuple(positive: bool, role: RoleName, from: NodeId, to: NodeId)
    | InequalityTuple(first: NodeId, second: NodeId)
    | OtherTuple(name: string, node0: NodeId, rest: seq<NodeId>)

  /** What a table stores with a tuple: its dependency set and its core flag. */
  datatype Fact = Fact(dependencies: DependencySet, core: bool)

  /** The extension manager's state as a value: the stored facts and the clash, if any. */
  datatype Store = Store(facts: map<Tuple, Fact>, clash: Option<DependencySet>)

  /**
    What the clash manager reads of a node: the counters of negated and of
    positive atomic concepts and of negated role assertions on it, which the
    tables keep up to date, and whether the node is abstract.
   */
  datatype NodeView = NodeView(
    negatedAtomicConcepts: nat,
    positiveAtomicConcepts: nat,
    negatedRoleAssertions: nat,
    isAbstract: bool)

  /** The first node of any tuple: tuple[1]. */
  function Node0(t: Tuple): NodeId {
    match t
    case ConceptTuple(_, x) => x
    case RoleTuple(_, _, x, _) => x
    case InequalityTuple(x, _) => x
    case OtherTuple(_, x, _) => x
  }

  // ---------------------------------------------------------------------------
  // The fact store

  /**
    addTuple of the extension tables (not part of this model) as this model
    takes it: a tuple not yet stored is stored with the given dependency set
    and core flag; a stored one keeps its dependency set and becomes core when
    the new addition is core.
   */
  function Inserted(facts: map<Tuple, Fact>, t: Tuple, d: DependencySet, core: bool): (r: map<Tuple, Fact>)
    ensures r.Keys == facts.Keys + {t}
    ensures forall u :: u in facts && u != t ==> r[u] == facts[u]
  {
    if t in facts then facts[t := Fact(facts[t].dependencies, facts[t].core || core)]
    else facts[t := Fact(d, core)]
  }

  /**
    The nodes z of the stored role tuples P(x, z) for one role literal P: what
    the ternary table's retrieval with its first two positions bound to P and x
    enumerates.
   */
  function Partners(facts: map<Tuple, Fact>, positive: bool, role: RoleName, x: NodeId): (zs: set<NodeId>)
    ensures forall z :: z in zs <==> RoleTuple(positive, role, x, z) in facts
  {
    set u | u in facts.Keys && u.RoleTuple? && u.positive == positive && u.role == role && u.from == x :: u.to
  }

  /** Whether u is an inequality y != z for a stored role tuple P(x, z). */
  predicate Derivable(facts: map<Tuple, Fact>, positive: bool, role: RoleName, x: NodeId, y: NodeId, u: Tuple) {
    u.InequalityTuple? && u.first == y && RoleTuple(positive, role, x, u.second) in facts
  }

  /**
    The store after the inequality y != z has been added, as a core fact, for
    each z of zs, with the union of the new tuple's dependency set and that of
    the role tuple P(x, z) it comes from.
   */
  function WithInequalities(facts: map<Tuple, Fact>, positive: bool, role: RoleName, x: NodeId, y: NodeId,
                            deps: DependencySet, zs: set<NodeId>): (r: map<Tuple, Fact>)
    requires zs <= Partners(facts, positive, role, x)
  {
    map u | u in facts.Keys + (set z | z in zs :: InequalityTuple(y, z)) ::
      if u.InequalityTuple? && u.first == y && u.second in zs then
        if u in facts then Fact(facts[u].dependencies, true)
        else Fact(deps + facts[RoleTuple(positive, role, x, u.second)].dependencies, true)
      else facts[u]
  }

  /** Adding the inequality for one more partner z is storing it with Inserted. */
  lemma WithInequalitiesStep(facts: map<Tuple, Fact>, positive: bool, role: RoleName, x: NodeId, y: NodeId,
                             deps: DependencySet, zs: set<NodeId>, z: NodeId)
    requires zs <= Partners(facts, positive, role, x) && z in Partners(facts, positive, role, x) && z !in zs
    ensures WithInequalities(facts, positive, role, x, y, deps, zs + {z}) ==
      Inserted(WithInequalities(facts, positive, role, x, y, deps, zs), InequalityTuple(y, z),
               deps + facts[RoleTuple(positive, role, x, z)].dependencies, true)
  {
    var before := WithInequalities(facts, positive, role, x, y, deps, zs);
    var after := WithInequalities(facts, positive, role, x, y, deps, zs + {z});
    var stepped := Inserted(before, InequalityTuple(y, z), deps + facts[RoleTuple(positive, role, x, z)].dependencies, true);
    assert InequalityTuple(y, z) !in before ==> InequalityTuple(y, z) !in facts;
    assert after.Keys == stepped.Keys;
    forall u | u in after ensures after[u] == stepped[u] {
      if u != InequalityTuple(y, z) {
        assert u in before;
      }
    }
  }

  // ---------------------------------------------------------------------------
  // The case analysis of tupleAdded

  /** The tuples that clash on their own: owl:Nothing(x), not rdfs:Literal(x) and x != x. */
  predicate Unsatisfiable(t: Tuple) {
    || t == ConceptTuple(Positive(NOTHING), Node0(t))
    || t == ConceptTuple(Negative(RDFS_LITERAL), Node0(t))
    || (t.InequalityTuple? && t.first == t.second)
  }

  /**
    The concept assertions whose complement is looked up: A(x) when x carries a
    negated atomic concept, and not A(x) when x carries a positive one.
   */
  predicate ConceptChecked(t: Tuple, nodes: NodeId -> NodeView) {
    && t.ConceptTuple?
    && (if t.literal.Positive? then nodes(t.node).negatedAtomicConcepts > 0
        else nodes(t.node).positiveAtomicConcepts > 0)
  }

  /** The role assertions whose complement is looked up: R(x, y) when x has a negated role assertion, and every not R(x, y). */
  predicate RoleChecked(t: Tuple, nodes: NodeId -> NodeView) {
    && t.RoleTuple?
    && (t.positive ==> nodes(t.from).negatedRoleAssertions > 0)
  }

  /** The complementary literal of a concept or role assertion on the same nodes. */
  function Complement(t: Tuple): (c: Tuple)
    requires t.ConceptTuple? || t.RoleTuple?
    ensures c != t && Node0(c) == Node0(t)
    ensures t.ConceptTuple? ==> c.ConceptTuple? && c.literal.concept == t.literal.concept
    ensures t.RoleTuple? ==> c.RoleTuple? && c.role == t.role && c.to == t.to && c.positive != t.positive
  {
    match t
    case ConceptTuple(l, x) => ConceptTuple(Negation(l), x)
    case RoleTuple(p, r, x, y) => RoleTuple(!p, r, x, y)
  }

  /**
    tupleAdded on the value of the store: the cases are tried in order and the
    first that applies decides; a tuple no case applies to changes nothing.
   */
  function AfterTupleAdded(s: Store, t: Tuple, deps: DependencySet, nodes: NodeId -> NodeView): (r: Store)
    ensures r.clash == s.clash || r.facts == s.facts
    ensures r.facts.Keys >= s.facts.Keys
    ensures forall u :: u in r.facts && !u.InequalityTuple? ==> u in s.facts && r.facts[u] == s.facts[u]
  {
    if Unsatisfiable(t) then
      Store(s.facts, Some(deps))
    else if ConceptChecked(t, nodes) then
      if Complement(t) in s.facts then Store(s.facts, Some(deps + s.facts[Complement(t)].dependencies))
      else s
    else if RoleChecked(t, nodes) then
      if Complement(t) in s.facts then Store(s.facts, Some(deps + s.facts[Complement(t)].dependencies))
      else if !nodes(t.to).isAbstract then
        var zs := Partners(s.facts, !t.positive, t.role, t.from);
        Store(WithInequalities(s.facts, !t.positive, t.role, t.from, t.to, deps, zs), s.clash)
      else s
    else s
  }

  /** owl:Nothing(x), not rdfs:Literal(x) and x != x set the clash with exactly their own dependency set. */
  lemma UnsatisfiableClashes(s: Store, t: Tuple, deps: DependencySet, nodes: NodeId -> NodeView)
    requires t == ConceptTuple(Positive(NOTHING), Node0(t)) || t == ConceptTuple(Negative(RDFS_LITERAL), Node0(t))
             || t == InequalityTuple(Node0(t), Node0(t))
    ensures AfterTupleAdded(s, t, deps, nodes) == Store(s.facts, Some(deps))
  {
  }

  /**
    A(x) (resp. not A(x)) on a node that carries a negated (resp. positive)
    atomic concept clashes exactly when the complementary literal is stored,
    with the union of both dependency sets; otherwise nothing changes.
   */
  lemma ConceptClash(s: Store, c: LiteralConcept, x: NodeId, deps: DependencySet, nodes: NodeId -> NodeView)
    requires c != Positive(NOTHING) && c != Negative(RDFS_LITERAL)
    requires if c.Positive? then nodes(x).negatedAtomicConcepts > 0 else nodes(x).positiveAtomicConcepts > 0
    ensures var r := AfterTupleAdded(s, ConceptTuple(c, x), deps, nodes);
      && r.facts == s.facts
      && (ConceptTuple(Negation(c), x) in s.facts ==>
            r.clash == Some(deps + s.facts[ConceptTuple(Negation(c), x)].dependencies))
      && (ConceptTuple(Negation(c), x) !in s.facts ==> r.clash == s.clash)
  {
  }

  /**
    With the node's counter of negated (resp. positive) atomic concepts at 0, an
    assertion A(x) (resp. not A(x)) is not checked at all: no clash is set even
    when the complementary literal is stored.
   */
  lemma ConceptCounterZero(s: Store, c: LiteralConcept, x: NodeId, deps: DependencySet, nodes: NodeId -> NodeView)
    requires c != Positive(NOTHING) && c != Negative(RDFS_LITERAL)
    requires if c.Positive? then nodes(x).negatedAtomicConcepts == 0 else nodes(x).positiveAtomicConcepts == 0
    ensures AfterTupleAdded(s, ConceptTuple(c, x), deps, nodes) == s
  {
  }

  /**
    R(x, y) on a node with a negated role assertion, and not R(x, y) on any
    node, clash when the complementary role tuple on (x, y) is stored, with
    the union of both dependency sets.
   */
  lemma RoleClash(s: Store, positive: bool, role: RoleName, x: NodeId, y: NodeId, deps: DependencySet,
                  nodes: NodeId -> NodeView)
    requires positive ==> nodes(x).negatedRoleAssertions > 0
    requires RoleTuple(!positive, role, x, y) in s.facts
    ensures AfterTupleAdded(s, RoleTuple(positive, role, x, y), deps, nodes) ==
      Store(s.facts, Some(deps + s.facts[RoleTuple(!positive, role, x, y)].dependencies))
  {
  }

  /**
    Without a role clash and with y concrete, for every stored tuple with the
    complementary role literal on (x, z) the inequality y != z is stored as a
    core fact; a new one carries the union of the two dependency sets. Nothing
    else is added or changed, and no clash is set.
   */
  lemma {:induction false} InequalitiesDerived(s: Store, positive: bool, role: RoleName, x: NodeId, y: NodeId,
                                               deps: DependencySet, nodes: NodeId -> NodeView)
    requires positive ==> nodes(x).negatedRoleAssertions > 0
    requires RoleTuple(!positive, role, x, y) !in s.facts && !nodes(y).isAbstract
    ensures var r := AfterTupleAdded(s, RoleTuple(positive, role, x, y), deps, nodes);
      && r.clash == s.clash
      && r.facts.Keys == s.facts.Keys + (set z | z in Partners(s.facts, !positive, role, x) :: InequalityTuple(y, z))
      && (forall z :: RoleTuple(!positive, role, x, z) in s.facts ==>
            && r.facts[InequalityTuple(y, z)].core
            && (InequalityTuple(y, z) !in s.facts ==>
                  r.facts[InequalityTuple(y, z)].dependencies ==
                  deps + s.facts[RoleTuple(!positive, role, x, z)].dependencies))
      && (forall u :: u in s.facts && !Derivable(s.facts, !positive, role, x, y, u) ==> r.facts[u] == s.facts[u])
  {
    var zs := Partners(s.facts, !positive, role, x);
    var r := AfterTupleAdded(s, RoleTuple(positive, role, x, y), deps, nodes);
    assert r.facts == WithInequalities(s.facts, !positive, role, x, y, deps, zs);
  }

  /** Every derived inequality relates two different nodes, so storing it never sets a clash in turn. */
  lemma {:induction false} DerivedInequalitiesProper(s: Store, positive: bool, role: RoleName, x: NodeId, y: NodeId,
                                                     deps: DependencySet, nodes: NodeId -> NodeView)
    requires RoleTuple(!positive, role, x, y) !in s.facts
    ensures var r := AfterTupleAdded(s, RoleTuple(positive, role, x, y), deps, nodes);
      forall u :: u in r.facts && u !in s.facts ==> u.InequalityTuple? && u.first != u.second
  {
    var r := AfterTupleAdded(s, RoleTuple(positive, role, x, y), deps, nodes);
    forall u | u in r.facts && u !in s.facts ensures u.InequalityTuple? && u.first != u.second {
      assert u.InequalityTuple?;
      assert u.first == y && RoleTuple(!positive, role, x, u.second) in s.facts;
    }
  }

  /** A role assertion whose second node is abstract derives nothing. */
  lemma AbstractDerivesNothing(s: Store, positive: bool, role: RoleName, x: NodeId, y: NodeId,
                               deps: DependencySet, nodes: NodeId -> NodeView)
    requires RoleTuple(!positive, role, x, y) !in s.facts && nodes(y).isAbstract
    ensures AfterTupleAdded(s, RoleTuple(positive, role, x, y), deps, nodes) == s
  {
  }

  /**
    A tuple no case applies to (an inequality between different nodes, an
    unchecked role assertion R(x, y), any other predicate) leaves both the
    clash and the facts as they are.
   */
  lemma UnmatchedUnchanged(s: Store, t: Tuple, deps: DependencySet, nodes: NodeId -> NodeView)
    requires !Unsatisfiable(t)
    requires t.InequalityTuple? || t.OtherTuple? || (t.RoleTuple? && t.positive && nodes(t.from).negatedRoleAssertions == 0)
    ensures AfterTupleAdded(s, t, deps, nodes) == s
  {
  }

  // ---------------------------------------------------------------------------
  // The objects

  /** The part of the extension manager the clash manager uses: the tables' facts and the clash. */
  class ExtensionManager {
    var facts: map<Tuple, Fact>
    var clash: Option<DependencySet>

    constructor ()
      ensures facts == map[] && clash == None
    {
      facts := map[];
      clash := None;
    }

    function State(): Store
      reads this
    {
      Store(facts, clash)
    }

    /** setClash: the clash now carries the given dependency set. */
    method SetClash(d: DependencySet)
      modifies this
      ensures State() == Store(old(facts), Some(d))
    {
      clash := Some(d);
    }

    /** addTuple on the ternary table. */
    method AddTuple(t: Tuple, d: DependencySet, core: bool)
      modifies this
      ensures State() == Store(Inserted(old(facts), t, d, core), old(clash))
    {
      if t in facts {
        facts := facts[t := Fact(facts[t].dependencies, facts[t].core || core)];
      } else {
        facts := facts[t := Fact(d, core)];
      }
    }
  }

  class ClashManager {
    const extensionManager: ExtensionManager

    constructor (extensionManager: ExtensionManager)
      ensures this.extensionManager == extensionManager
    {
      this.extensionManager := extensionManager;
    }

    /**
      tupleAdded: the tables have just added t with the dependency set deps;
      the store afterwards is the one the case analysis prescribes.
     */
    method TupleAdded(t: Tuple, deps: DependencySet, isCore: bool, nodes: NodeId -> NodeView)
      modifies extensionManager
      ensures extensionManager.State() == AfterTupleAdded(old(extensionManager.State()), t, deps, nodes)
    {
      var facts := extensionManager.facts;
      if Unsatisfiable(t) {
        extensionManager.SetClash(deps);
      } else if ConceptChecked(t, nodes) {
        var complement := Complement(t);
        if complement in facts {
          extensionManager.SetClash(deps + facts[complement].dependencies);
        }
      } else if RoleChecked(t, nodes) {
        var complement := Complement(t);
        if complement in facts {
          extensionManager.SetClash(deps + facts[complement].dependencies);
        } else if !nodes(t.to).isAbstract {
          DeriveInequalities(!t.positive, t.role, t.from, t.to, deps);
        }
      }
    }

    /**
      The loop over the retrieval of the tuples P(x, z), P the complementary
      role literal: for each, the core inequality y != z is added to the
      ternary table with the union of the two dependency sets.
     */
    method DeriveInequalities(positive: bool, role: RoleName, x: NodeId, y: NodeId, deps: DependencySet)
      modifies extensionManager
      ensures extensionManager.State() ==
        Store(WithInequalities(old(extensionManager.facts), positive, role, x, y, deps,
                               Partners(old(extensionManager.facts), positive, role, x)),
              old(extensionManager.clash))
    {
      ghost var facts0 := extensionManager.facts;
      var pending := Partners(extensionManager.facts, positive, role, x);
      ghost var all := pending;
      while pending != {}
        invariant pending <= all
        invariant extensionManager.facts == WithInequalities(facts0, positive, role, x, y, deps, all - pending)
        invariant extensionManager.clash == old(extensionManager.clash)
        decreases pending
      {
        var z :| z in pending;
        ghost var done := all - pending;
        var fromRole := extensionManager.facts[RoleTuple(positive, role, x, z)].dependencies;
        assert fromRole == facts0[RoleTuple(positive, role, x, z)].dependencies;
        extensionManager.AddTuple(InequalityTuple(y, z), deps + fromRole, true);
        WithInequalitiesStep(facts0, positive, role, x, y, deps, done, z);
        pending := pending - {z};
        assert all - pending == done + {z};
      }
      assert all - pending == all;
    }
  }
}
