/**
  Vocabulary shared by the blocking engine and the clash manager of the tableau
  reasoner: node ids, concepts, roles, the disjuncts of the side-constraint
  conclusions, the direct blocking checker's interface, the node id order used by
  every sorted node set, and 32-bit Java integer arithmetic.
 */
module Base {

  /** Tableau nodes are identified by their creation id. */
  type NodeId = nat

  datatype Option<T> = None | Some(value: T)

  type AtomicConcept = string
  type RoleName = string

  /** owl:Nothing and rdfs:Literal, the two concepts the clash manager singles out. */
  const NOTHING: AtomicConcept := "http://www.w3.org/2002/07/owl#Nothing"
  const RDFS_LITERAL: AtomicConcept := "http://www.w3.org/2000/01/rdf-schema#Literal"

  /** A literal concept: an atomic concept A or an atomic negation not A. */
  datatype LiteralConcept = Positive(concept: AtomicConcept) | Negative(concept: AtomicConcept)

  function Negation(c: LiteralConcept): (r: LiteralConcept)
    ensures r.concept == c.concept && r.Positive? != c.Positive?
  {
    match c
    case Positive(a) => Negative(a)
    case Negative(a) => Positive(a)
  }

  /** A role: an atomic role or the inverse of one. */
  datatype Role = AtomicRole(name: RoleName) | InverseRole(name: RoleName)

  function Inverse(r: Role): (s: Role)
    ensures s.name == r.name && s.AtomicRole? != r.AtomicRole?
  {
    match r
    case AtomicRole(n) => InverseRole(n)
    case InverseRole(n) => AtomicRole(n)
  }

  /**
    The three shapes a disjunct of a core-blocking side-constraint conclusion can
    take: (>= n r.B), (<= n r.B) and an atomic concept. The source raises an
    internal error for any other shape; here no other shape exists.
   */
  datatype Disjunct =
    | AtLeast(number: int, onRole: Role, toConcept: LiteralConcept)
    | AtMost(number: int, onRole: Role, toConcept: LiteralConcept)
    | Atomic(concept: AtomicConcept)

  /** A conclusion in disjunctive normal form: a set of conjuncts, each a set of disjuncts. */
  type Conjunct = set<Disjunct>
  type Conclusions = set<Conjunct>

  /**
    The answers of the direct blocking checker (not part of this model) in the
    current tableau state: the structural hash of a node, the structural match
    isBlockedBy(blocker, blocked), and the two eligibility predicates.
   */
  datatype DirectBlockingChecker = DirectBlockingChecker(
    blockingHashCode: NodeId -> bv32,
    isBlockedBy: (NodeId, NodeId) -> bool,
    canBeBlocked: NodeId -> bool,
    canBeBlocker: NodeId -> bool)

  // ---------------------------------------------------------------------------
  // Java int arithmetic and the node id order

  const INT_MAX: int := 0x7FFF_FFFF

  /** Two's-complement wrap-around of a mathematical integer into a Java int. */
  function WrapInt32(x: int): (r: int)
    ensures -0x8000_0000 <= r <= INT_MAX
    ensures -0x8000_0000 <= x <= INT_MAX ==> r == x
  {
    (x + 0x8000_0000) % 0x1_0000_0000 - 0x8000_0000
  }

  /**
    NodeIDComparator.compare: the Java int difference of the two ids. Node ids
    are non-negative Java ints, so the subtraction never wraps and the sign of
    the result is the order of the ids; every TreeSet of nodes in the source is
    therefore a set ordered by id, which is how this model represents it.
   */
  function CompareNodeIds(n1: NodeId, n2: NodeId): (r: int)
    requires n1 <= INT_MAX && n2 <= INT_MAX
    ensures r < 0 <==> n1 < n2
    ensures r == 0 <==> n1 == n2
    ensures r > 0 <==> n1 > n2
  {
    WrapInt32(n1 - n2)
  }

  // ---------------------------------------------------------------------------
  // Sorted node sets: first(), last() and iteration in id order

  /** A least element of a non-empty node set, found by taking one element out at a time. */
  ghost function Least(s: set<NodeId>): (m: NodeId)
    requires s != {}
    ensures m in s && forall x :: x in s ==> m <= x
    decreases |s|
  {
    var y :| y in s;
    if s - {y} == {} then
      assert forall x :: x in s ==> x in s - {y} || x == y;
      y
    else
      var m := Least(s - {y});
      assert forall x :: x in s ==> x in s - {y} || x == y;
      if y < m then y else m
  }

  /** A greatest element of a non-empty node set. */
  ghost function Greatest(s: set<NodeId>): (m: NodeId)
    requires s != {}
    ensures m in s && forall x :: x in s ==> x <= m
    decreases |s|
  {
    var y :| y in s;
    if s - {y} == {} then
      assert forall x :: x in s ==> x in s - {y} || x == y;
      y
    else
      var m := Greatest(s - {y});
      assert forall x :: x in s ==> x in s - {y} || x == y;
      if m < y then y else m
  }

  /** SortedSet.first(): the least id of a non-empty node set. */
  function First(s: set<NodeId>): (m: NodeId)
    requires s != {}
    ensures m in s && forall x :: x in s ==> m <= x
  {
    assert Least(s) in s && forall x :: x in s ==> Least(s) <= x;
    var m :| m in s && forall x :: x in s ==> m <= x;
    m
  }

  /** SortedSet.last(): the greatest id of a non-empty node set. */
  function Last(s: set<NodeId>): (m: NodeId)
    requires s != {}
    ensures m in s && forall x :: x in s ==> x <= m
  {
    assert Greatest(s) in s && forall x :: x in s ==> x <= Greatest(s);
    var m :| m in s && forall x :: x in s ==> x <= m;
    m
  }

  ghost predicate StrictlyIncreasing(s: seq<NodeId>) {
    forall i, j :: 0 <= i < j < |s| ==> s[i] < s[j]
  }

  /** In a strictly increasing list a smaller element comes earlier. */
  lemma IndexBelow(s: seq<NodeId>, i: int, j: int)
    requires StrictlyIncreasing(s) && 0 <= i < |s| && 0 <= j < |s| && s[i] < s[j]
    ensures i < j
  {
  }

  /** The elements of a node set in the order a TreeSet ordered by id iterates them. */
  function Ascending(s: set<NodeId>): (r: seq<NodeId>)
    ensures |r| == |s|
    ensures forall i :: 0 <= i < |r| ==> r[i] in s
    ensures StrictlyIncreasing(r)
    decreases |s|
  {
    if s == {} then []
    else
      var m := First(s);
      var rest := Ascending(s - {m});
      assert forall i :: 0 <= i < |rest| ==> m < rest[i];
      [m] + rest
  }

  /** Iterating a sorted set visits every element. */
  lemma {:induction false} AscendingCovers(s: set<NodeId>, x: NodeId)
    requires x in s
    ensures x in Ascending(s)
    decreases |s|
  {
    var m := First(s);
    assert Ascending(s) == [m] + Ascending(s - {m});
    if x != m {
      AscendingCovers(s - {m}, x);
    }
  }

  /** The nodes a sequence lists. */
  function Elements(s: seq<NodeId>): set<NodeId> {
    set m | m in s
  }

  /** The elements Ascending lists are exactly those of the set. */
  lemma AscendingElements(s: set<NodeId>)
    ensures Elements(Ascending(s)) == s
  {
    forall x | x in s ensures x in Ascending(s) { AscendingCovers(s, x); }
  }
}
