/**
  Which variables of an inference rule count as core when the rule fires. The
  strategy's rule-compilation hook settles the question once per rule for
  inclusions and disjunctions, and otherwise installs a worker that, each time
  the rule's body matches, marks every variable core except possibly the one
  bound to the shallowest tree node, when all the other bindings are roots,
  that node itself or its descendants.
 */
module CoreVariables {
  import opened Base

  /** What the worker reads of a head atom: its arity and whether it mentions the centre variable X. */
  datatype Atom = Atom(arity: nat, containsX: bool)

  /** What the hook reads of a DL clause: its kind and its head atoms. */
  datatype DLClause = DLClause(
    isConceptInclusion: bool,
    isRoleInclusion: bool,
    isRoleInverseInclusion: bool,
    head: seq<Atom>)

  /**
    What the worker reads of the node a variable is bound to, in the current
    tableau: whether it is a tree node, its tree depth, whether it is a root
    node, and isAncestorOf(ancestor, descendant).
   */
  datatype NodeFacts = NodeFacts(
    isTreeNode: NodeId -> bool,
    treeDepth: NodeId -> nat,
    isRootNode: NodeId -> bool,
    isAncestorOf: (NodeId, NodeId) -> bool)

  /** The hook's outcome: done, a worker installed, or the index fault of an empty variable array. */
  datatype Compiled = Settled | WorkerAdded | IndexOutOfBounds

  /** The outcome of a run of the worker: the next program counter, or the fault of a rule without a head atom. */
  datatype Step = Next(programCounter: int) | HeadAtomMissing

  // ---------------------------------------------------------------------------
  // dlClauseBodyCompiled

  predicate IsInclusion(c: DLClause) {
    c.isConceptInclusion || c.isRoleInclusion || c.isRoleInverseInclusion
  }

  /**
    The hook on values: an inclusion clears the first flag and stops (the loop
    returns in its first iteration); a disjunction (more than two head atoms)
    sets the first flag; every other rule gets a worker. An inclusion over no
    variable falls through to the later cases.
   */
  function BodyCompiled(c: DLClause, core: seq<bool>): (Compiled, seq<bool>) {
    if IsInclusion(c) && |core| > 0 then (Settled, core[0 := false])
    else if |c.head| > 2 then
      if |core| > 0 then (Settled, core[0 := true]) else (IndexOutOfBounds, core)
    else (WorkerAdded, core)
  }

  /**
    Only the first flag is ever written, and a worker is installed exactly for
    the rules with at most two head atoms that are not inclusions over some
    variable.
   */
  lemma BodyCompiledTouchesFirstOnly(c: DLClause, core: seq<bool>)
    ensures |BodyCompiled(c, core).1| == |core|
    ensures forall i :: 1 <= i < |core| ==> BodyCompiled(c, core).1[i] == core[i]
    ensures BodyCompiled(c, core).0 == WorkerAdded <==> |c.head| <= 2 && !(IsInclusion(c) && |core| > 0)
    ensures BodyCompiled(c, core).0 == WorkerAdded ==> BodyCompiled(c, core).1 == core
  {
  }

  /**
    An inclusion marks no variable core when the flags start out false, as a
    freshly allocated array's do; a flag already set beyond the first stays set.
   */
  lemma InclusionMarksNoneCore(c: DLClause, core: seq<bool>)
    requires IsInclusion(c)
    requires forall i :: 1 <= i < |core| ==> !core[i]
    ensures forall i :: 0 <= i < |core| ==> !BodyCompiled(c, core).1[i]
  {
  }

  /** A disjunctive rule over some variable makes its first (centre) variable core and installs no worker. */
  lemma DisjunctionMakesCentreCore(c: DLClause, core: seq<bool>)
    requires !IsInclusion(c) && |c.head| > 2 && |core| > 0
    ensures BodyCompiled(c, core) == (Settled, core[0 := true])
  {
  }

  /** dlClauseBodyCompiled; the returned outcome says whether the worker is added to the workers list. */
  method DlClauseBodyCompiled(c: DLClause, coreVariables: array<bool>) returns (outcome: Compiled)
    modifies coreVariables
    ensures (outcome, coreVariables[..]) == BodyCompiled(c, old(coreVariables[..]))
  {
    if IsInclusion(c) {
      var i := 0;
      if i < coreVariables.Length {
        coreVariables[i] := false;
        return Settled;
      }
    }
    if |c.head| > 2 {
      if coreVariables.Length == 0 {
        return IndexOutOfBounds;
      }
      coreVariables[0] := true;
      return Settled;
    }
    return WorkerAdded;
  }

  // ---------------------------------------------------------------------------
  // ComputeCoreVariables.execute

  /**
    The potential non-core variable among the indices from v on, as the
    worker's first loop finds it scanning downwards: a tree node replaces the
    one found so far only when strictly shallower.
   */
  function Shallowest(values: seq<NodeId>, nodes: NodeFacts, v: nat): (r: Option<nat>)
    requires v <= |values|
    ensures r.Some? ==> v <= r.value < |values| && nodes.isTreeNode(values[r.value])
    decreases |values| - v
  {
    if v == |values| then None
    else
      var b := Shallowest(values, nodes, v + 1);
      if nodes.isTreeNode(values[v]) && (b.None? || nodes.treeDepth(values[v]) < nodes.treeDepth(values[b.value]))
      then Some(v)
      else b
  }

  /**
    Shallowest finds no index exactly when no binding from v on is a tree
    node; the index it finds has the least depth among the tree nodes, and the
    greatest index among those of that depth.
   */
  lemma {:induction false} ShallowestIsLeast(values: seq<NodeId>, nodes: NodeFacts, v: nat)
    requires v <= |values|
    ensures Shallowest(values, nodes, v).None? <==> forall j :: v <= j < |values| ==> !nodes.isTreeNode(values[j])
    ensures Shallowest(values, nodes, v).Some? ==>
      var c := Shallowest(values, nodes, v).value;
      forall j :: v <= j < |values| && nodes.isTreeNode(values[j]) ==>
        && nodes.treeDepth(values[c]) <= nodes.treeDepth(values[j])
        && (c < j ==> nodes.treeDepth(values[c]) < nodes.treeDepth(values[j]))
    decreases |values| - v
  {
    if v < |values| {
      ShallowestIsLeast(values, nodes, v + 1);
    }
  }

  /** Whether every binding is a root node, the node at index c, or one of its descendants. */
  predicate Covers(values: seq<NodeId>, nodes: NodeFacts, c: nat)
    requires c < |values|
  {
    forall j :: 0 <= j < |values| ==>
      nodes.isRootNode(values[j]) || values[j] == values[c] || nodes.isAncestorOf(values[c], values[j])
  }

  /** Whether the head's first atom is unary and mentions X, the case the worker leaves alone. */
  predicate CentreConceptHead(c: DLClause)
    requires |c.head| > 0
  {
    c.head[0].arity == 1 && c.head[0].containsX
  }

  /** The flags after a run of the worker, for a rule with a head atom. */
  function CoreAfter(c: DLClause, values: seq<NodeId>, nodes: NodeFacts, core: seq<bool>): (r: seq<bool>)
    requires |c.head| > 0 && |values| == |core|
    ensures |r| == |core|
  {
    if CentreConceptHead(c) then core
    else
      var s := Shallowest(values, nodes, 0);
      seq(|core|, i => !(s == Some(i) && Covers(values, nodes, i)))
  }

  /**
    Unless the rule's head is a concept on X, every variable is core after the
    worker runs except at most one, and a non-core variable is one bound to a
    tree node of least depth (the last such in variable order) that every other
    binding is a root, equal to or a descendant of; when such a variable
    exists it is non-core.
   */
  lemma CoreAfterAtMostOneNoncore(c: DLClause, values: seq<NodeId>, nodes: NodeFacts, core: seq<bool>)
    requires |c.head| > 0 && |values| == |core| && !CentreConceptHead(c)
    ensures var r := CoreAfter(c, values, nodes, core);
      forall i :: 0 <= i < |r| && !r[i] ==>
        && nodes.isTreeNode(values[i])
        && (forall j :: 0 <= j < |values| && nodes.isTreeNode(values[j]) ==>
              nodes.treeDepth(values[i]) <= nodes.treeDepth(values[j]) &&
              (i < j ==> nodes.treeDepth(values[i]) < nodes.treeDepth(values[j])))
        && Covers(values, nodes, i)
        && (forall j :: 0 <= j < |r| && j != i ==> r[j])
    ensures var r := CoreAfter(c, values, nodes, core);
      forall i :: 0 <= i < |values| && Shallowest(values, nodes, 0) == Some(i) && Covers(values, nodes, i) ==> !r[i]
  {
    ShallowestIsLeast(values, nodes, 0);
  }

  /** With no binding to a tree node, every variable is core. */
  lemma NoTreeNodeAllCore(c: DLClause, values: seq<NodeId>, nodes: NodeFacts, core: seq<bool>)
    requires |c.head| > 0 && |values| == |core| && !CentreConceptHead(c)
    requires forall j :: 0 <= j < |values| ==> !nodes.isTreeNode(values[j])
    ensures forall i :: 0 <= i < |core| ==> CoreAfter(c, values, nodes, core)[i]
  {
    ShallowestIsLeast(values, nodes, 0);
  }

  /** The worker: the rule, the evaluator's buffer of variable bindings and the flags it computes. */
  class ComputeCoreVariables {
    const dlClause: DLClause
    const valuesBuffer: array<NodeId>
    const coreVariables: array<bool>

    constructor (dlClause: DLClause, valuesBuffer: array<NodeId>, coreVariables: array<bool>)
      ensures this.dlClause == dlClause && this.valuesBuffer == valuesBuffer && this.coreVariables == coreVariables
    {
      this.dlClause := dlClause;
      this.valuesBuffer := valuesBuffer;
      this.coreVariables := coreVariables;
    }

    /** execute: one flag per variable, recomputed from the current bindings. */
    method Execute(programCounter: int, nodes: NodeFacts) returns (next: Step)
      requires valuesBuffer.Length == coreVariables.Length
      modifies coreVariables
      ensures |dlClause.head| == 0 ==> next == HeadAtomMissing && coreVariables[..] == old(coreVariables[..])
      ensures |dlClause.head| > 0 ==>
        && next == Next(programCounter + 1)
        && coreVariables[..] == CoreAfter(dlClause, valuesBuffer[..], nodes, old(coreVariables[..]))
    {
      if |dlClause.head| == 0 {
        return HeadAtomMissing;
      }
      if !CentreConceptHead(dlClause) {
        var potentialNoncore, potentialNoncoreIndex := FindPotentialNoncore(nodes);
        if potentialNoncore.Some? {
          var isNoncore := IsNoncore(nodes, potentialNoncore.value);
          if isNoncore {
            coreVariables[potentialNoncoreIndex] := false;
          }
        }
        ghost var s := Shallowest(valuesBuffer[..], nodes, 0);
        assert forall i :: 0 <= i < coreVariables.Length ==>
          coreVariables[i] == !(s == Some(i) && Covers(valuesBuffer[..], nodes, i));
      }
      return Next(programCounter + 1);
    }

    /**
      The first loop: every flag is set, and the binding to the shallowest tree
      node (scanning downwards, the first found of least depth) is remembered
      with its index, or none with index -1.
     */
    method FindPotentialNoncore(nodes: NodeFacts) returns (potentialNoncore: Option<NodeId>, potentialNoncoreIndex: int)
      requires valuesBuffer.Length == coreVariables.Length
      modifies coreVariables
      ensures forall i :: 0 <= i < coreVariables.Length ==> coreVariables[i]
      ensures Shallowest(valuesBuffer[..], nodes, 0).None? ==> potentialNoncore.None? && potentialNoncoreIndex == -1
      ensures Shallowest(valuesBuffer[..], nodes, 0).Some? ==>
        && potentialNoncoreIndex == Shallowest(valuesBuffer[..], nodes, 0).value
        && potentialNoncoreIndex < valuesBuffer.Length
        && potentialNoncore == Some(valuesBuffer[potentialNoncoreIndex])
    {
      ghost var values := valuesBuffer[..];
      potentialNoncore, potentialNoncoreIndex := None, -1;
      var variableIndex := coreVariables.Length - 1;
      while variableIndex >= 0
        invariant -1 <= variableIndex < coreVariables.Length
        invariant valuesBuffer[..] == values
        invariant forall i :: variableIndex < i < coreVariables.Length ==> coreVariables[i]
        invariant Shallowest(values, nodes, variableIndex + 1).None? ==>
          potentialNoncore.None? && potentialNoncoreIndex == -1
        invariant Shallowest(values, nodes, variableIndex + 1).Some? ==>
          && potentialNoncoreIndex == Shallowest(values, nodes, variableIndex + 1).value
          && potentialNoncore == Some(values[potentialNoncoreIndex])
        decreases variableIndex
      {
        coreVariables[variableIndex] := true;
        var node := valuesBuffer[variableIndex];
        if nodes.isTreeNode(node) &&
           (potentialNoncore.None? || nodes.treeDepth(node) < nodes.treeDepth(potentialNoncore.value)) {
          potentialNoncore := Some(node);
          potentialNoncoreIndex := variableIndex;
        }
        variableIndex := variableIndex - 1;
      }
    }

    /** The second loop: every binding is a root node, the candidate itself or one of its descendants. */
    method IsNoncore(nodes: NodeFacts, potentialNoncore: NodeId) returns (isNoncore: bool)
      ensures isNoncore <==> forall j :: 0 <= j < valuesBuffer.Length ==>
        nodes.isRootNode(valuesBuffer[j]) || valuesBuffer[j] == potentialNoncore ||
        nodes.isAncestorOf(potentialNoncore, valuesBuffer[j])
    {
      isNoncore := true;
      var variableIndex := valuesBuffer.Length - 1;
      while isNoncore && variableIndex >= 0
        invariant -1 <= variableIndex < valuesBuffer.Length
        invariant isNoncore <==> forall j :: variableIndex < j < valuesBuffer.Length ==>
          nodes.isRootNode(valuesBuffer[j]) || valuesBuffer[j] == potentialNoncore ||
          nodes.isAncestorOf(potentialNoncore, valuesBuffer[j])
        decreases variableIndex + 1
      {
        var node := valuesBuffer[variableIndex];
        if !nodes.isRootNode(node) && potentialNoncore != node && !nodes.isAncestorOf(potentialNoncore, node) {
          isNoncore := false;
        }
        variableIndex := variableIndex - 1;
      }
    }
  }
}
