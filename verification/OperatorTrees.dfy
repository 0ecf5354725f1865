/** The shape of the trees the operators build. */
module OperatorTrees {
  import opened Wrappers
  import opened BehaviorTree
  import opened Flattening

  // ---------------------------------------------------------------- one node per chain

  predicate IsChainOf(k: ControlKind, e: Expr) {
    (k == Sequence(false) && (e.Then? || e.And?)) || (k == Fallback(false) && e.Or?)
  }

  /** What a chain of one operator kind joins, left to right, however it is bracketed. */
  function Operands(k: ControlKind, e: Expr): seq<Expr> {
    if IsChainOf(k, e) then Operands(k, e.left) + Operands(k, e.right) else [e]
  }

  function FlatAll(es: seq<Expr>): (r: seq<Tree>)
    ensures |r| == |es| && forall i | 0 <= i < |es| :: r[i] == Flat(es[i])
  {
    seq(|es|, i requires 0 <= i < |es| => Flat(es[i]))
  }

  /** No atom is itself a node the operators built. */
  ghost predicate AtomsPlain(e: Expr) {
    match e
    case Atom(t) => t.Control? ==> HasMemory(t.control) ==> t.control.explicit
    case Then(l, r) => AtomsPlain(l) && AtomsPlain(r)
    case And(l, r) => AtomsPlain(l) && AtomsPlain(r)
    case Or(l, r) => AtomsPlain(l) && AtomsPlain(r)
    case Guard(l, r) => AtomsPlain(l) && AtomsPlain(r)
    case Wrap(_, i) => AtomsPlain(i)
  }

  lemma {:induction false} ChildrenOfChain(k: ControlKind, e: Expr)
    requires k == Sequence(false) || k == Fallback(false)
    requires AtomsPlain(e)
    ensures FlattenChildren(k, Flat(e)) == FlatAll(Operands(k, e))
    ensures forall i | 0 <= i < |Operands(k, e)| :: !IsChainOf(k, Operands(k, e)[i]) && AtomsPlain(Operands(k, e)[i])
    decreases e
  {
    hide Flat, FlattenChildren;
    if IsChainOf(k, e) {
      ChainJoins(k, e);
      ChildrenOfChain(k, e.left);
      ChildrenOfChain(k, e.right);
      assert FlatAll(Operands(k, e)) == FlatAll(Operands(k, e.left)) + FlatAll(Operands(k, e.right));
    } else {
      NotOfKind(k, e);
      assert FlatAll([e]) == [Flat(e)];
    }
  }

  lemma ChainJoins(k: ControlKind, e: Expr)
    requires IsChainOf(k, e)
    ensures Flat(e) == Control(k, IDLE, 0, FlattenChildren(k, Flat(e.left)) + FlattenChildren(k, Flat(e.right)))
    ensures FlattenChildren(k, Flat(e)) == FlattenChildren(k, Flat(e.left)) + FlattenChildren(k, Flat(e.right))
  {
  }

  lemma NotOfKind(k: ControlKind, e: Expr)
    requires k == Sequence(false) || k == Fallback(false)
    requires AtomsPlain(e) && !IsChainOf(k, e)
    ensures !(Flat(e).Control? && Flat(e).control == k) && FlattenChildren(k, Flat(e)) == [Flat(e)]
  {
  }

  /**
    A chain of `>>` and `&`, however bracketed, becomes one Sequence over its operands in order, a
    chain of `|` one Fallback; no operand is itself such a node. The other operators build one node.
  */
  lemma FlatIsFlat(e: Expr)
    requires AtomsPlain(e)
    ensures forall k | IsChainOf(k, e) ::
              && Flat(e) == Control(k, IDLE, 0, FlatAll(Operands(k, e)))
              && forall i | 0 <= i < |Operands(k, e)| ::
                   !(FlatAll(Operands(k, e))[i].Control? && FlatAll(Operands(k, e))[i].control == k)
    ensures e.Guard? ==> Flat(e) == Control(Premise, IDLE, 0, [Flat(e.left), Flat(e.right)])
    ensures e.Wrap? ==> Flat(e) == Decorator(e.decorator, IDLE, 0, None, false, Flat(e.inner))
    ensures e.Atom? ==> Flat(e) == e.tree
  {
    forall k | IsChainOf(k, e)
      ensures Flat(e) == Control(k, IDLE, 0, FlatAll(Operands(k, e)))
      ensures forall i | 0 <= i < |Operands(k, e)| ::
                !(FlatAll(Operands(k, e))[i].Control? && FlatAll(Operands(k, e))[i].control == k)
    {
      ChildrenOfChain(k, e);
      ChainJoins(k, e);
      forall i | 0 <= i < |Operands(k, e)|
        ensures !(FlatAll(Operands(k, e))[i].Control? && FlatAll(Operands(k, e))[i].control == k)
      {
        NotOfKind(k, Operands(k, e)[i]);
      }
    }
  }

  // ---------------------------------------------------------------- reading order

  /** The leaves of a tree from left to right. */
  function LeafOrder(t: Tree): seq<nat>
    decreases t
  {
    match t
    case Leaf(id, _, _) => [id]
    case Control(_, _, _, cs) => LeafOrderOf(cs)
    case Decorator(_, _, _, _, _, c) => LeafOrder(c)
  }

  function LeafOrderOf(cs: seq<Tree>): seq<nat>
    decreases cs
  {
    if cs == [] then [] else LeafOrder(cs[0]) + LeafOrderOf(cs[1..])
  }

  lemma {:induction false} LeafOrderConcat(a: seq<Tree>, b: seq<Tree>)
    ensures LeafOrderOf(a + b) == LeafOrderOf(a) + LeafOrderOf(b)
    decreases a
  {
    if a == [] {
      assert a + b == b;
    } else {
      assert (a + b)[1..] == a[1..] + b;
      LeafOrderConcat(a[1..], b);
    }
  }

  lemma LeafOrderPair(a: Tree, b: Tree)
    ensures LeafOrderOf([a, b]) == LeafOrder(a) + LeafOrder(b)
  {
    LeafOrderConcat([a], [b]);
    LeafOrderOne(a);
    LeafOrderOne(b);
    assert [a] + [b] == [a, b];
  }

  lemma LeafOrderOne(t: Tree)
    ensures LeafOrderOf([t]) == LeafOrder(t)
  {
    assert LeafOrderOf([t]) == LeafOrder(t) + LeafOrderOf([t][1..]);
    assert LeafOrderOf([]) == [];
  }

  lemma LeafOrderFlattened(k: ControlKind, t: Tree)
    ensures LeafOrderOf(FlattenChildren(k, t)) == LeafOrder(t)
  {
    if t.Control? && t.control == k {
      assert LeafOrder(t) == LeafOrderOf(t.children);
    } else {
      LeafOrderOne(t);
    }
  }

  /** The leaves of the expression as written. */
  function Written(e: Expr): seq<nat> {
    match e
    case Atom(t) => LeafOrder(t)
    case Then(l, r) => Written(l) + Written(r)
    case And(l, r) => Written(l) + Written(r)
    case Or(l, r) => Written(l) + Written(r)
    case Guard(l, r) => Written(l) + Written(r)
    case Wrap(_, i) => Written(i)
  }

  lemma JoinedOrder(k: ControlKind, l: Tree, r: Tree)
    ensures LeafOrder(Joined(k, l, r)) == LeafOrder(l) + LeafOrder(r)
  {
    LeafOrderConcat(FlattenChildren(k, l), FlattenChildren(k, r));
    LeafOrderFlattened(k, l);
    LeafOrderFlattened(k, r);
  }

  /** Flattened or not, the tree has its leaves in the order in which they are written. */
  lemma {:induction false} LeavesAsWritten(e: Expr)
    ensures LeafOrder(Flat(e)) == Written(e) == LeafOrder(Nested(e))
  {
    match e
    case Atom(_) =>
    case Then(l, r) =>
      LeavesAsWritten(l);
      LeavesAsWritten(r);
      JoinedOrder(Sequence(false), Flat(l), Flat(r));
      LeafOrderPair(Nested(l), Nested(r));
    case And(l, r) =>
      LeavesAsWritten(l);
      LeavesAsWritten(r);
      JoinedOrder(Sequence(false), Flat(l), Flat(r));
      LeafOrderPair(Nested(l), Nested(r));
    case Or(l, r) =>
      LeavesAsWritten(l);
      LeavesAsWritten(r);
      JoinedOrder(Fallback(false), Flat(l), Flat(r));
      LeafOrderPair(Nested(l), Nested(r));
    case Guard(l, r) =>
      LeavesAsWritten(l);
      LeavesAsWritten(r);
      LeafOrderPair(Flat(l), Flat(r));
      LeafOrderPair(Nested(l), Nested(r));
    case Wrap(_, i) => LeavesAsWritten(i);
  }
}
