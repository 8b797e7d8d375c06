/** The sparse node layout (`LinkedNode`): a first-child reference plus a
    brother reference chaining the children of one parent in insertion order. */
module LinkedNodes {
  import Trees

  datatype LinkedNode = Nil | Node(letter: char, eow: bool, child: LinkedNode, brother: LinkedNode)

  function SetChild(n: LinkedNode, child: LinkedNode): LinkedNode
    requires n.Node?
  {
    n.(child := child)
  }

  function SetBrother(n: LinkedNode, brother: LinkedNode): LinkedNode
    requires n.Node?
  {
    n.(brother := brother)
  }

  function SetAsEOW(n: LinkedNode): LinkedNode
    requires n.Node?
  {
    n.(eow := true)
  }

  /** `equals`: same letter and flag, equal children (or both null) and equal
      brothers (or both null), so the whole following sibling chain is compared. */
  predicate Equals(x: LinkedNode, y: LinkedNode)
    requires x.Node? && y.Node?
    decreases x, 1
  {
    x.letter == y.letter && x.eow == y.eow &&
    LinkEqual(x.child, y.child) && LinkEqual(x.brother, y.brother)
  }

  /** `Objects.equals` on two references. */
  predicate LinkEqual(a: LinkedNode, b: LinkedNode)
    decreases a, 2
  {
    if a.Nil? || b.Nil? then a.Nil? && b.Nil? else Equals(a, b)
  }

  /** The sibling chain starting at `n`: `n`, its brother, its brother's brother, ... */
  function Chain(n: LinkedNode): seq<LinkedNode>
  {
    if n.Nil? then [] else [n] + Chain(n.brother)
  }

  /** `getLastBrother`: follow brother links until the brother is null. */
  function LastBrother(n: LinkedNode): LinkedNode
    requires n.Node?
  {
    if n.brother.Nil? then n else LastBrother(n.brother)
  }

  /** `newInstance`: a weak copy of the root, then `copy` recursively copies the
      child and the brother into it. */
  function NewInstance(n: LinkedNode): LinkedNode
    requires n.Node?
  {
    Copy(n, WeakCopy(n))
  }

  function WeakCopy(n: LinkedNode): LinkedNode
    requires n.Node?
  {
    Node(n.letter, n.eow, Nil, Nil)
  }

  /** `copy(node, copy)`: the result is `c` with its child and brother set to
      copies of `n`'s child and brother. */
  function Copy(n: LinkedNode, c: LinkedNode): LinkedNode
    requires n.Node? && c.Node?
  {
    var c1 := if n.child.Nil? then c else SetChild(c, Copy(n.child, WeakCopy(n.child)));
    if n.brother.Nil? then c1 else SetBrother(c1, Copy(n.brother, WeakCopy(n.brother)))
  }

  /** `numberOfNodesInSubtrie`: the node, everything below its child, and every
      following brother with everything below it. */
  function NumberOfNodesInSubtrie(n: LinkedNode): nat
    requires n.Node?
  {
    var childCount := if n.child.Nil? then 0 else NumberOfNodesInSubtrie(n.child);
    var brotherCount := if n.brother.Nil? then 0 else NumberOfNodesInSubtrie(n.brother);
    1 + childCount + brotherCount
  }

  /** The generic node value of a sparse node: links `[child, brother]`. */
  function ToTree(n: LinkedNode): Trees.Tree
  {
    match n
    case Nil => Trees.Nil
    case Node(l, e, c, b) => Trees.Node(l, e, [ToTree(c), ToTree(b)])
  }

  // ---------------------------------------------------------------------
  // Properties

  /** Node equality is exactly structural equality of the node values, child
      chain and brother chain included. */
  lemma {:induction false} EqualsIsStructural(x: LinkedNode, y: LinkedNode)
    requires x.Node? && y.Node?
    ensures Equals(x, y) <==> x == y
    decreases x
  {
    if x.child.Node? && y.child.Node? {
      EqualsIsStructural(x.child, y.child);
    }
    if x.brother.Node? && y.brother.Node? {
      EqualsIsStructural(x.brother, y.brother);
    }
  }

  /** Because the brother chain takes part in equality, two parents holding
      the same two children in different insertion order are unequal. */
  lemma ChildOrderMatters(letter: char, eow: bool, a: LinkedNode, b: LinkedNode)
    requires a.Node? && b.Node? && a.brother.Nil? && b.brother.Nil?
    requires a.letter != b.letter
    ensures !Equals(Node(letter, eow, SetBrother(a, b), Nil), Node(letter, eow, SetBrother(b, a), Nil))
  {
    EqualsIsStructural(Node(letter, eow, SetBrother(a, b), Nil), Node(letter, eow, SetBrother(b, a), Nil));
  }

  /** `setChild` and `setBrother` change exactly one field. */
  lemma SettersChangeOneField(n: LinkedNode, m: LinkedNode)
    requires n.Node?
    ensures var r := SetChild(n, m);
      r.child == m && r.letter == n.letter && r.eow == n.eow && r.brother == n.brother
    ensures var r := SetBrother(n, m);
      r.brother == m && r.letter == n.letter && r.eow == n.eow && r.child == n.child
  {
  }

  /** `setAsEOW` only ever raises the flag, is idempotent, and touches nothing else. */
  lemma SetAsEOWMonotone(n: LinkedNode)
    requires n.Node?
    ensures SetAsEOW(n).eow
    ensures SetAsEOW(SetAsEOW(n)) == SetAsEOW(n)
    ensures n.eow ==> SetAsEOW(n) == n
    ensures SetAsEOW(n).letter == n.letter && SetAsEOW(n).child == n.child && SetAsEOW(n).brother == n.brother
  {
  }

  /** `getLastBrother` returns the last node of the sibling chain, which has no
      brother, and returns the node itself exactly when it has no brother. */
  lemma {:induction false} LastBrotherEndsChain(n: LinkedNode)
    requires n.Node?
    ensures |Chain(n)| > 0 && LastBrother(n) == Chain(n)[|Chain(n)| - 1]
    ensures LastBrother(n).Node? && LastBrother(n).brother.Nil?
    ensures LastBrother(n) == n <==> n.brother.Nil?
  {
    if n.brother.Node? {
      LastBrotherEndsChain(n.brother);
      assert Chain(n)[|Chain(n)| - 1] == Chain(n.brother)[|Chain(n.brother)| - 1];
      ChainShrinks(n.brother);
      assert LastBrother(n) in Chain(n.brother);
    }
  }

  /** Nodes further along a chain count no more nodes than its head. */
  lemma {:induction false} ChainShrinks(n: LinkedNode)
    requires n.Node?
    ensures forall m :: m in Chain(n) ==> m.Node? && NumberOfNodesInSubtrie(m) <= NumberOfNodesInSubtrie(n)
  {
    if n.brother.Node? {
      ChainShrinks(n.brother);
    }
  }

  /** `copy` fills in the child and brother of a weak copy so that the result
      is the original node again. */
  lemma {:induction false} CopyRebuilds(n: LinkedNode)
    requires n.Node?
    ensures Copy(n, WeakCopy(n)) == n
  {
    if n.child.Node? {
      CopyRebuilds(n.child);
    }
    if n.brother.Node? {
      CopyRebuilds(n.brother);
    }
  }

  /** `newInstance` yields a deep copy equal to the original. */
  lemma NewInstanceIsCopy(n: LinkedNode)
    requires n.Node?
    ensures NewInstance(n) == n
    ensures Equals(NewInstance(n), n)
  {
    CopyRebuilds(n);
    EqualsIsStructural(NewInstance(n), n);
  }

  /** The node count of a sparse node is the size of its node value, i.e. it
      counts the node, its child chain and its following brothers. */
  lemma {:induction false} NumberOfNodesIsSize(n: LinkedNode)
    requires n.Node?
    ensures NumberOfNodesInSubtrie(n) == Trees.Size(ToTree(n))
    ensures NumberOfNodesInSubtrie(n) >= |Chain(n)|
  {
    var t := ToTree(n);
    assert Trees.SizeAll(t.links) == Trees.Size(ToTree(n.child)) + Trees.Size(ToTree(n.brother)) by {
      assert t.links[1..] == [ToTree(n.brother)];
      assert t.links[1..][1..] == [];
      assert Trees.SizeAll(t.links[1..]) == Trees.Size(ToTree(n.brother)) + Trees.SizeAll([]);
    }
    if n.child.Node? {
      NumberOfNodesIsSize(n.child);
    }
    if n.brother.Node? {
      NumberOfNodesIsSize(n.brother);
    }
  }

  /** Distinct sparse nodes have distinct node values. */
  lemma {:induction false} ToTreeInjective(x: LinkedNode, y: LinkedNode)
    ensures ToTree(x) == ToTree(y) ==> x == y
    decreases x
  {
    if ToTree(x) == ToTree(y) && x.Node? {
      assert ToTree(x).links[0] == ToTree(y).links[0];
      assert ToTree(x).links[1] == ToTree(y).links[1];
      ToTreeInjective(x.child, y.child);
      ToTreeInjective(x.brother, y.brother);
    }
  }
}
