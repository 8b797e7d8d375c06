/** `LinkedTrie.toDAWG` in both source trees.

    The alphabet-free trie hands a copy of itself to the sparse subtrie
    converter; the trie with an alphabet collects the same three arrays
    itself in one recursive pass (`getInfo`), sized by `countNodes`.  Both
    then run the optimizer and wrap the optimized copy in a `LinkedDAWG`. */
module LinkedToDawg {
  import opened Outcome
  import Trees
  import opened Arena
  import opened OptimizerBehaviour
  import opened Optimizer
  import opened SubtrieConverter
  import opened LinkedNodes
  import LinkedTrie
  import LinkedDawg
  import AlphabetLinkedTrie

  /** Every node value of a sparse node has the two links child and brother. */
  lemma {:induction false} LinkedIsBinary(n: LinkedNode)
    ensures BinaryTree(ToTree(n))
  {
    if n.Node? {
      LinkedIsBinary(n.child);
      LinkedIsBinary(n.brother);
    }
  }

  /** The common tail of both `toDAWG`s: optimize the arrays of the sparse
      trie rooted at `n` and wrap the result.  A `NullPointerException` of
      the sparse `changeRefs` is passed on. */
  method Optimize(size: int, n: LinkedNode, anc: seq<nat>, leafs: seq<nat>)
    returns (r: Result<LinkedDawg.LinkedDAWG>, ghost rank: seq<nat>)
    requires n.Node? && n.brother.Nil?
    requires anc == GetAncestorIndexes(Sparse, ToTree(n)) && leafs == GetLeafIndexes(Sparse, ToTree(n))
    ensures r.Ok? ==> LinkedDawg.Valid(r.value, rank) && LinkedDawg.AsTrie(r.value, rank) == LinkedTrie.LinkedTrie(size, n)
    ensures r.Ok? ==> |r.value.nodes| == NumberOfNodesInSubtrie(n)
  {
    var root := ToTree(n);
    LinkedIsBinary(n);
    ConvertedIsPrepared(Sparse, root);
    NodesDenoteSubtrees(Sparse, root);
    VisitAt(Sparse, root, 0, 0, 0);
    NumberOfNodesIsSize(n);
    rank := Heights(Sparse, root);
    var nodes := GetNodes(Sparse, root);
    var res := EliminateDuplicates(Sparse, nodes, rank, anc, leafs);
    if res.Err? {
      return Err(res.error), rank;
    }
    var d := LinkedDawg.LinkedDAWG(size, res.value);
    LinkedDawg.UnfoldLinkedIsUnfold(d.nodes, rank, 0);
    ToTreeInjective(LinkedDawg.UnfoldLinked(d.nodes, rank, Ptr(0)), n);
    r := Ok(d);
  }

  /** Trie-master `LinkedTrie.toDAWG`.  When the optimizer succeeds, the DAWG
      stands for the trie and answers every query as it does. */
  method ToDAWG(t: LinkedTrie.LinkedTrie) returns (r: Result<LinkedDawg.LinkedDAWG>, ghost rank: seq<nat>)
    requires LinkedTrie.Valid(t)
    ensures r.Ok? ==> r.value.size == t.size && |r.value.nodes| == NumberOfNodesInSubtrie(t.root)
    ensures r.Ok? ==> LinkedDawg.Valid(r.value, rank) && LinkedDawg.AsTrie(r.value, rank) == t
    ensures r.Ok? ==> forall w :: LinkedDawg.Contains(r.value, rank, w) == LinkedTrie.Contains(t, w) &&
                                  LinkedDawg.IsPrefix(r.value, rank, w) == LinkedTrie.IsPrefix(t, w)
  {
    var copy := LinkedTrie.Copy(t);
    LinkedTrie.CopyEquals(t, t);
    var root := ToTree(copy.root);
    r, rank := Optimize(copy.size, copy.root, GetAncestorIndexes(Sparse, root), GetLeafIndexes(Sparse, root));
    if r.Ok? {
      forall w
        ensures LinkedDawg.Contains(r.value, rank, w) == LinkedTrie.Contains(t, w)
        ensures LinkedDawg.IsPrefix(r.value, rank, w) == LinkedTrie.IsPrefix(t, w)
      {
        LinkedDawg.QueriesAgree(r.value, rank, w);
      }
    }
  }

  // ---------------------------------------------------------------------
  // `getInfo` of the trie with an alphabet

  /** The three arrays `getInfo` fills, as far as they are filled. */
  datatype Info = Info(nodes: seq<LinkedNode>, ancestors: seq<nat>, leafs: seq<nat>)

  /** `getInfo(nodes, ancestors, leafs, current, anc)`: `current` takes the
      next index and records `anc`; a node without child is a leaf; the child
      records `current`'s index as its ancestor, the brother records `anc`. */
  function GetInfo(n: LinkedNode, anc: nat, acc: Info): Info
    requires n.Node?
    decreases n
  {
    var idx := |acc.nodes|;
    var acc1 := Info(acc.nodes + [n], acc.ancestors + [anc], if n.child.Nil? then acc.leafs + [idx] else acc.leafs);
    var acc2 := if n.child.Node? then GetInfo(n.child, idx, acc1) else acc1;
    if n.brother.Node? then GetInfo(n.brother, anc, acc2) else acc2
  }

  /** The indexes of the leaves of a walk whose first node has index `pos`. */
  function LeafPositions(w: seq<Visit>, pos: nat): seq<nat>
    decreases |w|
  {
    if w == [] then []
    else (if IsLeaf(Sparse, w[0].value) then [pos] else []) + LeafPositions(w[1..], pos + 1)
  }

  lemma {:induction false} LeafPositionsAppend(x: seq<Visit>, y: seq<Visit>, pos: nat)
    ensures LeafPositions(x + y, pos) == LeafPositions(x, pos) + LeafPositions(y, pos + |x|)
    decreases |x|
  {
    if x != [] {
      assert (x + y)[1..] == x[1..] + y;
      LeafPositionsAppend(x[1..], y, pos + 1);
    } else {
      assert x + y == y;
    }
  }

  lemma {:induction false} LeafsFromIsPositions(w: seq<Visit>, k: nat)
    requires k <= |w|
    ensures LeafsFrom(Sparse, w, k) == LeafPositions(w[k..], k)
    decreases |w| - k
  {
    if k < |w| {
      LeafsFromIsPositions(w, k + 1);
      assert w[k..][1..] == w[k + 1..];
    }
  }

  /** The walk of a sparse node: the node, then its child's walk, then its
      brother's walk. */
  lemma WalkOfLinked(n: LinkedNode, pos: nat, anc: nat)
    requires n.Node?
    ensures var t := ToTree(n);
            Walk(Sparse, t, pos, anc) ==
              [Visit(t, anc, RecAt(t, pos))] +
              Walk(Sparse, ToTree(n.child), pos + 1, pos) +
              Walk(Sparse, ToTree(n.brother), pos + 1 + Trees.Size(ToTree(n.child)), anc)
  {
    var t := ToTree(n);
    var c, b := ToTree(n.child), ToTree(n.brother);
    assert WalkLinks(Sparse, t.links, 2, pos + 1 + Trees.Size(c) + Trees.Size(b), pos, anc) == [];
    assert WalkLinks(Sparse, t.links, 1, pos + 1 + Trees.Size(c), pos, anc) == Walk(Sparse, b, pos + 1 + Trees.Size(c), anc);
  }

  /** `rs` extends `xs` by one node per visit of `w`, each standing for the
      visit's value. */
  predicate NodesAppended(xs: seq<LinkedNode>, rs: seq<LinkedNode>, w: seq<Visit>)
  {
    |rs| == |xs| + |w| && rs[..|xs|] == xs &&
    forall k :: |xs| <= k < |rs| ==> ToTree(rs[k]) == w[k - |xs|].value
  }

  /** `r` extends `acc` by what the walk `w` records, `w` starting at the
      first free index of `acc`. */
  predicate Appended(acc: Info, r: Info, w: seq<Visit>)
  {
    NodesAppended(acc.nodes, r.nodes, w) &&
    r.ancestors == acc.ancestors + WalkAncestors(w) &&
    r.leafs == acc.leafs + LeafPositions(w, |acc.nodes|)
  }

  lemma NodesAppendedTrans(xs: seq<LinkedNode>, ys: seq<LinkedNode>, zs: seq<LinkedNode>, x: seq<Visit>, y: seq<Visit>)
    requires NodesAppended(xs, ys, x) && NodesAppended(ys, zs, y)
    ensures NodesAppended(xs, zs, x + y)
  {
    assert zs[..|xs|] == zs[..|ys|][..|xs|];
    forall k | |xs| <= k < |zs|
      ensures ToTree(zs[k]) == (x + y)[k - |xs|].value
    {
      if k < |ys| {
        assert zs[k] == zs[..|ys|][k];
      } else {
        assert (x + y)[k - |xs|] == y[k - |ys|];
      }
    }
  }

  lemma AppendedTrans(acc: Info, acc1: Info, acc2: Info, x: seq<Visit>, y: seq<Visit>)
    requires Appended(acc, acc1, x) && Appended(acc1, acc2, y)
    ensures Appended(acc, acc2, x + y)
  {
    NodesAppendedTrans(acc.nodes, acc1.nodes, acc2.nodes, x, y);
    LeafPositionsAppend(x, y, |acc.nodes|);
    assert WalkAncestors(x + y) == WalkAncestors(x) + WalkAncestors(y);
  }

  /** An empty walk appends nothing. */
  lemma AppendedNothing(acc: Info)
    ensures Appended(acc, acc, [])
  {
    assert acc.nodes[..|acc.nodes|] == acc.nodes;
  }

  /** The first step of `getInfo` records `n` itself. */
  lemma GetInfoHead(n: LinkedNode, anc: nat, acc: Info)
    requires n.Node?
    ensures var pos := |acc.nodes|;
            var t := ToTree(n);
            Appended(acc, Info(acc.nodes + [n], acc.ancestors + [anc], if n.child.Nil? then acc.leafs + [pos] else acc.leafs),
                     [Visit(t, anc, RecAt(t, pos))])
  {
    var pos := |acc.nodes|;
    var t := ToTree(n);
    var head := [Visit(t, anc, RecAt(t, pos))];
    assert t.links[0] == ToTree(n.child);
    assert ToTree(n.child).Nil? <==> n.child.Nil?;
    assert IsLeaf(Sparse, t) <==> n.child.Nil?;
    assert LeafPositions(head, pos) == if n.child.Nil? then [pos] else [];
    assert (acc.nodes + [n])[..pos] == acc.nodes;
  }

  /** `getInfo` appends exactly what the sparse converter's walk records:
      the node objects of the walk in pre-order, their ancestor indexes and
      their leaf indexes. */
  lemma {:induction false} GetInfoIsWalk(n: LinkedNode, anc: nat, acc: Info)
    requires n.Node?
    ensures Appended(acc, GetInfo(n, anc, acc), Walk(Sparse, ToTree(n), |acc.nodes|, anc))
    decreases n
  {
    var pos := |acc.nodes|;
    var t := ToTree(n);
    var wc := Walk(Sparse, ToTree(n.child), pos + 1, pos);
    WalkLength(Sparse, ToTree(n.child), pos + 1, pos);
    var wb := Walk(Sparse, ToTree(n.brother), pos + 1 + |wc|, anc);
    WalkOfLinked(n, pos, anc);
    var head := [Visit(t, anc, RecAt(t, pos))];
    var acc1 := Info(acc.nodes + [n], acc.ancestors + [anc], if n.child.Nil? then acc.leafs + [pos] else acc.leafs);
    GetInfoHead(n, anc, acc);
    var acc2 := if n.child.Node? then GetInfo(n.child, pos, acc1) else acc1;
    if n.child.Node? {
      GetInfoIsWalk(n.child, pos, acc1);
    } else {
      AppendedNothing(acc1);
    }
    AppendedTrans(acc, acc1, acc2, head, wc);
    var r := GetInfo(n, anc, acc);
    if n.brother.Node? {
      GetInfoIsWalk(n.brother, anc, acc2);
    } else {
      AppendedNothing(acc2);
    }
    AppendedTrans(acc, acc2, r, head + wc, wb);
  }

  /** From the root with empty arrays, `getInfo` fills the arrays
      `countNodes` sized with the converter's ancestor and leaf indexes. */
  lemma GetInfoOfRoot(n: LinkedNode)
    requires n.Node?
    ensures var r := GetInfo(n, 0, Info([], [], []));
            |r.nodes| == |r.ancestors| == NumberOfNodesInSubtrie(n) &&
            r.ancestors == GetAncestorIndexes(Sparse, ToTree(n)) &&
            r.leafs == GetLeafIndexes(Sparse, ToTree(n))
  {
    var w := Walk(Sparse, ToTree(n), 0, 0);
    GetInfoIsWalk(n, 0, Info([], [], []));
    WalkLength(Sparse, ToTree(n), 0, 0);
    NumberOfNodesIsSize(n);
    LeafsFromIsPositions(w, 0);
    assert w[0..] == w;
  }

  /** `toDAWG` of the trie with an alphabet (the static `toDAWG(trie)` on
      a copy): `getInfo` from the root with ancestor 0, then the optimizer.
      When it succeeds, the DAWG stands for the trie's words and answers
      `contains` as the trie does. */
  method AlphabetToDAWG(t: AlphabetLinkedTrie.Trie) returns (r: Result<LinkedDawg.LinkedDAWG>, ghost rank: seq<nat>)
    requires AlphabetLinkedTrie.Valid(t)
    ensures r.Ok? ==> r.value.size == t.size && |r.value.nodes| == NumberOfNodesInSubtrie(t.root)
    ensures r.Ok? ==> LinkedDawg.Valid(r.value, rank) &&
                      LinkedDawg.AsTrie(r.value, rank) == LinkedTrie.LinkedTrie(t.size, t.root)
    ensures r.Ok? ==> forall w :: LinkedDawg.Contains(r.value, rank, w) == AlphabetLinkedTrie.Contains(t, w)
  {
    var copy := AlphabetLinkedTrie.Copy(t);
    AlphabetLinkedTrie.CopyEquals(t, t);
    var info := GetInfo(copy.root, 0, Info([], [], []));
    GetInfoOfRoot(copy.root);
    r, rank := Optimize(copy.size, copy.root, info.ancestors, info.leafs);
    if r.Ok? {
      forall w
        ensures LinkedDawg.Contains(r.value, rank, w) == AlphabetLinkedTrie.Contains(t, w)
      {
        LinkedDawg.QueriesAgree(r.value, rank, w);
      }
    }
  }
}
