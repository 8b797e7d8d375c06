/** The dense DAWG (`ArrayDAWG`) and `ArrayTrie.toDAWG`.

    `toDAWG` copies the trie, flattens the copy's nodes, runs the optimizer
    over them and wraps the copy, whose equal subtries now share one node
    object.  The DAWG is modelled as that node graph (`Arena` records whose
    links are the alphabet slots) with the root at position 0, together with
    the size and the alphabet.  `contains` delegates to the trie's own
    search, which here runs over the graph. */
module ArrayDawg {
  import opened Outcome
  import opened Trees
  import opened Arena
  import opened OptimizerBehaviour
  import opened Optimizer
  import opened SubtrieConverter
  import opened Alphabets
  import ArrayTrie

  datatype ArrayDAWG = ArrayDAWG(size: int, alphabet: seq<char>, nodes: seq<Rec>)

  /** The graph has a root and no cycle. */
  ghost predicate Valid(d: ArrayDAWG, rank: seq<nat>)
  {
    0 < |d.nodes| && Ranked(d.nodes, rank)
  }

  /** The trie the DAWG stands for. */
  ghost function AsTrie(d: ArrayDAWG, rank: seq<nat>): ArrayTrie.ArrayTrie
    requires Valid(d, rank)
  {
    ArrayTrie.ArrayTrie(d.size, Unfold(d.nodes, rank, 0), d.alphabet)
  }

  /** The trie's `searchNode` over slot positions, run on the graph from
      position `h`.  A slot past the end of a node is the
      `ArrayIndexOutOfBoundsException` of the trie's search. */
  function SearchSlots(a: seq<Rec>, ghost rank: seq<nat>, h: nat, pos: seq<nat>): (r: Result<Ref>)
    requires Ranked(a, rank) && h < |a|
    ensures r.Ok? && r.value.Ptr? ==> r.value.h < |a|
    decreases |pos|
  {
    if pos == [] then Ok(Ptr(h))
    else if pos[0] >= |a[h].links| then Err(IndexOutOfBounds)
    else
      var next := a[h].links[pos[0]];
      if next.Null? then Ok(Null) else SearchSlots(a, rank, next.h, pos[1..])
  }

  /** `contains`: the word's slots by binary search over the alphabet, then
      the walk from the root. */
  function Contains(d: ArrayDAWG, ghost rank: seq<nat>, w: string): Result<bool>
    requires Valid(d, rank)
  {
    var pos :- ArrayTrie.InspectWord(d.alphabet, w);
    var last :- SearchSlots(d.nodes, rank, 0, pos);
    Ok(last.Ptr? && d.nodes[last.h].eow)
  }

  function Size(d: ArrayDAWG): int
  {
    d.size
  }

  /** The tree value a search outcome denotes. */
  ghost function UnfoldOutcome(a: seq<Rec>, rank: seq<nat>, r: Result<Ref>): Result<Tree>
    requires Ranked(a, rank) && (r.Ok? && r.value.Ptr? ==> r.value.h < |a|)
  {
    match r
    case Err(e) => Err(e)
    case Ok(ref) => Ok(UnfoldRef(a, rank, ref))
  }

  // ---------------------------------------------------------------------
  // Properties

  /** Searching the graph finds what the trie's search finds in the unfolded
      node, the error case included. */
  lemma {:induction false} SearchSlotsAgrees(a: seq<Rec>, rank: seq<nat>, h: nat, pos: seq<nat>)
    requires Ranked(a, rank) && h < |a|
    ensures UnfoldOutcome(a, rank, SearchSlots(a, rank, h, pos)) == ArrayTrie.SearchNode(Unfold(a, rank, h), pos)
    decreases |pos|
  {
    var u := Unfold(a, rank, h);
    if pos != [] && pos[0] < |a[h].links| {
      assert u.links[pos[0]] == UnfoldLink(a, rank, h, pos[0]);
      var next := a[h].links[pos[0]];
      if next.Ptr? {
        SearchSlotsAgrees(a, rank, next.h, pos[1..]);
      }
    }
  }

  /** The DAWG answers `contains` as the trie it stands for. */
  lemma ContainsAgrees(d: ArrayDAWG, rank: seq<nat>, w: string)
    requires Valid(d, rank)
    ensures Contains(d, rank, w) == ArrayTrie.Contains(AsTrie(d, rank), w)
    ensures Size(d) == ArrayTrie.Size(AsTrie(d, rank))
  {
    match ArrayTrie.InspectWord(d.alphabet, w)
    case Err(_) =>
    case Ok(pos) =>
      SearchSlotsAgrees(d.nodes, rank, 0, pos);
  }

  /** Slots chosen by binary search over the alphabet hold distinct letters:
      the trie invariant gives the optimizer the siblings it needs. */
  lemma {:induction false} SlotsDistinct(n: Tree, alphabet: seq<char>)
    requires ArrayTrie.SlotsMatch(n, alphabet)
    ensures DistinctSiblings(n)
    decreases n
  {
    if n.Node? {
      forall i | 0 <= i < |n.links|
        ensures DistinctSiblings(n.links[i])
      {
        SlotsDistinct(n.links[i], alphabet);
      }
    }
  }

  /** `ArrayTrie.toDAWG`: the copy's nodes, ancestor indexes and leaf
      indexes go through the optimizer, which cannot fail on dense nodes.
      The result stands for the very trie it was made from. */
  method ToDAWG(t: ArrayTrie.ArrayTrie) returns (d: ArrayDAWG, ghost rank: seq<nat>)
    requires ArrayTrie.Valid(t)
    ensures Valid(d, rank) && AsTrie(d, rank) == t
    ensures |d.nodes| == Trees.Size(t.root)
    ensures forall w :: Contains(d, rank, w) == ArrayTrie.Contains(t, w)
  {
    var copy := ArrayTrie.Copy(t);
    ArrayTrie.CopyEquals(t, t);
    var root := copy.root;
    SlotsDistinct(root, copy.alphabet);
    ConvertedIsPrepared(Dense, root);
    NodesDenoteSubtrees(Dense, root);
    VisitAt(Dense, root, 0, 0, 0);
    rank := Heights(Dense, root);
    var nodes := GetNodes(Dense, root);
    var res := EliminateDuplicates(Dense, nodes, rank, GetAncestorIndexes(Dense, root), GetLeafIndexes(Dense, root));
    d := ArrayDAWG(copy.size, copy.alphabet, res.value);
    assert Unfold(d.nodes, rank, 0) == Unfold(nodes, rank, 0);
    forall w
      ensures Contains(d, rank, w) == ArrayTrie.Contains(t, w)
    {
      ContainsAgrees(d, rank, w);
    }
  }
}
