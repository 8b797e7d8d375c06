/** The sparse DAWG (`LinkedDAWG`) and its serialization
    (`LinkedDAWGSerializationHelper`).

    A DAWG wraps the optimized sparse trie, whose nodes are now shared.  It
    is modelled as the node graph (`Arena` records with links
    `[child, brother]`) with the root at position 0.  Its queries run the
    trie's search over the graph; what they answer is what the trie's
    search answers on the unfolded root (`QueriesAgree`). */
module LinkedDawg {
  import opened Outcome
  import Trees
  import opened Arena
  import opened OptimizerBehaviour
  import opened LinkedNodes
  import LinkedTrie

  datatype LinkedDAWG = LinkedDAWG(size: int, nodes: seq<Rec>)

  /** `new LinkedDAWG()`: the DAWG of an empty trie. */
  function Empty(): LinkedDAWG
  {
    LinkedDAWG(0, [Rec(LinkedTrie.RootLetter, false, [Null, Null])])
  }

  /** The graph has a root, two links per record and no cycle. */
  ghost predicate Valid(d: LinkedDAWG, rank: seq<nat>)
  {
    0 < |d.nodes| && Ranked(d.nodes, rank) && Binary(d.nodes)
  }

  /** The sparse node value reached through `r`. */
  ghost function UnfoldLinked(a: seq<Rec>, rank: seq<nat>, r: Ref): LinkedNode
    requires Ranked(a, rank) && Binary(a) && (r.Ptr? ==> r.h < |a|)
    decreases if r.Null? then 0 else rank[r.h] + 1
  {
    if r.Null? then Nil
    else Node(a[r.h].letter, a[r.h].eow, UnfoldLinked(a, rank, a[r.h].links[0]), UnfoldLinked(a, rank, a[r.h].links[1]))
  }

  /** The trie the DAWG stands for. */
  ghost function AsTrie(d: LinkedDAWG, rank: seq<nat>): LinkedTrie.LinkedTrie
    requires Valid(d, rank)
  {
    LinkedTrie.LinkedTrie(d.size, UnfoldLinked(d.nodes, rank, Ptr(0)))
  }

  /** `listScan` over the graph: the first node of the brother chain from
      `r` with the given letter. */
  function ListScanAt(a: seq<Rec>, ghost rank: seq<nat>, r: Ref, letter: char): (res: Ref)
    requires Ranked(a, rank) && Binary(a) && (r.Ptr? ==> r.h < |a|)
    ensures res.Ptr? ==> res.h < |a| && a[res.h].letter == letter
    decreases if r.Null? then 0 else rank[r.h] + 1
  {
    if r.Null? then Null
    else if a[r.h].letter == letter then r
    else ListScanAt(a, rank, a[r.h].links[1], letter)
  }

  /** `searchNodeBySequence` over the graph from position `h`. */
  function SearchAt(a: seq<Rec>, ghost rank: seq<nat>, h: nat, w: string): (res: Ref)
    requires Ranked(a, rank) && Binary(a) && h < |a|
    ensures res.Ptr? ==> res.h < |a|
    decreases |w|
  {
    if w == [] then Ptr(h)
    else if a[h].links[0].Null? then Null
    else
      var next := ListScanAt(a, rank, a[h].links[0], w[0]);
      if next.Null? then Null else SearchAt(a, rank, next.h, w[1..])
  }

  predicate Contains(d: LinkedDAWG, ghost rank: seq<nat>, w: string)
    requires Valid(d, rank)
  {
    var last := SearchAt(d.nodes, rank, 0, w);
    last.Ptr? && d.nodes[last.h].eow
  }

  predicate IsPrefix(d: LinkedDAWG, ghost rank: seq<nat>, w: string)
    requires Valid(d, rank)
  {
    SearchAt(d.nodes, rank, 0, w).Ptr?
  }

  function Size(d: LinkedDAWG): int
  {
    d.size
  }

  // ---------------------------------------------------------------------
  // The graph and its unfolding

  /** A sparse record's two links unfold to the child and brother of its value. */
  lemma {:induction false} UnfoldLinkedIsUnfold(a: seq<Rec>, rank: seq<nat>, h: nat)
    requires Ranked(a, rank) && Binary(a) && h < |a|
    ensures ToTree(UnfoldLinked(a, rank, Ptr(h))) == Unfold(a, rank, h)
    decreases rank[h]
  {
    var u := Unfold(a, rank, h);
    assert u.links[0] == UnfoldLink(a, rank, h, 0);
    assert u.links[1] == UnfoldLink(a, rank, h, 1);
    if a[h].links[0].Ptr? {
      UnfoldLinkedIsUnfold(a, rank, a[h].links[0].h);
    }
    if a[h].links[1].Ptr? {
      UnfoldLinkedIsUnfold(a, rank, a[h].links[1].h);
    }
  }

  lemma {:induction false} ListScanAgrees(a: seq<Rec>, rank: seq<nat>, r: Ref, letter: char)
    requires Ranked(a, rank) && Binary(a) && (r.Ptr? ==> r.h < |a|)
    ensures UnfoldLinked(a, rank, ListScanAt(a, rank, r, letter)) ==
            LinkedTrie.ListScan(UnfoldLinked(a, rank, r), letter)
    decreases if r.Null? then 0 else rank[r.h] + 1
  {
    if r.Ptr? && a[r.h].letter != letter {
      ListScanAgrees(a, rank, a[r.h].links[1], letter);
    }
  }

  lemma {:induction false} SearchAgrees(a: seq<Rec>, rank: seq<nat>, h: nat, w: string)
    requires Ranked(a, rank) && Binary(a) && h < |a|
    ensures UnfoldLinked(a, rank, SearchAt(a, rank, h, w)) ==
            LinkedTrie.Search(UnfoldLinked(a, rank, Ptr(h)), w)
    decreases |w|
  {
    if w != [] && a[h].links[0].Ptr? {
      ListScanAgrees(a, rank, a[h].links[0], w[0]);
      var next := ListScanAt(a, rank, a[h].links[0], w[0]);
      if next.Ptr? {
        SearchAgrees(a, rank, next.h, w[1..]);
      }
    }
  }

  /** The DAWG answers every query as the trie it stands for. */
  lemma QueriesAgree(d: LinkedDAWG, rank: seq<nat>, w: string)
    requires Valid(d, rank)
    ensures Contains(d, rank, w) == LinkedTrie.Contains(AsTrie(d, rank), w)
    ensures IsPrefix(d, rank, w) == LinkedTrie.IsPrefix(AsTrie(d, rank), w)
    ensures Size(d) == LinkedTrie.Size(AsTrie(d, rank))
  {
    SearchAgrees(d.nodes, rank, 0, w);
  }

  lemma EmptyDawg(w: string)
    ensures Valid(Empty(), [0]) && AsTrie(Empty(), [0]) == LinkedTrie.Empty()
    ensures !Contains(Empty(), [0], w) && (IsPrefix(Empty(), [0], w) <==> w == [])
  {
  }
}
