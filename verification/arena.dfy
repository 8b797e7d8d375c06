/** Shared node graphs.

    The optimizer works on node objects that may be reached along several
    paths.  Here such a graph is a sequence of records (`Rec`) addressed by
    their position; a link is `Null` or a pointer to a position.  A graph
    is acyclic when some ranking makes every link point to a lower rank
    (`Ranked`); it then denotes, from every position, the tree value
    `Unfold` obtained by following all links.  The Java `equals` of both node
    kinds compares exactly these unfolded values (`EqAt`), and
    `numberOfNodesInSubtrie` counts their nodes (`Count`). */
module Arena {
  import opened Trees

  datatype Ref = Null | Ptr(h: nat)

  /** One node object: letter, end-of-word flag and outgoing links (the
      alphabet slots of an `ArrayNode`, or `[child, brother]` of a
      `LinkedNode`). */
  datatype Rec = Rec(letter: char, eow: bool, links: seq<Ref>)

  ghost predicate Ranked(a: seq<Rec>, rank: seq<nat>)
  {
    |rank| == |a| &&
    forall h, i :: 0 <= h < |a| && 0 <= i < |a[h].links| && a[h].links[i].Ptr? ==>
      a[h].links[i].h < |a| && rank[a[h].links[i].h] < rank[h]
  }

  /** The tree value position `h` denotes. */
  ghost function Unfold(a: seq<Rec>, rank: seq<nat>, h: nat): Tree
    requires Ranked(a, rank) && h < |a|
    decreases rank[h], 1
  {
    Node(a[h].letter, a[h].eow,
         seq(|a[h].links|, i requires 0 <= i < |a[h].links| => UnfoldLink(a, rank, h, i)))
  }

  ghost function UnfoldLink(a: seq<Rec>, rank: seq<nat>, h: nat, i: nat): Tree
    requires Ranked(a, rank) && h < |a| && i < |a[h].links|
    decreases rank[h], 0
  {
    match a[h].links[i]
    case Null => Nil
    case Ptr(c) => Unfold(a, rank, c)
  }

  ghost function UnfoldRef(a: seq<Rec>, rank: seq<nat>, r: Ref): Tree
    requires Ranked(a, rank) && (r.Ptr? ==> r.h < |a|)
  {
    if r.Null? then Nil else Unfold(a, rank, r.h)
  }

  /** `equals` of a node: the same object, or the same letter, flag and
      number of links with pairwise equal links (a null link equals only a
      null link). */
  predicate EqAt(a: seq<Rec>, ghost rank: seq<nat>, x: nat, y: nat)
    requires Ranked(a, rank) && x < |a| && y < |a|
    decreases rank[x]
  {
    x == y ||
    (a[x].letter == a[y].letter && a[x].eow == a[y].eow && |a[x].links| == |a[y].links| &&
     forall i :: 0 <= i < |a[x].links| ==>
       (a[x].links[i] == a[y].links[i] ||
        (a[x].links[i].Ptr? && a[y].links[i].Ptr? && EqAt(a, rank, a[x].links[i].h, a[y].links[i].h))))
  }

  /** `countNodes` / `numberOfNodesInSubtrie`: one for the node plus the
      counts of every non-null link. */
  function Count(a: seq<Rec>, ghost rank: seq<nat>, h: nat): nat
    requires Ranked(a, rank) && h < |a|
    decreases rank[h], 1, 0
  {
    1 + CountFrom(a, rank, h, 0)
  }

  function CountFrom(a: seq<Rec>, ghost rank: seq<nat>, h: nat, i: nat): nat
    requires Ranked(a, rank) && h < |a| && i <= |a[h].links|
    decreases rank[h], 0, |a[h].links| - i
  {
    if i == |a[h].links| then 0
    else
      (match a[h].links[i]
       case Null => 0
       case Ptr(c) => Count(a, rank, c)) + CountFrom(a, rank, h, i + 1)
  }

  /** Link `i` of position `h` is made to point to `target`. */
  function Redirect(a: seq<Rec>, h: nat, i: nat, target: nat): seq<Rec>
    requires h < |a| && i < |a[h].links|
  {
    a[h := a[h].(links := a[h].links[i := Ptr(target)])]
  }

  // ---------------------------------------------------------------------
  // Lemmas

  /** `equals` decides equality of the unfolded values. */
  lemma {:induction false} EqIffUnfold(a: seq<Rec>, rank: seq<nat>, x: nat, y: nat)
    requires Ranked(a, rank) && x < |a| && y < |a|
    ensures EqAt(a, rank, x, y) <==> Unfold(a, rank, x) == Unfold(a, rank, y)
    decreases rank[x]
  {
    var ux, uy := Unfold(a, rank, x), Unfold(a, rank, y);
    if x == y {
      return;
    }
    if |a[x].links| != |a[y].links| {
      assert |ux.links| != |uy.links|;
      return;
    }
    forall i | 0 <= i < |a[x].links|
      ensures (a[x].links[i] == a[y].links[i] ||
               (a[x].links[i].Ptr? && a[y].links[i].Ptr? && EqAt(a, rank, a[x].links[i].h, a[y].links[i].h)))
              <==> ux.links[i] == uy.links[i]
    {
      assert ux.links[i] == UnfoldLink(a, rank, x, i) == UnfoldRef(a, rank, a[x].links[i]);
      assert uy.links[i] == UnfoldLink(a, rank, y, i) == UnfoldRef(a, rank, a[y].links[i]);
      if a[x].links[i].Ptr? && a[y].links[i].Ptr? {
        EqIffUnfold(a, rank, a[x].links[i].h, a[y].links[i].h);
      }
    }
    if Unfold(a, rank, x) == Unfold(a, rank, y) {
      assert forall i :: 0 <= i < |a[x].links| ==> ux.links[i] == uy.links[i];
    } else if a[x].letter == a[y].letter && a[x].eow == a[y].eow {
      assert ux.links != uy.links;
      var i :| 0 <= i < |a[x].links| && ux.links[i] != uy.links[i];
    }
  }

  /** `countNodes` is the number of nodes of the unfolded value. */
  lemma {:induction false} CountIsSize(a: seq<Rec>, rank: seq<nat>, h: nat)
    requires Ranked(a, rank) && h < |a|
    ensures Count(a, rank, h) == Size(Unfold(a, rank, h))
    decreases rank[h], 1, 0
  {
    CountFromIsSize(a, rank, h, 0);
    assert Unfold(a, rank, h).links[0..] == Unfold(a, rank, h).links;
  }

  lemma {:induction false} CountFromIsSize(a: seq<Rec>, rank: seq<nat>, h: nat, i: nat)
    requires Ranked(a, rank) && h < |a| && i <= |a[h].links|
    ensures CountFrom(a, rank, h, i) == SizeAll(Unfold(a, rank, h).links[i..])
    decreases rank[h], 0, |a[h].links| - i
  {
    var ls := Unfold(a, rank, h).links;
    if i < |a[h].links| {
      CountFromIsSize(a, rank, h, i + 1);
      assert ls[i..][1..] == ls[i + 1..];
      assert ls[i] == UnfoldLink(a, rank, h, i);
      if a[h].links[i].Ptr? {
        CountIsSize(a, rank, a[h].links[i].h);
      }
    }
  }

  /** Redirecting a link to a position with the same unfolded value and a
      lower rank keeps the graph acyclic and every position's value. */
  lemma RedirectKeepsUnfold(a: seq<Rec>, rank: seq<nat>, h: nat, i: nat, target: nat)
    requires Ranked(a, rank) && h < |a| && i < |a[h].links| && target < |a|
    requires a[h].links[i].Ptr? && rank[target] < rank[h]
    requires Unfold(a, rank, a[h].links[i].h) == Unfold(a, rank, target)
    ensures Ranked(Redirect(a, h, i, target), rank)
    ensures forall g :: 0 <= g < |a| ==> Unfold(Redirect(a, h, i, target), rank, g) == Unfold(a, rank, g)
  {
    var b := Redirect(a, h, i, target);
    forall g | 0 <= g < |a|
      ensures Unfold(b, rank, g) == Unfold(a, rank, g)
    {
      RedirectKeepsUnfoldAt(a, rank, h, i, target, g);
    }
  }

  lemma {:induction false} RedirectKeepsUnfoldAt(a: seq<Rec>, rank: seq<nat>, h: nat, i: nat, target: nat, g: nat)
    requires Ranked(a, rank) && h < |a| && i < |a[h].links| && target < |a|
    requires a[h].links[i].Ptr? && rank[target] < rank[h]
    requires Unfold(a, rank, a[h].links[i].h) == Unfold(a, rank, target)
    requires g < |a|
    ensures Ranked(Redirect(a, h, i, target), rank)
    ensures Unfold(Redirect(a, h, i, target), rank, g) == Unfold(a, rank, g)
    decreases rank[g]
  {
    var b := Redirect(a, h, i, target);
    assert Ranked(b, rank);
    var ub, ua := Unfold(b, rank, g), Unfold(a, rank, g);
    forall j | 0 <= j < |b[g].links|
      ensures ub.links[j] == ua.links[j]
    {
      assert ub.links[j] == UnfoldLink(b, rank, g, j) && ua.links[j] == UnfoldLink(a, rank, g, j);
      if g == h && j == i {
        RedirectKeepsUnfoldAt(a, rank, h, i, target, target);
      } else if b[g].links[j].Ptr? {
        assert b[g].links[j] == a[g].links[j];
        RedirectKeepsUnfoldAt(a, rank, h, i, target, b[g].links[j].h);
      }
    }
  }
}
