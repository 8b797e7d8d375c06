/** Flattening a trie for the optimizer (`ArraySubtrieConverter`,
    `LinkedSubtrieConverter`, and `getInfo` of the alphabet sparse trie).

    Each converter walks the trie in pre-order, numbering nodes with a shared
    counter, and produces three arrays: the nodes, each node's ancestor
    index, and the indexes of the leaves.  The three Java traversals visit
    the nodes in the same order with the same counter, so they are modelled
    as one walk (`Walk`) whose visits carry all three facts.

    A node is a `Trees.Tree`; a dense node's links are its alphabet slots
    and a sparse node's links are `[child, brother]`.  The layouts differ in
    two places only: which link target inherits the current index as its
    ancestor (every child in the dense layout, only the child and not the
    brother in the sparse one), and what counts as a leaf. */
module SubtrieConverter {
  import opened Trees
  import opened Arena
  import opened OptimizerBehaviour
  import opened Optimizer

  /** One visited node: its value, the recorded ancestor index, and the node
      object as a record whose links point to the indexes of their targets. */
  datatype Visit = Visit(value: Tree, anc: nat, rec: Rec)

  /** The node object at index `pos`: a non-null link `i` points to the index
      its target receives in pre-order. */
  function RecAt(t: Tree, pos: nat): Rec
    requires t.Node?
  {
    Rec(t.letter, t.eow,
        seq(|t.links|, i requires 0 <= i < |t.links| =>
              if t.links[i].Nil? then Null else Ptr(pos + 1 + SizeAll(t.links[..i]))))
  }

  /** The ancestor index passed down along link `i`. */
  function AncestorFor(layout: Layout, i: nat, self: nat, inherited: nat): nat
  {
    if layout.Dense? || i == 0 then self else inherited
  }

  /** The pre-order walk from `t`, which receives index `pos` and ancestor `anc`. */
  function Walk(layout: Layout, t: Tree, pos: nat, anc: nat): seq<Visit>
    decreases t
  {
    if t.Nil? then []
    else [Visit(t, anc, RecAt(t, pos))] + WalkLinks(layout, t.links, 0, pos + 1, pos, anc)
  }

  /** The walks of links `i..` of a node with index `self`, the first of them
      starting at index `pos`. */
  function WalkLinks(layout: Layout, ts: seq<Tree>, i: nat, pos: nat, self: nat, inherited: nat): seq<Visit>
    requires i <= |ts|
    decreases ts, |ts| - i
  {
    if i == |ts| then []
    else
      Walk(layout, ts[i], pos, AncestorFor(layout, i, self, inherited)) +
      WalkLinks(layout, ts, i + 1, pos + Size(ts[i]), self, inherited)
  }

  /** Java: `getNodes`. */
  function GetNodes(layout: Layout, root: Tree): seq<Rec>
  {
    var w := Walk(layout, root, 0, 0);
    seq(|w|, k requires 0 <= k < |w| => w[k].rec)
  }

  /** The ancestor index each visit of a walk records. */
  function WalkAncestors(w: seq<Visit>): seq<nat>
  {
    seq(|w|, k requires 0 <= k < |w| => w[k].anc)
  }

  /** Java: `getAncestorIndexes`; the root records itself. */
  function GetAncestorIndexes(layout: Layout, root: Tree): seq<nat>
  {
    WalkAncestors(Walk(layout, root, 0, 0))
  }

  /** A dense node is a leaf when every slot is null; a sparse node when it
      has no child, whatever its brother. */
  predicate IsLeaf(layout: Layout, t: Tree)
  {
    t.Node? &&
    if layout.Dense? then forall i :: 0 <= i < |t.links| ==> t.links[i].Nil?
    else |t.links| == 0 || t.links[0].Nil?
  }

  /** Java: `getLeafIndexes`, the leaves in pre-order. */
  function GetLeafIndexes(layout: Layout, root: Tree): seq<nat>
  {
    LeafsFrom(layout, Walk(layout, root, 0, 0), 0)
  }

  function LeafsFrom(layout: Layout, w: seq<Visit>, k: nat): seq<nat>
    requires k <= |w|
    decreases |w| - k
  {
    if k == |w| then []
    else
      (if IsLeaf(layout, w[k].value) then [k] else []) + LeafsFrom(layout, w, k + 1)
  }

  // ---------------------------------------------------------------------
  // Shape of the walk

  lemma {:induction false} WalkLength(layout: Layout, t: Tree, pos: nat, anc: nat)
    ensures |Walk(layout, t, pos, anc)| == Size(t)
    decreases t
  {
    if t.Node? {
      WalkLinksLength(layout, t.links, 0, pos + 1, pos, anc);
      assert t.links[0..] == t.links;
    }
  }

  lemma {:induction false} WalkLinksLength(layout: Layout, ts: seq<Tree>, i: nat, pos: nat, self: nat, inherited: nat)
    requires i <= |ts|
    ensures |WalkLinks(layout, ts, i, pos, self, inherited)| == SizeAll(ts[i..])
    decreases ts, |ts| - i
  {
    if i < |ts| {
      WalkLength(layout, ts[i], pos, AncestorFor(layout, i, self, inherited));
      WalkLinksLength(layout, ts, i + 1, pos + Size(ts[i]), self, inherited);
      assert ts[i..][1..] == ts[i + 1..];
    }
  }

  lemma SizeAllSliceStep(ts: seq<Tree>, i: nat, j: nat)
    requires i < j <= |ts|
    ensures SizeAll(ts[i..j]) == Size(ts[i]) + SizeAll(ts[i + 1..j])
  {
    assert ts[i..j][1..] == ts[i + 1..j];
  }

  /** Index `y` of the walks of links `i..` lies in the walk of link `i` or
      in the walks of the links after it. */
  lemma WalkLinksIndex(layout: Layout, ts: seq<Tree>, i: nat, pos: nat, self: nat, inherited: nat, y: nat)
    requires i < |ts|
    ensures var head := Walk(layout, ts[i], pos, AncestorFor(layout, i, self, inherited));
            var rest := WalkLinks(layout, ts, i + 1, pos + Size(ts[i]), self, inherited);
            var all := WalkLinks(layout, ts, i, pos, self, inherited);
            |head| == Size(ts[i]) && |all| == |head| + |rest| &&
            (y < |head| ==> all[y] == head[y]) &&
            (|head| <= y < |all| ==> all[y] == rest[y - |head|])
  {
    WalkLength(layout, ts[i], pos, AncestorFor(layout, i, self, inherited));
  }

  lemma WalkLinksAtFirst(layout: Layout, ts: seq<Tree>, i: nat, pos: nat, self: nat, inherited: nat, x: nat)
    requires i < |ts| && x < Size(ts[i])
    ensures SizeAll(ts[i..i]) == 0 && x < |WalkLinks(layout, ts, i, pos, self, inherited)|
    ensures |Walk(layout, ts[i], pos, AncestorFor(layout, i, self, inherited))| == Size(ts[i])
    ensures WalkLinks(layout, ts, i, pos, self, inherited)[x] == Walk(layout, ts[i], pos, AncestorFor(layout, i, self, inherited))[x]
  {
    assert ts[i..i] == [];
    WalkLinksIndex(layout, ts, i, pos, self, inherited, x);
  }

  /** The walk of link `j` sits inside the walks of links `i..` at offset
      `SizeAll(ts[i..j])`. */
  lemma WalkLinksAt(layout: Layout, ts: seq<Tree>, i: nat, pos: nat, self: nat, inherited: nat, j: nat, x: nat)
    requires i <= j < |ts| && x < Size(ts[j])
    ensures SizeAll(ts[i..j]) + x < |WalkLinks(layout, ts, i, pos, self, inherited)|
    ensures |Walk(layout, ts[j], pos + SizeAll(ts[i..j]), AncestorFor(layout, j, self, inherited))| == Size(ts[j])
    ensures WalkLinks(layout, ts, i, pos, self, inherited)[SizeAll(ts[i..j]) + x] ==
            Walk(layout, ts[j], pos + SizeAll(ts[i..j]), AncestorFor(layout, j, self, inherited))[x]
  {
    WalkedAtFrom(layout, ts, i, pos, self, inherited, j, x);
  }

  /** Visit `x` of the walk of link `j` is visit `SizeAll(ts[i..j]) + x` of
      the walks of links `i..`. */
  ghost predicate WalkedAt(layout: Layout, ts: seq<Tree>, i: nat, pos: nat, self: nat, inherited: nat, j: nat, x: nat)
    requires i <= j < |ts|
  {
    var off := SizeAll(ts[i..j]);
    var sub := Walk(layout, ts[j], pos + off, AncestorFor(layout, j, self, inherited));
    var all := WalkLinks(layout, ts, i, pos, self, inherited);
    off + x < |all| && |sub| == Size(ts[j]) && x < |sub| && all[off + x] == sub[x]
  }

  lemma {:induction false} WalkedAtFrom(layout: Layout, ts: seq<Tree>, i: nat, pos: nat, self: nat, inherited: nat, j: nat, x: nat)
    requires i <= j < |ts| && x < Size(ts[j])
    ensures WalkedAt(layout, ts, i, pos, self, inherited, j, x)
    decreases j - i
  {
    if i == j {
      WalkLinksAtFirst(layout, ts, i, pos, self, inherited, x);
    } else {
      WalkedAtFrom(layout, ts, i + 1, pos + Size(ts[i]), self, inherited, j, x);
      WalkLinksAtStep(layout, ts, i, pos, self, inherited, j, x);
    }
  }

  /** The step of `WalkedAtFrom`: what holds from link `i + 1` on holds from
      link `i` on, one walk further. */
  lemma WalkLinksAtStep(layout: Layout, ts: seq<Tree>, i: nat, pos: nat, self: nat, inherited: nat, j: nat, x: nat)
    requires i < j < |ts| && x < Size(ts[j])
    requires WalkedAt(layout, ts, i + 1, pos + Size(ts[i]), self, inherited, j, x)
    ensures WalkedAt(layout, ts, i, pos, self, inherited, j, x)
  {
    var off, off1 := SizeAll(ts[i..j]), SizeAll(ts[i + 1..j]);
    SizeAllSliceStep(ts, i, j);
    assert pos + Size(ts[i]) + off1 == pos + off;
    var all := WalkLinks(layout, ts, i, pos, self, inherited);
    var rest := WalkLinks(layout, ts, i + 1, pos + Size(ts[i]), self, inherited);
    var sub := Walk(layout, ts[j], pos + off, AncestorFor(layout, j, self, inherited));
    assert rest[off1 + x] == sub[x];
    WalkLinksIndex(layout, ts, i, pos, self, inherited, off + x);
    assert all[off + x] == rest[off1 + x];
  }

  /** Every index inside the walks of links `i..` belongs to one link. */
  lemma {:induction false} LocateLink(ts: seq<Tree>, i: nat, y: nat) returns (j: nat)
    requires i <= |ts| && y < SizeAll(ts[i..])
    ensures i <= j < |ts| && SizeAll(ts[i..j]) <= y < SizeAll(ts[i..j]) + Size(ts[j])
    decreases |ts| - i
  {
    assert ts[i..][1..] == ts[i + 1..];
    if y < Size(ts[i]) {
      assert ts[i..i] == [];
      j := i;
    } else {
      j := LocateLink(ts, i + 1, y - Size(ts[i]));
      SizeAllSliceStep(ts, i, j);
    }
  }

  /** What the walk records at index `k`: a node, its object with links to
      pre-order indexes, and a subtree that fits in the remaining indexes. */
  lemma {:induction false} VisitAt(layout: Layout, t: Tree, pos: nat, anc: nat, k: nat)
    requires k < Size(t)
    ensures |Walk(layout, t, pos, anc)| == Size(t)
    ensures Walk(layout, t, pos, anc)[k].value.Node?
    ensures Walk(layout, t, pos, anc)[k].rec == RecAt(Walk(layout, t, pos, anc)[k].value, pos + k)
    ensures k + Size(Walk(layout, t, pos, anc)[k].value) <= Size(t)
    ensures k == 0 ==> Walk(layout, t, pos, anc)[0] == Visit(t, anc, RecAt(t, pos))
    decreases t
  {
    WalkLength(layout, t, pos, anc);
    if k > 0 {
      var j := LocateLink(t.links, 0, k - 1);
      var x := k - 1 - SizeAll(t.links[0..j]);
      WalkLinksAt(layout, t.links, 0, pos + 1, pos, anc, j, x);
      VisitAt(layout, t.links[j], pos + 1 + SizeAll(t.links[0..j]), AncestorFor(layout, j, pos, anc), x);
      SizeAllPrefixBound(t.links, j);
      SizeAllPrefixBound(t.links[j..], 1);
      assert t.links[0..j] == t.links[..j];
      assert t.links[j..][..1] == [t.links[j]];
    }
  }

  /** The visits from index `k` on, for as many nodes as the subtree
      recorded at `k` has, are exactly the walk of that subtree on its own. */
  lemma {:induction false} SubtreeRange(layout: Layout, t: Tree, pos: nat, anc: nat, k: nat)
    requires k < Size(t)
    ensures var w := Walk(layout, t, pos, anc);
            |w| == Size(t) && k + Size(w[k].value) <= |w| &&
            w[k..k + Size(w[k].value)] == Walk(layout, w[k].value, pos + k, w[k].anc)
    decreases t, 1
  {
    WalkLength(layout, t, pos, anc);
    if k == 0 {
      VisitAt(layout, t, pos, anc, 0);
      var w := Walk(layout, t, pos, anc);
      assert w[0..Size(t)] == w;
    } else {
      assert t.links[0..] == t.links;
      var j := LocateLink(t.links, 0, k - 1);
      assert t.links[0..j] == t.links[..j];
      SubtreeRangeLink(layout, t, pos, anc, j, k - 1 - SizeAll(t.links[..j]));
    }
  }

  /** `SubtreeRange` for an index inside the walk of link `j`. */
  lemma {:induction false} SubtreeRangeLink(layout: Layout, t: Tree, pos: nat, anc: nat, j: nat, x: nat)
    requires t.Node? && j < |t.links| && x < Size(t.links[j])
    ensures var w := Walk(layout, t, pos, anc);
            var k := 1 + SizeAll(t.links[..j]) + x;
            k < |w| && k + Size(w[k].value) <= |w| &&
            w[k..k + Size(w[k].value)] == Walk(layout, w[k].value, pos + k, w[k].anc)
    decreases t, 0
  {
    var off := SizeAll(t.links[..j]);
    var sp := pos + 1 + off;
    var sa := AncestorFor(layout, j, pos, anc);
    var sub := Walk(layout, t.links[j], sp, sa);
    InsideLink(layout, t, pos, anc, j, x);
    SubtreeRange(layout, t.links[j], sp, sa, x);
    InsideLinkRange(layout, t, pos, anc, j, x, Size(sub[x].value));
  }

  /** A stretch of the walk of link `j` is the same stretch of the walk of
      `t`, shifted past the root and the earlier links. */
  lemma InsideLinkRange(layout: Layout, t: Tree, pos: nat, anc: nat, j: nat, x: nat, n: nat)
    requires t.Node? && j < |t.links| && x + n <= Size(t.links[j])
    ensures var w := Walk(layout, t, pos, anc);
            var off := SizeAll(t.links[..j]);
            var sub := Walk(layout, t.links[j], pos + 1 + off, AncestorFor(layout, j, pos, anc));
            |sub| == Size(t.links[j]) && 1 + off + x + n <= |w| &&
            w[1 + off + x..1 + off + x + n] == sub[x..x + n]
  {
    var w := Walk(layout, t, pos, anc);
    var off := SizeAll(t.links[..j]);
    var sub := Walk(layout, t.links[j], pos + 1 + off, AncestorFor(layout, j, pos, anc));
    WalkLength(layout, t, pos, anc);
    WalkLength(layout, t.links[j], pos + 1 + off, AncestorFor(layout, j, pos, anc));
    SizeAllPrefixBound(t.links, j);
    SizeAllPrefixBound(t.links[j..], 1);
    assert t.links[j..][..1] == [t.links[j]];
    var k := 1 + off + x;
    forall i | k <= i < k + n
      ensures w[i] == sub[i - k + x]
    {
      InsideLink(layout, t, pos, anc, j, i - k + x);
    }
    SlicesAgree(w, k, sub, x, n);
  }

  /** Link `i` of the node at index `k` is recorded at index
      `k + 1 + SizeAll(links[..i])`, with the ancestor `AncestorFor` gives. */
  lemma {:induction false} LinkTarget(layout: Layout, t: Tree, pos: nat, anc: nat, k: nat, i: nat)
    requires k < |Walk(layout, t, pos, anc)|
    requires Walk(layout, t, pos, anc)[k].value.Node?
    requires i < |Walk(layout, t, pos, anc)[k].value.links|
    requires Walk(layout, t, pos, anc)[k].value.links[i].Node?
    ensures var w := Walk(layout, t, pos, anc);
            var m := k + 1 + SizeAll(w[k].value.links[..i]);
            m < |w| && w[m].value == w[k].value.links[i] &&
            w[m].anc == AncestorFor(layout, i, pos + k, w[k].anc)
    decreases t, 1
  {
    if k == 0 {
      VisitAt(layout, t, pos, anc, 0);
      LinkOfFirst(layout, t, pos, anc, i);
    } else {
      LinkOfDescendant(layout, t, pos, anc, k, i);
    }
  }

  lemma {:induction false} LinkOfDescendant(layout: Layout, t: Tree, pos: nat, anc: nat, k: nat, i: nat)
    requires 0 < k < |Walk(layout, t, pos, anc)|
    requires Walk(layout, t, pos, anc)[k].value.Node?
    requires i < |Walk(layout, t, pos, anc)[k].value.links|
    requires Walk(layout, t, pos, anc)[k].value.links[i].Node?
    ensures var w := Walk(layout, t, pos, anc);
            var m := k + 1 + SizeAll(w[k].value.links[..i]);
            m < |w| && w[m].value == w[k].value.links[i] &&
            w[m].anc == AncestorFor(layout, i, pos + k, w[k].anc)
    decreases t, 0
  {
    var w := Walk(layout, t, pos, anc);
    WalkLength(layout, t, pos, anc);
    var j := LocateLink(t.links, 0, k - 1);
    assert t.links[0..j] == t.links[..j];
    var off := SizeAll(t.links[..j]);
    var x := k - 1 - off;
    var base := pos + 1 + off;
    var a := AncestorFor(layout, j, pos, anc);
    var sub := Walk(layout, t.links[j], base, a);
    InsideLink(layout, t, pos, anc, j, x);
    assert 1 + off + x == k && base + x == pos + k;
    var v := w[k];
    assert v == sub[x];
    LinkTarget(layout, t.links[j], base, a, x, i);
    var m' := x + 1 + SizeAll(v.value.links[..i]);
    InsideLink(layout, t, pos, anc, j, m');
    assert 1 + off + m' == k + 1 + SizeAll(v.value.links[..i]);
  }

  /** The walk of link `j` of `t` sits in the walk of `t` after the root and
      the walks of the earlier links. */
  lemma InsideLink(layout: Layout, t: Tree, pos: nat, anc: nat, j: nat, x: nat)
    requires t.Node? && j < |t.links| && x < Size(t.links[j])
    ensures var w := Walk(layout, t, pos, anc);
            var off := SizeAll(t.links[..j]);
            var sub := Walk(layout, t.links[j], pos + 1 + off, AncestorFor(layout, j, pos, anc));
            |sub| == Size(t.links[j]) && 1 + off + x < |w| && w[1 + off + x] == sub[x]
  {
    var w := Walk(layout, t, pos, anc);
    WalkLength(layout, t, pos, anc);
    var rest := WalkLinks(layout, t.links, 0, pos + 1, pos, anc);
    assert w == [w[0]] + rest;
    assert t.links[0..j] == t.links[..j];
    WalkLinksAt(layout, t.links, 0, pos + 1, pos, anc, j, x);
    assert w[1 + SizeAll(t.links[..j]) + x] == rest[SizeAll(t.links[..j]) + x];
  }

  lemma LinkOfFirst(layout: Layout, t: Tree, pos: nat, anc: nat, i: nat)
    requires t.Node? && i < |t.links| && t.links[i].Node?
    ensures var w := Walk(layout, t, pos, anc);
            var m := 1 + SizeAll(t.links[..i]);
            m < |w| && w[m].value == t.links[i] && w[m].anc == AncestorFor(layout, i, pos, anc)
  {
    var w := Walk(layout, t, pos, anc);
    WalkLength(layout, t, pos, anc);
    var rest := WalkLinks(layout, t.links, 0, pos + 1, pos, anc);
    assert w == [w[0]] + rest;
    assert t.links[0..i] == t.links[..i];
    var m := 1 + SizeAll(t.links[..i]);
    WalkLinksAt(layout, t.links, 0, pos + 1, pos, anc, i, 0);
    VisitAt(layout, t.links[i], pos + 1 + SizeAll(t.links[..i]), AncestorFor(layout, i, pos, anc), 0);
    assert w[m] == rest[m - 1];
  }

  /** Every index but the first is the target of a link of an earlier index. */
  lemma {:induction false} ParentOf(layout: Layout, t: Tree, pos: nat, anc: nat, m: nat) returns (k: nat, i: nat)
    requires 0 < m < Size(t)
    ensures var w := Walk(layout, t, pos, anc);
            |w| == Size(t) && k < m && w[k].value.Node? && i < |w[k].value.links| &&
            w[k].value.links[i].Node? && m == k + 1 + SizeAll(w[k].value.links[..i])
    decreases t
  {
    var w := Walk(layout, t, pos, anc);
    WalkLength(layout, t, pos, anc);
    var j := LocateLink(t.links, 0, m - 1);
    var x := m - 1 - SizeAll(t.links[0..j]);
    assert t.links[0..j] == t.links[..j];
    if x == 0 {
      VisitAt(layout, t, pos, anc, 0);
      k, i := 0, j;
    } else {
      var base := pos + 1 + SizeAll(t.links[0..j]);
      var a := AncestorFor(layout, j, pos, anc);
      var k', i' := ParentOf(layout, t.links[j], base, a, x);
      k, i := 1 + SizeAll(t.links[0..j]) + k', i';
      WalkLinksAt(layout, t.links, 0, pos + 1, pos, anc, j, k');
    }
  }

  // ---------------------------------------------------------------------
  // The converted arrays

  /** The heights of the recorded subtrees, a ranking of the node objects. */
  ghost function Heights(layout: Layout, root: Tree): seq<nat>
  {
    var w := Walk(layout, root, 0, 0);
    seq(|w|, k requires 0 <= k < |w| => Height(w[k].value))
  }

  /** The node objects form an acyclic graph in which the object at index
      `k` denotes exactly the subtree the walk recorded there; the first
      denotes the whole trie. */
  lemma NodesDenoteSubtrees(layout: Layout, root: Tree)
    ensures var w := Walk(layout, root, 0, 0);
            var a := GetNodes(layout, root);
            |a| == |w| == Size(root) && Ranked(a, Heights(layout, root)) &&
            forall k :: 0 <= k < |a| ==> Unfold(a, Heights(layout, root), k) == w[k].value
  {
    var w := Walk(layout, root, 0, 0);
    var a := GetNodes(layout, root);
    var rank := Heights(layout, root);
    WalkLength(layout, root, 0, 0);
    forall h, i | 0 <= h < |a| && 0 <= i < |a[h].links| && a[h].links[i].Ptr?
      ensures a[h].links[i].h < |a| && rank[a[h].links[i].h] < rank[h]
    {
      VisitAt(layout, root, 0, 0, h);
      LinkTarget(layout, root, 0, 0, h, i);
      HeightOfLink(w[h].value.links, i);
    }
    forall k | 0 <= k < |a|
      ensures Unfold(a, rank, k) == w[k].value
    {
      UnfoldsToVisit(layout, root, k);
    }
  }

  lemma {:induction false} UnfoldsToVisit(layout: Layout, root: Tree, k: nat)
    requires Ranked(GetNodes(layout, root), Heights(layout, root))
    requires k < |GetNodes(layout, root)|
    ensures Unfold(GetNodes(layout, root), Heights(layout, root), k) == Walk(layout, root, 0, 0)[k].value
    decreases Heights(layout, root)[k]
  {
    var w := Walk(layout, root, 0, 0);
    var a := GetNodes(layout, root);
    var rank := Heights(layout, root);
    WalkLength(layout, root, 0, 0);
    VisitAt(layout, root, 0, 0, k);
    var u := Unfold(a, rank, k);
    var v := w[k].value;
    forall i | 0 <= i < |v.links|
      ensures u.links[i] == v.links[i]
    {
      assert u.links[i] == UnfoldLink(a, rank, k, i);
      if v.links[i].Node? {
        LinkTarget(layout, root, 0, 0, k, i);
        UnfoldsToVisit(layout, root, k + 1 + SizeAll(v.links[..i]));
      }
    }
  }

  /** Two stretches of `n` elements that agree element by element are equal. */
  lemma SlicesAgree<T>(u: seq<T>, i: nat, v: seq<T>, j: nat, n: nat)
    requires i + n <= |u| && j + n <= |v|
    requires forall p :: i <= p < i + n ==> u[p] == v[p - i + j]
    ensures u[i..i + n] == v[j..j + n]
  {
  }

  /** The subtrie at index `k` occupies the `countNodes` indexes from `k`
      on: there the arrays hold what converting that subtrie alone, numbered
      from `k`, would give. */
  lemma SubtreeOccupiesRange(layout: Layout, root: Tree, k: nat)
    requires k < Size(root)
    ensures var a := GetNodes(layout, root);
            var rank := Heights(layout, root);
            var anc := GetAncestorIndexes(layout, root);
            Ranked(a, rank) && k < |a| == |anc| && k + CountNodes(a, rank, k) <= |a| &&
            var sub := Walk(layout, Unfold(a, rank, k), k, anc[k]);
            |sub| == CountNodes(a, rank, k) &&
            forall m :: 0 <= m < |sub| ==> a[k + m] == sub[m].rec && anc[k + m] == sub[m].anc
  {
    var w := Walk(layout, root, 0, 0);
    var a := GetNodes(layout, root);
    var rank := Heights(layout, root);
    NodesDenoteSubtrees(layout, root);
    CountNodesIsSize(a, rank, k);
    SubtreeRange(layout, root, 0, 0, k);
    var n := Size(w[k].value);
    forall i | k <= i < k + n
      ensures w[i] == w[k..k + n][i - k]
    {
    }
  }

  /** The recorded ancestor of every node but the first comes before it;
      the first records itself. */
  lemma {:induction false} AncestorsPrecede(layout: Layout, root: Tree, m: nat)
    requires m < Size(root)
    ensures var w := Walk(layout, root, 0, 0);
            |w| == Size(root) && (if m == 0 then w[m].anc == 0 else w[m].anc < m)
    decreases m
  {
    var w := Walk(layout, root, 0, 0);
    VisitAt(layout, root, 0, 0, m);
    if m > 0 {
      var k, i := ParentOf(layout, root, 0, 0, m);
      LinkTarget(layout, root, 0, 0, k, i);
      AncestorsPrecede(layout, root, k);
    }
  }

  /** `getLeafIndexes` lists, in increasing order, exactly the indexes whose
      node is a leaf. */
  lemma LeafsFromExact(layout: Layout, w: seq<Visit>, k: nat)
    requires k <= |w|
    ensures var ls := LeafsFrom(layout, w, k);
            (forall p :: 0 <= p < |ls| ==> k <= ls[p] < |w|) &&
            (forall p, q :: 0 <= p < q < |ls| ==> ls[p] < ls[q]) &&
            (forall x :: k <= x < |w| ==> (x in ls <==> IsLeaf(layout, w[x].value)))
  {
    LeafsFromBounds(layout, w, k);
    LeafsFromIncreasing(layout, w, k);
    LeafsFromMembers(layout, w, k);
  }

  /** One step of `LeafsFrom`: index `k` if it is a leaf, then the rest. */
  lemma LeafsFromStep(layout: Layout, w: seq<Visit>, k: nat)
    requires k < |w|
    ensures var ls := LeafsFrom(layout, w, k);
            var rest := LeafsFrom(layout, w, k + 1);
            if IsLeaf(layout, w[k].value) then ls == [k] + rest else ls == rest
  {
  }

  lemma {:induction false} LeafsFromBounds(layout: Layout, w: seq<Visit>, k: nat)
    requires k <= |w|
    ensures var ls := LeafsFrom(layout, w, k);
            forall p :: 0 <= p < |ls| ==> k <= ls[p] < |w|
    decreases |w| - k
  {
    if k < |w| {
      LeafsFromBounds(layout, w, k + 1);
      LeafsFromStep(layout, w, k);
    }
  }

  ghost predicate Increasing(s: seq<nat>)
  {
    forall p, q :: 0 <= p < q < |s| ==> s[p] < s[q]
  }

  /** Putting a number below every element in front keeps a sequence increasing. */
  lemma IncreasingCons(k: nat, s: seq<nat>)
    requires Increasing(s) && forall p :: 0 <= p < |s| ==> k < s[p]
    ensures Increasing([k] + s)
  {
    var t := [k] + s;
    forall p, q | 0 <= p < q < |t| ensures t[p] < t[q] {
      assert t[q] == s[q - 1];
      if p > 0 {
        assert t[p] == s[p - 1];
      }
    }
  }

  lemma {:induction false} LeafsFromIncreasing(layout: Layout, w: seq<Visit>, k: nat)
    requires k <= |w|
    ensures Increasing(LeafsFrom(layout, w, k))
    decreases |w| - k
  {
    if k < |w| {
      LeafsFromIncreasing(layout, w, k + 1);
      LeafsFromBounds(layout, w, k + 1);
      LeafsFromStep(layout, w, k);
      if IsLeaf(layout, w[k].value) {
        IncreasingCons(k, LeafsFrom(layout, w, k + 1));
      }
    }
  }

  lemma {:induction false} LeafsFromMembers(layout: Layout, w: seq<Visit>, k: nat)
    requires k <= |w|
    ensures var ls := LeafsFrom(layout, w, k);
            forall x :: k <= x < |w| ==> (x in ls <==> IsLeaf(layout, w[x].value))
    decreases |w| - k
  {
    if k < |w| {
      LeafsFromMembers(layout, w, k + 1);
      LeafsFromBounds(layout, w, k + 1);
      LeafsFromStep(layout, w, k);
    }
  }

  lemma LeafIndexesExact(layout: Layout, root: Tree)
    ensures var w := Walk(layout, root, 0, 0);
            var ls := GetLeafIndexes(layout, root);
            (forall p :: 0 <= p < |ls| ==> ls[p] < |w|) &&
            (forall p, q :: 0 <= p < q < |ls| ==> ls[p] < ls[q]) &&
            (forall x :: 0 <= x < |w| ==> (x in ls <==> IsLeaf(layout, w[x].value)))
  {
    var w := Walk(layout, root, 0, 0);
    WalkLength(layout, root, 0, 0);
    LeafsFromExact(layout, w, 0);
  }

  // ---------------------------------------------------------------------
  // What the optimizer relies on

  /** Distinct non-null slots of a node hold nodes with distinct letters,
      in every node of the trie. */
  predicate DistinctSiblings(t: Tree)
  {
    t.Node? ==>
      (forall i, j :: 0 <= i < j < |t.links| && t.links[i].Node? && t.links[j].Node? ==>
         t.links[i].letter != t.links[j].letter) &&
      (forall i :: 0 <= i < |t.links| ==> DistinctSiblings(t.links[i]))
  }

  /** Every node has exactly the two links `[child, brother]`. */
  predicate BinaryTree(t: Tree)
  {
    t.Node? ==> |t.links| == 2 && BinaryTree(t.links[0]) && BinaryTree(t.links[1])
  }

  /** What the converters demand of the trie they flatten: a dense trie's
      siblings differ in letter, a sparse root has no brother. */
  predicate Convertible(layout: Layout, root: Tree)
  {
    root.Node? &&
    (layout.Dense? ==> DistinctSiblings(root)) &&
    (layout.Sparse? ==> BinaryTree(root) && root.links[1].Nil?)
  }

  lemma {:induction false} SubtreesConvertible(layout: Layout, root: Tree, m: nat)
    requires Convertible(layout, root) && m < Size(root)
    ensures var w := Walk(layout, root, 0, 0);
            |w| == Size(root) &&
            (layout.Dense? ==> DistinctSiblings(w[m].value)) &&
            (layout.Sparse? ==> BinaryTree(w[m].value))
    decreases m
  {
    VisitAt(layout, root, 0, 0, m);
    if m > 0 {
      var k, i := ParentOf(layout, root, 0, 0, m);
      LinkTarget(layout, root, 0, 0, k, i);
      SubtreesConvertible(layout, root, k);
    }
  }

  /** Every node but the first is smaller than its recorded ancestor. */
  lemma {:induction false} AncestorIsLarger(layout: Layout, root: Tree, m: nat)
    requires Convertible(layout, root) && 0 < m < Size(root)
    ensures var w := Walk(layout, root, 0, 0);
            |w| == Size(root) && w[m].anc < |w| && Size(w[m].value) < Size(w[w[m].anc].value)
    decreases m
  {
    var w := Walk(layout, root, 0, 0);
    AncestorsPrecede(layout, root, m);
    var k, i := ParentOf(layout, root, 0, 0, m);
    LinkTarget(layout, root, 0, 0, k, i);
    SizeOfLink(w[k].value.links, i);
    if layout.Sparse? && i != 0 {
      SubtreesConvertible(layout, root, k);
      VisitAt(layout, root, 0, 0, 0);
      assert k != 0;
      AncestorIsLarger(layout, root, k);
    }
  }

  /** In the sparse layout the nodes sharing a recorded ancestor `p` are one
      brother chain, and each ends where the chain's part of the walk ends:
      at `p + 1 + Size(child of p)`. */
  lemma {:induction false} ChainEnd(root: Tree, m: nat)
    requires Convertible(Sparse, root) && 0 < m < Size(root)
    ensures var w := Walk(Sparse, root, 0, 0);
            |w| == Size(root) && w[m].anc < |w| && w[w[m].anc].value.Node? &&
            |w[w[m].anc].value.links| == 2 &&
            m + Size(w[m].value) == w[m].anc + 1 + Size(w[w[m].anc].value.links[0])
    decreases m
  {
    var w := Walk(Sparse, root, 0, 0);
    AncestorsPrecede(Sparse, root, m);
    var k, i := ParentOf(Sparse, root, 0, 0, m);
    LinkTarget(Sparse, root, 0, 0, k, i);
    SubtreesConvertible(Sparse, root, k);
    var ls := w[k].value.links;
    assert ls[..0] == [];
    if i == 1 {
      VisitAt(Sparse, root, 0, 0, 0);
      assert k != 0;
      ChainEnd(root, k);
      assert ls[..1] == [ls[0]];
      assert ls[1..][1..] == [];
      assert SizeAll(ls) == Size(ls[0]) + Size(ls[1]);
    }
    VisitAt(Sparse, root, 0, 0, w[m].anc);
    SubtreesConvertible(Sparse, root, w[m].anc);
  }

  /** Two distinct nodes with the same recorded ancestor have different values. */
  lemma SiblingsDiffer(layout: Layout, root: Tree, m1: nat, m2: nat)
    requires Convertible(layout, root) && 0 < m1 < Size(root) && 0 < m2 < Size(root) && m1 != m2
    requires var w := Walk(layout, root, 0, 0);
             |w| == Size(root) && w[m1].anc == w[m2].anc
    ensures var w := Walk(layout, root, 0, 0);
            w[m1].value != w[m2].value
  {
    var w := Walk(layout, root, 0, 0);
    if layout.Sparse? {
      ChainEnd(root, m1);
      ChainEnd(root, m2);
    } else {
      var k1, i1 := ParentOf(layout, root, 0, 0, m1);
      var k2, i2 := ParentOf(layout, root, 0, 0, m2);
      LinkTarget(layout, root, 0, 0, k1, i1);
      LinkTarget(layout, root, 0, 0, k2, i2);
      SubtreesConvertible(layout, root, k1);
      assert k1 == k2;
      var ls := w[k1].value.links;
      if i1 < i2 {
        assert ls[i1].letter != ls[i2].letter;
      } else {
        assert ls[i2].letter != ls[i1].letter;
      }
    }
  }

  lemma ConvertedLinks(layout: Layout, root: Tree)
    requires Convertible(layout, root)
    ensures var a := GetNodes(layout, root);
            var anc := GetAncestorIndexes(layout, root);
            |anc| == |a| &&
            (forall h :: 0 <= h < |a| ==> anc[h] < |a|) && (layout.Sparse? ==> Binary(a))
  {
    var a := GetNodes(layout, root);
    var anc := GetAncestorIndexes(layout, root);
    WalkLength(layout, root, 0, 0);
    forall h | 0 <= h < |a|
      ensures anc[h] < |a|
      ensures layout.Sparse? ==> |a[h].links| == 2
    {
      AncestorsPrecede(layout, root, h);
      VisitAt(layout, root, 0, 0, h);
      SubtreesConvertible(layout, root, h);
    }
  }

  lemma ConvertedSizes(layout: Layout, root: Tree)
    requires Convertible(layout, root)
    ensures var a := GetNodes(layout, root);
            var rank := Heights(layout, root);
            var anc := GetAncestorIndexes(layout, root);
            Ranked(a, rank) && |anc| == |a| && (forall h :: 0 <= h < |a| ==> anc[h] < |a|) &&
            (forall m :: 0 < m < |a| ==> Size(Unfold(a, rank, m)) < Size(Unfold(a, rank, anc[m]))) &&
            (forall m :: 0 < m < |a| ==> Size(Unfold(a, rank, m)) < Size(Unfold(a, rank, 0)))
  {
    var a := GetNodes(layout, root);
    var rank := Heights(layout, root);
    var anc := GetAncestorIndexes(layout, root);
    NodesDenoteSubtrees(layout, root);
    ConvertedLinks(layout, root);
    VisitAt(layout, root, 0, 0, 0);
    forall m | 0 < m < |a|
      ensures Size(Unfold(a, rank, m)) < Size(Unfold(a, rank, anc[m]))
      ensures Size(Unfold(a, rank, m)) < Size(Unfold(a, rank, 0))
    {
      AncestorIsLarger(layout, root, m);
      VisitAt(layout, root, 0, 0, m);
    }
  }

  lemma ConvertedSiblings(layout: Layout, root: Tree)
    requires Convertible(layout, root)
    ensures var a := GetNodes(layout, root);
            var rank := Heights(layout, root);
            var anc := GetAncestorIndexes(layout, root);
            Ranked(a, rank) && |anc| == |a| &&
            forall m1, m2 :: 0 < m1 < |a| && 0 < m2 < |a| && m1 != m2 && anc[m1] == anc[m2] ==>
              Unfold(a, rank, m1) != Unfold(a, rank, m2)
  {
    var a := GetNodes(layout, root);
    var rank := Heights(layout, root);
    var anc := GetAncestorIndexes(layout, root);
    NodesDenoteSubtrees(layout, root);
    forall m1, m2 | 0 < m1 < |a| && 0 < m2 < |a| && m1 != m2 && anc[m1] == anc[m2]
      ensures Unfold(a, rank, m1) != Unfold(a, rank, m2)
    {
      SiblingsDiffer(layout, root, m1, m2);
    }
  }

  /** The converters hand the optimizer arrays it can work on. */
  lemma ConvertedIsPrepared(layout: Layout, root: Tree)
    requires Convertible(layout, root)
    ensures var a := GetNodes(layout, root);
            Prepared(layout, a, Heights(layout, root), GetAncestorIndexes(layout, root)) &&
            InRange(GetLeafIndexes(layout, root), |a|)
  {
    NodesDenoteSubtrees(layout, root);
    LeafIndexesExact(layout, root);
    ConvertedLinks(layout, root);
    ConvertedSizes(layout, root);
    ConvertedSiblings(layout, root);
  }

  /** In the dense arrays every node but the first is the target of a slot
      of the node recorded as its ancestor. */
  lemma ConvertedParentsLink(root: Tree)
    ensures ParentsLink(GetNodes(Dense, root), GetAncestorIndexes(Dense, root))
  {
    var w := Walk(Dense, root, 0, 0);
    var a := GetNodes(Dense, root);
    var anc := GetAncestorIndexes(Dense, root);
    WalkLength(Dense, root, 0, 0);
    forall m | 0 <= m < |a|
      ensures anc[m] < |a|
    {
      AncestorsPrecede(Dense, root, m);
    }
    forall m | 0 < m < |a|
      ensures Ptr(m) in a[anc[m]].links
    {
      var k, i := ParentOf(Dense, root, 0, 0, m);
      LinkTarget(Dense, root, 0, 0, k, i);
      VisitAt(Dense, root, 0, 0, k);
      assert anc[m] == k;
      assert a[k].links[i] == Ptr(m);
    }
  }
}
