/** `Optimizer.eliminateDuplicates`: turning a trie into a DAWG by making
    equal subtries share one copy.

    The optimizer receives the nodes of a trie in pre-order, each node's
    ancestor index and the leaf indexes (see `SubtrieConverter`).  For every
    pair of unmarked leaves it climbs the two ancestor chains in lock step
    while the two nodes are `equals`; at the last equal pair it points the
    reference to the second node at the first one and marks the second
    node's subtrie, whose nodes are not compared again. */
module Optimizer {
  import opened Outcome
  import opened Trees
  import opened Arena
  import opened OptimizerBehaviour

  /** What the optimizer relies on of its arrays, and what the converters
      produce (`SubtrieConverter.ConvertedIsPrepared`):
      - the graph is acyclic, ranked by heights, with two links per sparse record;
      - every ancestor index is an index, and a node's ancestor is larger than it;
      - the first node is larger than every other one;
      - two nodes with the same ancestor have different values. */
  ghost predicate Prepared(layout: Layout, a: seq<Rec>, rank: seq<nat>, anc: seq<nat>)
  {
    HeightRanked(a, rank) && (layout.Sparse? ==> Binary(a)) &&
    0 < |a| && |anc| == |a| &&
    (forall m :: 0 <= m < |a| ==> anc[m] < |a|) &&
    (forall m :: 0 < m < |a| ==> Size(Unfold(a, rank, m)) < Size(Unfold(a, rank, anc[m]))) &&
    (forall m :: 0 < m < |a| ==> Size(Unfold(a, rank, m)) < Size(Unfold(a, rank, 0))) &&
    (forall m1, m2 :: 0 < m1 < |a| && 0 < m2 < |a| && m1 != m2 && anc[m1] == anc[m2] ==>
       Unfold(a, rank, m1) != Unfold(a, rank, m2))
  }

  /** The same node values, still height-ranked. */
  ghost predicate SameValues(layout: Layout, a: seq<Rec>, b: seq<Rec>, rank: seq<nat>)
  {
    Ranked(a, rank) && |b| == |a| && HeightRanked(b, rank) && (layout.Sparse? ==> Binary(b)) &&
    forall h :: 0 <= h < |a| ==> Unfold(b, rank, h) == Unfold(a, rank, h)
  }

  predicate InRange(xs: seq<nat>, n: nat)
  {
    forall k :: 0 <= k < |xs| ==> xs[k] < n
  }

  /** The bits `BitSet.set(from, from + count)` sets. */
  function Span(from: nat, count: nat): (s: set<nat>)
    ensures forall k :: k in s <==> from <= k < from + count
    decreases count
  {
    if count == 0 then {} else {from} + Span(from + 1, count - 1)
  }

  /** The state `compareAndEliminate` leaves behind. */
  datatype Progress = Progress(nodes: seq<Rec>, leafs: seq<nat>, marks: set<nat>)

  /** The index reached from `x` by following the ancestor entries `k` times. */
  ghost function Up(anc: seq<nat>, x: nat, k: nat): (r: nat)
    requires x < |anc| && InRange(anc, |anc|)
    ensures r < |anc|
  {
    if k == 0 then x else anc[Up(anc, x, k - 1)]
  }

  /** The two chains from `x` and `y` are `equals` at each of their first
      `k + 1` steps. */
  ghost predicate LockStep(a: seq<Rec>, rank: seq<nat>, anc: seq<nat>, x: nat, y: nat, k: nat)
    requires Ranked(a, rank) && |anc| == |a| && InRange(anc, |a|) && x < |a| && y < |a|
  {
    forall j :: 0 <= j <= k ==> EqAt(a, rank, Up(anc, x, j), Up(anc, y, j))
  }

  /** `c` and `d` are the nodes `k` steps above `x` and `y`, distinct, and the
      climb from `x` and `y` saw equal pairs all the way up to them. */
  ghost predicate Climbed(a: seq<Rec>, rank: seq<nat>, anc: seq<nat>, x: nat, y: nat, k: nat, c: nat, d: nat)
    requires Ranked(a, rank) && |anc| == |a| && InRange(anc, |a|) && x < |a| && y < |a|
  {
    c == Up(anc, x, k) && d == Up(anc, y, k) && c != d && LockStep(a, rank, anc, x, y, k)
  }

  /** The loop of `compareAndEliminate` that climbs while the current and the
      replacement node are `equals`.  Returns whether a match was found, the
      last equal pair (`curDesc`, `repDesc`), which lies the same number `k`
      of steps above the two leaves, and the first unequal pair (`cur`,
      `rep`) just above it. */
  method ClimbWhileEqual(layout: Layout, a: seq<Rec>, ghost rank: seq<nat>, anc: seq<nat>, curLeaf: nat, repLeaf: nat)
    returns (matchFound: bool, cur: nat, rep: nat, curDesc: nat, repDesc: nat, ghost k: nat)
    requires Prepared(layout, a, rank, anc)
    requires curLeaf < |a| && repLeaf < |a| && curLeaf != repLeaf
    ensures cur < |a| && rep < |a| && cur != rep && !EqAt(a, rank, cur, rep)
    ensures matchFound <==> EqAt(a, rank, curLeaf, repLeaf)
    ensures !matchFound ==> cur == curLeaf && rep == repLeaf
    ensures matchFound ==> Climbed(a, rank, anc, curLeaf, repLeaf, k, curDesc, repDesc) &&
                           cur == anc[curDesc] && rep == anc[repDesc]
  {
    cur, rep := curLeaf, repLeaf;
    matchFound := false;
    curDesc, repDesc := 0, 0;
    k := 0;
    while EqAt(a, rank, cur, rep)
      invariant cur < |a| && rep < |a| && cur != rep
      invariant Size(Unfold(a, rank, cur)) <= Size(Unfold(a, rank, 0))
      invariant matchFound ==> Climbed(a, rank, anc, curLeaf, repLeaf, k, curDesc, repDesc) &&
                               cur == anc[curDesc] && rep == anc[repDesc]
      invariant matchFound ==> EqAt(a, rank, curLeaf, repLeaf)
      invariant !matchFound ==> cur == curLeaf && rep == repLeaf && k == 0
      decreases Size(Unfold(a, rank, 0)) - Size(Unfold(a, rank, cur))
    {
      k := ClimbAdvance(layout, a, rank, anc, curLeaf, repLeaf, matchFound, k, curDesc, repDesc, cur, rep);
      matchFound := true;
      curDesc, repDesc := cur, rep;
      cur, rep := anc[cur], anc[rep];
    }
  }

  /** `p` is what a match found by climbing from `curLeaf` and `repLeaf`
      leaves: `c` and `d`, the last equal pair, lie `k` steps above the two
      leaves with equal pairs all the way and unequal ancestors; the link
      from `anc[d]` to `d` points at `c`, entry `index` of the leaf list is
      `anc[d]`, and `d`'s subtrie is marked. */
  ghost predicate MatchApplied(layout: Layout, a: seq<Rec>, rank: seq<nat>, anc: seq<nat>, leafs: seq<nat>,
                               curLeaf: nat, repLeaf: nat, index: nat, marks: set<nat>, p: Progress, k: nat)
    requires Prepared(layout, a, rank, anc) && curLeaf < |a| && repLeaf < |a|
  {
    var c, d := Up(anc, curLeaf, k), Up(anc, repLeaf, k);
    Climbed(a, rank, anc, curLeaf, repLeaf, k, c, d) && !EqAt(a, rank, anc[c], anc[d]) &&
    index < |leafs| &&
    ChangeRefs(layout, a, rank, anc[d], d, c) == Ok(p.nodes) &&
    p.leafs == leafs[index := anc[d]] &&
    p.marks == marks + Span(d, Size(Unfold(a, rank, d)))
  }

  /** `compareAndEliminate(current, curLeaf, replace, repLeaf, index, bitSet)`.
      Without a match nothing changes.  On a match the link from the first
      unequal node `anc[d]` of the second chain to the last equal node `d`
      is pointed at its equal partner `c`, entry `index` of the leaf list
      becomes `anc[d]`, and the bits of `d`'s subtrie are set. */
  method CompareAndEliminate(layout: Layout, a: seq<Rec>, ghost rank: seq<nat>, anc: seq<nat>,
                             leafs: seq<nat>, curLeaf: nat, repLeaf: nat, index: nat, marks: set<nat>)
    returns (r: Result<Progress>)
    requires Prepared(layout, a, rank, anc)
    requires curLeaf < |a| && repLeaf < |a| && curLeaf != repLeaf
    requires index < |leafs| && InRange(leafs, |a|)
    ensures layout.Dense? ==> r.Ok?
    ensures r.Ok? ==> SameValues(layout, a, r.value.nodes, rank) && Prepared(layout, r.value.nodes, rank, anc)
    ensures r.Ok? ==> |r.value.leafs| == |leafs| && InRange(r.value.leafs, |a|) && marks <= r.value.marks
    ensures !EqAt(a, rank, curLeaf, repLeaf) ==> r == Ok(Progress(a, leafs, marks))
    ensures r.Ok? && EqAt(a, rank, curLeaf, repLeaf) ==>
              exists k: nat :: MatchApplied(layout, a, rank, anc, leafs, curLeaf, repLeaf, index, marks, r.value, k)
  {
    var matchFound, cur, rep, curDesc, repDesc, k := ClimbWhileEqual(layout, a, rank, anc, curLeaf, repLeaf);
    if !matchFound {
      SameValuesRefl(layout, a, rank);
      return Ok(Progress(a, leafs, marks));
    }
    var changed := ChangeRefs(layout, a, rank, rep, repDesc, curDesc);
    if changed.Err? {
      return Err(changed.error);
    }
    var b := changed.value;
    MatchStep(layout, a, rank, anc, leafs, curLeaf, repLeaf, index, marks, k, b);
    var count := CountNodes(b, rank, repDesc);
    var leafs', marks' := leafs[index := rep], marks + Span(repDesc, count);
    return Ok(Progress(b, leafs', marks'));
  }

  /** After a match, redirecting the link to the last equal node `d` keeps
      every value and the arrays prepared. */
  lemma MatchStep(layout: Layout, a: seq<Rec>, rank: seq<nat>, anc: seq<nat>, leafs: seq<nat>,
                  curLeaf: nat, repLeaf: nat, index: nat, marks: set<nat>, k: nat, b: seq<Rec>)
    requires Prepared(layout, a, rank, anc) && index < |leafs| && InRange(leafs, |a|)
    requires curLeaf < |a| && repLeaf < |a|
    requires var c, d := Up(anc, curLeaf, k), Up(anc, repLeaf, k);
             Climbed(a, rank, anc, curLeaf, repLeaf, k, c, d) && !EqAt(a, rank, anc[c], anc[d]) &&
             ChangeRefs(layout, a, rank, anc[d], d, c) == Ok(b)
    ensures var d := Up(anc, repLeaf, k);
            SameValues(layout, a, b, rank) && Prepared(layout, b, rank, anc) &&
            CountNodes(b, rank, d) == Size(Unfold(a, rank, d)) &&
            InRange(leafs[index := anc[d]], |a|) &&
            MatchApplied(layout, a, rank, anc, leafs, curLeaf, repLeaf, index, marks,
                         Progress(b, leafs[index := anc[d]], marks + Span(d, Size(Unfold(a, rank, d)))), k)
  {
    var c, d := Up(anc, curLeaf, k), Up(anc, repLeaf, k);
    assert EqAt(a, rank, c, d);
    EqIffUnfold(a, rank, c, d);
    MatchKeepsValues(layout, a, rank, anc, c, d, b);
    CountNodesIsSize(b, rank, d);
    var ls := leafs[index := anc[d]];
    forall i | 0 <= i < |ls| ensures ls[i] < |a| {
      if i != index {
        assert ls[i] == leafs[i];
      }
    }
  }

  lemma MatchKeepsValues(layout: Layout, a: seq<Rec>, rank: seq<nat>, anc: seq<nat>, c: nat, d: nat, b: seq<Rec>)
    requires Prepared(layout, a, rank, anc)
    requires c < |a| && d < |a| && Unfold(a, rank, c) == Unfold(a, rank, d)
    requires ChangeRefs(layout, a, rank, anc[d], d, c) == Ok(b)
    ensures SameValues(layout, a, b, rank) && Prepared(layout, b, rank, anc)
  {
    ChangeRefsKeepsValues(layout, a, rank, anc[d], d, c);
    PreparedKept(layout, a, b, rank, anc);
  }

  // ---------------------------------------------------------------------
  // What the elimination loop keeps track of

  /** Two distinct entries of the leaf list hold `equals` nodes. */
  ghost predicate DuplicateLeafs(a: seq<Rec>, rank: seq<nat>, leafs: seq<nat>)
    requires Ranked(a, rank) && InRange(leafs, |a|)
  {
    exists p, q :: 0 <= p < q < |leafs| && leafs[p] != leafs[q] && EqAt(a, rank, leafs[p], leafs[q])
  }

  /** Every pair of distinct leaf entries before `(i, j)` in the loop order
      holds unequal nodes. */
  ghost predicate Unmatched(a: seq<Rec>, rank: seq<nat>, leafs: seq<nat>, i: nat, j: nat)
    requires Ranked(a, rank) && InRange(leafs, |a|)
  {
    forall p, q :: 0 <= p < q < |leafs| && (p < i || (p == i && q < j)) && leafs[p] != leafs[q] ==>
      !EqAt(a, rank, leafs[p], leafs[q])
  }

  /** Every node but the first is the target of a link of its recorded
      ancestor, as in a dense trie. */
  ghost predicate ParentsLink(a: seq<Rec>, anc: seq<nat>)
  {
    |anc| == |a| && InRange(anc, |a|) &&
    forall m :: 0 < m < |a| ==> Ptr(m) in a[anc[m]].links
  }

  /** Some link of `a` differs from the same link of `nodes`. */
  ghost predicate SomeLinkChanged(nodes: seq<Rec>, a: seq<Rec>)
  {
    exists h, s :: 0 <= h < |a| && h < |nodes| && 0 <= s < |a[h].links| && s < |nodes[h].links| &&
                   a[h].links[s] != nodes[h].links[s]
  }

  /** `a` has the shape of `nodes`, and every link that differs points to a
      node whose recorded ancestor is not the link's owner. */
  ghost predicate ChangedLinksCross(nodes: seq<Rec>, a: seq<Rec>, anc: seq<nat>)
  {
    |a| == |nodes| &&
    forall h :: 0 <= h < |a| ==>
      |a[h].links| == |nodes[h].links| &&
      forall s :: 0 <= s < |a[h].links| ==>
        a[h].links[s] == nodes[h].links[s] ||
        (a[h].links[s].Ptr? && a[h].links[s].h < |anc| && anc[a[h].links[s].h] != h)
  }

  /** What the elimination loop knows before comparing the pair `(i, j)`
      of leaf entries, with `merged` telling whether some comparison
      matched: the state still has the starting values; before any match it
      is the starting state and every earlier pair was unequal; after one
      there are two equal distinct leaves; in a dense graph every changed
      link crosses to a node with another ancestor, and after a match some
      link has changed. */
  ghost predicate Tracked(layout: Layout, nodes: seq<Rec>, rank: seq<nat>, anc: seq<nat>, leafs: seq<nat>,
                          st: Progress, merged: bool, i: nat, j: nat)
    requires Prepared(layout, nodes, rank, anc) && InRange(leafs, |nodes|)
  {
    |st.leafs| == |leafs| && InRange(st.leafs, |nodes|) &&
    SameValues(layout, nodes, st.nodes, rank) &&
    (!merged ==> st == Progress(nodes, leafs, {}) && Unmatched(nodes, rank, leafs, i, j)) &&
    (merged ==> DuplicateLeafs(nodes, rank, leafs)) &&
    (layout.Dense? ==> ChangedLinksCross(nodes, st.nodes, anc)) &&
    (layout.Dense? && merged && ParentsLink(nodes, anc) ==> SomeLinkChanged(nodes, st.nodes))
  }

  /** `eliminateDuplicates()`: the node graph afterwards, or the
      `NullPointerException` a sparse `changeRefs` may raise.  It changes
      nothing exactly when no two distinct leaves are `equals`: without such
      a pair no comparison matches, and in a dense graph in which every
      node is linked from its recorded ancestor the first match redirects a
      link that no later redirect restores. */
  method EliminateDuplicates(layout: Layout, nodes: seq<Rec>, ghost rank: seq<nat>, anc: seq<nat>, leafs: seq<nat>)
    returns (r: Result<seq<Rec>>)
    requires Prepared(layout, nodes, rank, anc) && InRange(leafs, |nodes|)
    ensures layout.Dense? ==> r.Ok?
    ensures r.Ok? ==> SameValues(layout, nodes, r.value, rank) && Prepared(layout, r.value, rank, anc)
    ensures !DuplicateLeafs(nodes, rank, leafs) ==> r == Ok(nodes)
    ensures layout.Dense? && ParentsLink(nodes, anc) && DuplicateLeafs(nodes, rank, leafs) ==>
              r.Ok? && r.value != nodes
  {
    var st := Progress(nodes, leafs, {});
    ghost var merged := false;
    SameValuesRefl(layout, nodes, rank);
    var i := 0;
    while i < |leafs| - 1
      invariant 0 <= i
      invariant Tracked(layout, nodes, rank, anc, leafs, st, merged, i, i + 1)
    {
      if st.leafs[i] !in st.marks {
        var res;
        res, merged := CompareWithLater(layout, nodes, rank, anc, leafs, st, i, merged);
        if res.Err? {
          return Err(res.error);
        }
        st := res.value;
      }
      i := i + 1;
    }
    if !merged {
      UnmatchedAll(nodes, rank, leafs, i);
    }
    if layout.Dense? && merged && ParentsLink(nodes, anc) {
      SomeLinkChangedDiffers(nodes, st.nodes);
    }
    return Ok(st.nodes);
  }

  /** The inner loop of `eliminateDuplicates()`: the unmarked leaf at entry
      `i` is compared with every later unmarked entry holding another leaf.
      It fails only on a match, and otherwise carries what the outer loop
      knows over to the next entry. */
  method CompareWithLater(layout: Layout, nodes: seq<Rec>, ghost rank: seq<nat>, anc: seq<nat>, leafs: seq<nat>,
                          st: Progress, i: nat, ghost merged: bool)
    returns (r: Result<Progress>, ghost merged': bool)
    requires Prepared(layout, nodes, rank, anc) && InRange(leafs, |nodes|) && i < |leafs|
    requires Tracked(layout, nodes, rank, anc, leafs, st, merged, i, i + 1) && st.leafs[i] !in st.marks
    ensures layout.Dense? ==> r.Ok?
    ensures r.Ok? ==> Tracked(layout, nodes, rank, anc, leafs, r.value, merged', i + 1, i + 2)
    ensures r.Err? ==> DuplicateLeafs(nodes, rank, leafs)
  {
    var cur := st;
    merged' := merged;
    var curLeaf := st.leafs[i];
    var j := i + 1;
    while j < |cur.leafs|
      invariant i + 1 <= j <= |leafs|
      invariant Tracked(layout, nodes, rank, anc, leafs, cur, merged', i, j)
      invariant !merged' ==> curLeaf == leafs[i]
      invariant curLeaf < |nodes|
    {
      var repLeaf := cur.leafs[j];
      if !(repLeaf in cur.marks || curLeaf == repLeaf) {
        PreparedKept(layout, nodes, cur.nodes, rank, anc);
        var res := CompareAndEliminate(layout, cur.nodes, rank, anc, cur.leafs, curLeaf, repLeaf, j, cur.marks);
        if res.Err? {
          if !merged' {
            NewDuplicate(nodes, rank, leafs, i, j);
          }
          return Err(res.error), merged';
        }
        merged' := TrackCompare(layout, nodes, rank, anc, leafs, cur, merged', i, j, curLeaf, res.value);
        cur := res.value;
      } else {
        TrackSkip(layout, nodes, rank, anc, leafs, cur, merged', i, j, curLeaf);
      }
      j := j + 1;
    }
    TrackNextRow(layout, nodes, rank, anc, leafs, cur, merged', i, j);
    return Ok(cur), merged';
  }

  /** A matching comparison keeps what the loop knows, now with a match. */
  lemma TrackMatch(layout: Layout, nodes: seq<Rec>, rank: seq<nat>, anc: seq<nat>, leafs: seq<nat>,
                   st: Progress, merged: bool, i: nat, j: nat, curLeaf: nat, p: Progress, k: nat)
    requires Prepared(layout, nodes, rank, anc) && InRange(leafs, |nodes|) && i < j < |leafs|
    requires Tracked(layout, nodes, rank, anc, leafs, st, merged, i, j)
    requires !merged ==> curLeaf == leafs[i]
    requires curLeaf < |nodes| && curLeaf != st.leafs[j]
    requires SameValues(layout, st.nodes, p.nodes, rank)
    requires |p.leafs| == |leafs| && InRange(p.leafs, |nodes|)
    requires Prepared(layout, st.nodes, rank, anc) && EqAt(st.nodes, rank, curLeaf, st.leafs[j])
    requires MatchApplied(layout, st.nodes, rank, anc, st.leafs, curLeaf, st.leafs[j], j, st.marks, p, k)
    ensures Tracked(layout, nodes, rank, anc, leafs, p, true, i, j + 1)
  {
    SameValuesTrans(layout, nodes, st.nodes, p.nodes, rank);
    if layout.Dense? {
      DenseMatchKeeps(nodes, st.nodes, rank, anc, st.leafs, curLeaf, st.leafs[j], j, st.marks, p, k);
    }
    if !merged {
      NewDuplicate(nodes, rank, leafs, i, j);
    }
  }

  /** A pair the loop skips keeps what it knows. */
  lemma TrackSkip(layout: Layout, nodes: seq<Rec>, rank: seq<nat>, anc: seq<nat>, leafs: seq<nat>,
                  st: Progress, merged: bool, i: nat, j: nat, curLeaf: nat)
    requires Prepared(layout, nodes, rank, anc) && InRange(leafs, |nodes|) && i < j < |leafs|
    requires Tracked(layout, nodes, rank, anc, leafs, st, merged, i, j)
    requires !merged ==> curLeaf == leafs[i]
    requires st.leafs[j] in st.marks || curLeaf == st.leafs[j]
    ensures Tracked(layout, nodes, rank, anc, leafs, st, merged, i, j + 1)
  {
    if !merged {
      UnmatchedStep(nodes, rank, leafs, i, j);
    }
  }

  /** Past the last entry, the next row of pairs starts. */
  lemma TrackNextRow(layout: Layout, nodes: seq<Rec>, rank: seq<nat>, anc: seq<nat>, leafs: seq<nat>,
                     st: Progress, merged: bool, i: nat, j: nat)
    requires Prepared(layout, nodes, rank, anc) && InRange(leafs, |nodes|) && |leafs| <= j
    requires Tracked(layout, nodes, rank, anc, leafs, st, merged, i, j)
    ensures Tracked(layout, nodes, rank, anc, leafs, st, merged, i + 1, i + 2)
  {
    if !merged {
      UnmatchedNextRow(nodes, rank, leafs, i, j);
    }
  }

  /** A comparison that returned `p` keeps what the loop knows, and records
      whether it matched. */
  lemma TrackCompare(layout: Layout, nodes: seq<Rec>, rank: seq<nat>, anc: seq<nat>, leafs: seq<nat>,
                     st: Progress, merged: bool, i: nat, j: nat, curLeaf: nat, p: Progress) returns (merged': bool)
    requires Prepared(layout, nodes, rank, anc) && InRange(leafs, |nodes|) && i < j < |leafs|
    requires Tracked(layout, nodes, rank, anc, leafs, st, merged, i, j)
    requires !merged ==> curLeaf == leafs[i]
    requires curLeaf < |nodes| && curLeaf != st.leafs[j]
    requires SameValues(layout, st.nodes, p.nodes, rank) && Prepared(layout, p.nodes, rank, anc)
    requires |p.leafs| == |leafs| && InRange(p.leafs, |nodes|)
    requires !EqAt(st.nodes, rank, curLeaf, st.leafs[j]) ==> p == st
    requires EqAt(st.nodes, rank, curLeaf, st.leafs[j]) ==>
               exists k: nat :: MatchApplied(layout, st.nodes, rank, anc, st.leafs, curLeaf, st.leafs[j], j, st.marks, p, k)
    ensures merged' == (merged || EqAt(st.nodes, rank, curLeaf, st.leafs[j]))
    ensures Tracked(layout, nodes, rank, anc, leafs, p, merged', i, j + 1)
  {
    var repLeaf := st.leafs[j];
    PreparedKept(layout, nodes, st.nodes, rank, anc);
    if EqAt(st.nodes, rank, curLeaf, repLeaf) {
      var k: nat :| MatchApplied(layout, st.nodes, rank, anc, st.leafs, curLeaf, repLeaf, j, st.marks, p, k);
      TrackMatch(layout, nodes, rank, anc, leafs, st, merged, i, j, curLeaf, p, k);
      merged' := true;
    } else {
      if !merged {
        UnmatchedStep(nodes, rank, leafs, i, j);
      }
      merged' := merged;
    }
  }


  // ---------------------------------------------------------------------
  // Lemmas

  /** Everything the optimizer relies on survives a change that keeps the
      node values. */
  lemma PreparedKept(layout: Layout, a: seq<Rec>, b: seq<Rec>, rank: seq<nat>, anc: seq<nat>)
    requires Prepared(layout, a, rank, anc)
    requires |b| == |a| && HeightRanked(b, rank) && (layout.Sparse? ==> Binary(b))
    requires forall h :: 0 <= h < |a| ==> Unfold(b, rank, h) == Unfold(a, rank, h)
    ensures Prepared(layout, b, rank, anc)
  {
  }

  /** One step of the climb: two distinct equal nodes are neither of them
      the first node, their ancestors are distinct and larger, and no node
      is larger than the first. */
  lemma ClimbStep(layout: Layout, a: seq<Rec>, rank: seq<nat>, anc: seq<nat>, cur: nat, rep: nat)
    requires Prepared(layout, a, rank, anc)
    requires cur < |a| && rep < |a| && cur != rep && Unfold(a, rank, cur) == Unfold(a, rank, rep)
    ensures 0 < cur && 0 < rep && anc[cur] != anc[rep]
    ensures Size(Unfold(a, rank, cur)) < Size(Unfold(a, rank, anc[cur])) <= Size(Unfold(a, rank, 0))
  {
  }

  /** One turn of the climb: the equal pair (`cur`, `rep`) becomes the last
      equal pair, one step further up than the previous one. */
  lemma ClimbAdvance(layout: Layout, a: seq<Rec>, rank: seq<nat>, anc: seq<nat>, curLeaf: nat, repLeaf: nat,
                     found: bool, k: nat, curDesc: nat, repDesc: nat, cur: nat, rep: nat) returns (k': nat)
    requires Prepared(layout, a, rank, anc) && curLeaf < |a| && repLeaf < |a|
    requires cur < |a| && rep < |a| && cur != rep && EqAt(a, rank, cur, rep)
    requires found ==> Climbed(a, rank, anc, curLeaf, repLeaf, k, curDesc, repDesc) &&
                       cur == anc[curDesc] && rep == anc[repDesc]
    requires !found ==> cur == curLeaf && rep == repLeaf
    ensures k' == if found then k + 1 else 0
    ensures Climbed(a, rank, anc, curLeaf, repLeaf, k', cur, rep) && anc[cur] != anc[rep]
    ensures Size(Unfold(a, rank, cur)) < Size(Unfold(a, rank, anc[cur])) <= Size(Unfold(a, rank, 0))
  {
    EqIffUnfold(a, rank, cur, rep);
    ClimbStep(layout, a, rank, anc, cur, rep);
    if found {
      ClimbedExtend(a, rank, anc, curLeaf, repLeaf, k, curDesc, repDesc);
      k' := k + 1;
    } else {
      ClimbedStart(a, rank, anc, curLeaf, repLeaf);
      k' := 0;
    }
  }

  lemma ClimbedStart(a: seq<Rec>, rank: seq<nat>, anc: seq<nat>, x: nat, y: nat)
    requires Ranked(a, rank) && |anc| == |a| && InRange(anc, |a|) && x < |a| && y < |a|
    requires x != y && EqAt(a, rank, x, y)
    ensures Climbed(a, rank, anc, x, y, 0, x, y)
  {
  }

  /** One more equal pair above the last one extends the climb by a step. */
  lemma ClimbedExtend(a: seq<Rec>, rank: seq<nat>, anc: seq<nat>, x: nat, y: nat, k: nat, c: nat, d: nat)
    requires Ranked(a, rank) && |anc| == |a| && InRange(anc, |a|) && x < |a| && y < |a|
    requires Climbed(a, rank, anc, x, y, k, c, d)
    requires anc[c] != anc[d] && EqAt(a, rank, anc[c], anc[d])
    ensures Climbed(a, rank, anc, x, y, k + 1, anc[c], anc[d])
  {
    forall j | 0 <= j <= k + 1
      ensures EqAt(a, rank, Up(anc, x, j), Up(anc, y, j))
    {
      if j <= k {
        assert LockStep(a, rank, anc, x, y, k);
      }
    }
  }

  /** The last pair a climb saw is equal, and its ancestors differ. */
  lemma DenseMatchKeeps(nodes: seq<Rec>, a: seq<Rec>, rank: seq<nat>, anc: seq<nat>, leafs: seq<nat>,
                        curLeaf: nat, repLeaf: nat, index: nat, marks: set<nat>, p: Progress, k: nat)
    requires Prepared(Dense, a, rank, anc) && curLeaf < |a| && repLeaf < |a|
    requires MatchApplied(Dense, a, rank, anc, leafs, curLeaf, repLeaf, index, marks, p, k)
    requires ChangedLinksCross(nodes, a, anc)
    ensures ChangedLinksCross(nodes, p.nodes, anc)
    ensures SomeLinkChanged(nodes, a) ==> SomeLinkChanged(nodes, p.nodes)
    ensures a == nodes && ParentsLink(nodes, anc) ==> SomeLinkChanged(nodes, p.nodes)
  {
    var c, d := Up(anc, curLeaf, k), Up(anc, repLeaf, k);
    assert EqAt(a, rank, c, d);
    EqIffUnfold(a, rank, c, d);
    ClimbStep(Dense, a, rank, anc, c, d);
    assert anc[c] != anc[d];
    RedirectCross(nodes, a, anc, c, d);
  }

  /** A dense redirect of a link from `anc[d]` to `d` towards a node `c`
      with another ancestor keeps every changed link crossing, keeps a
      changed link changed, and on the original graph changes the link. */
  lemma RedirectCross(nodes: seq<Rec>, a: seq<Rec>, anc: seq<nat>, c: nat, d: nat)
    requires ChangedLinksCross(nodes, a, anc) && |anc| == |a| && InRange(anc, |a|)
    requires c < |a| && d < |a| && anc[c] != anc[d]
    ensures var b := ChangeRefsDense(a, anc[d], d, c);
            ChangedLinksCross(nodes, b, anc) &&
            (SomeLinkChanged(nodes, a) ==> SomeLinkChanged(nodes, b)) &&
            (a == nodes && Ptr(d) in a[anc[d]].links ==> SomeLinkChanged(nodes, b))
  {
    var g := anc[d];
    var b := ChangeRefsDense(a, g, d, c);
    var i := FirstSlot(a[g].links, d, 0);
    if i < |a[g].links| {
      assert b == Redirect(a, g, i, c);
      assert b[g].links[i] == Ptr(c);
      if SomeLinkChanged(nodes, a) {
        var h, s :| 0 <= h < |a| && h < |nodes| && 0 <= s < |a[h].links| && s < |nodes[h].links| &&
                    a[h].links[s] != nodes[h].links[s];
        assert h != g || s != i;
        assert b[h].links[s] == a[h].links[s];
      }
      if a == nodes {
        assert b[g].links[i] != nodes[g].links[i];
      }
    }
  }

  lemma SomeLinkChangedDiffers(nodes: seq<Rec>, a: seq<Rec>)
    requires SomeLinkChanged(nodes, a)
    ensures a != nodes
  {
  }

  lemma NewDuplicate(a: seq<Rec>, rank: seq<nat>, leafs: seq<nat>, i: nat, j: nat)
    requires Ranked(a, rank) && InRange(leafs, |a|) && i < j < |leafs|
    requires leafs[i] != leafs[j] && EqAt(a, rank, leafs[i], leafs[j])
    ensures DuplicateLeafs(a, rank, leafs)
  {
  }

  lemma UnmatchedStep(a: seq<Rec>, rank: seq<nat>, leafs: seq<nat>, i: nat, j: nat)
    requires Ranked(a, rank) && InRange(leafs, |a|) && i < j < |leafs| && Unmatched(a, rank, leafs, i, j)
    requires leafs[i] == leafs[j] || !EqAt(a, rank, leafs[i], leafs[j])
    ensures Unmatched(a, rank, leafs, i, j + 1)
  {
  }

  lemma UnmatchedNextRow(a: seq<Rec>, rank: seq<nat>, leafs: seq<nat>, i: nat, j: nat)
    requires Ranked(a, rank) && InRange(leafs, |a|) && |leafs| <= j && Unmatched(a, rank, leafs, i, j)
    ensures Unmatched(a, rank, leafs, i + 1, i + 2)
  {
  }

  lemma UnmatchedAll(a: seq<Rec>, rank: seq<nat>, leafs: seq<nat>, i: nat)
    requires Ranked(a, rank) && InRange(leafs, |a|) && |leafs| <= i + 1 && Unmatched(a, rank, leafs, i, i + 1)
    ensures !DuplicateLeafs(a, rank, leafs)
  {
  }

  lemma SameValuesRefl(layout: Layout, a: seq<Rec>, rank: seq<nat>)
    requires HeightRanked(a, rank) && (layout.Sparse? ==> Binary(a))
    ensures SameValues(layout, a, a, rank)
  {
  }

  lemma SameValuesTrans(layout: Layout, a: seq<Rec>, b: seq<Rec>, c: seq<Rec>, rank: seq<nat>)
    requires SameValues(layout, a, b, rank) && SameValues(layout, b, c, rank)
    ensures SameValues(layout, a, c, rank)
  {
  }
}
