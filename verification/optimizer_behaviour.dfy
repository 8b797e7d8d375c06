/** The two strategies the optimizer is parameterised with
    (`OptimizerBehaviour`): rewriting the one reference from an ancestor to
    a duplicate node (`changeRefs`) and counting the nodes of a subtrie
    (`countNodes`).

    Nodes are records of a shared graph (`Arena`).  A dense record's links
    are its alphabet slots; a sparse record's links are `[child, brother]`. */
module OptimizerBehaviour {
  import opened Outcome
  import opened Trees
  import opened Arena

  datatype Layout = Dense | Sparse

  /** The graph is acyclic and every position is ranked by the height of its
      value.  Redirecting a link to a node with the same value keeps this. */
  ghost predicate HeightRanked(a: seq<Rec>, rank: seq<nat>)
  {
    Ranked(a, rank) && forall h :: 0 <= h < |a| ==> rank[h] == Height(Unfold(a, rank, h))
  }

  /** Every record has exactly the two links of a `LinkedNode`. */
  predicate Binary(a: seq<Rec>)
  {
    forall h :: 0 <= h < |a| ==> |a[h].links| == 2
  }

  /** The first slot, from `i` on, that refers to the object at `target`. */
  function FirstSlot(links: seq<Ref>, target: nat, i: nat): (r: nat)
    requires i <= |links|
    ensures i <= r <= |links|
    ensures r < |links| ==> links[r] == Ptr(target)
    ensures forall j :: i <= j < r ==> links[j] != Ptr(target)
    decreases |links| - i
  {
    if i == |links| || links[i] == Ptr(target) then i else FirstSlot(links, target, i + 1)
  }

  /** Dense `changeRefs`: the first slot of `ancestor` that refers to
      `internal` is made to refer to `dest`; when no slot does, nothing
      changes. */
  function ChangeRefsDense(a: seq<Rec>, ancestor: nat, internal: nat, dest: nat): (r: seq<Rec>)
    requires ancestor < |a|
    ensures |r| == |a|
    ensures (forall i :: 0 <= i < |a[ancestor].links| ==> a[ancestor].links[i] != Ptr(internal)) ==> r == a
    ensures (exists i :: 0 <= i < |a[ancestor].links| && a[ancestor].links[i] == Ptr(internal)) ==>
              exists i :: 0 <= i < |a[ancestor].links| && a[ancestor].links[i] == Ptr(internal) &&
                          (forall j :: 0 <= j < i ==> a[ancestor].links[j] != Ptr(internal)) &&
                          r == Redirect(a, ancestor, i, dest)
  {
    var i := FirstSlot(a[ancestor].links, internal, 0);
    if i == |a[ancestor].links| then a else Redirect(a, ancestor, i, dest)
  }

  /** The positions of the brother chain that starts at `r`. */
  ghost function BrotherChain(a: seq<Rec>, rank: seq<nat>, r: Ref): (c: seq<nat>)
    requires Ranked(a, rank) && Binary(a) && (r.Ptr? ==> r.h < |a|)
    ensures forall g :: g in c ==> g < |a|
    decreases if r.Null? then 0 else rank[r.h] + 1
  {
    if r.Null? then [] else [r.h] + BrotherChain(a, rank, a[r.h].links[1])
  }

  /** The loop of the sparse `changeRefs` that walks the brother chain
      looking for the node whose brother is `internal`; running off the end
      of the chain is the `NullPointerException` of calling a method on
      null. */
  function FindElderBrother(a: seq<Rec>, ghost rank: seq<nat>, r: Ref, internal: nat): (res: Result<nat>)
    requires Ranked(a, rank) && Binary(a) && (r.Ptr? ==> r.h < |a|)
    ensures res.Ok? ==> res.value in BrotherChain(a, rank, r) && a[res.value].links[1] == Ptr(internal)
    ensures res.Err? ==> res.error == NullReference &&
                         forall g :: g in BrotherChain(a, rank, r) ==> a[g].links[1] != Ptr(internal)
    decreases if r.Null? then 0 else rank[r.h] + 1
  {
    if r.Null? then Err(NullReference)
    else if a[r.h].links[1] == Ptr(internal) then Ok(r.h)
    else FindElderBrother(a, rank, a[r.h].links[1], internal)
  }

  /** Sparse `changeRefs`: when the child of `ancestor` is `internal` it is
      replaced by `dest`; otherwise the brother link along the child's chain
      that refers to `internal` is. */
  function ChangeRefsSparse(a: seq<Rec>, ghost rank: seq<nat>, ancestor: nat, internal: nat, dest: nat): (r: Result<seq<Rec>>)
    requires Ranked(a, rank) && Binary(a) && ancestor < |a|
    ensures a[ancestor].links[0] == Ptr(internal) ==> r == Ok(Redirect(a, ancestor, 0, dest))
    ensures a[ancestor].links[0] != Ptr(internal) ==>
              (r.Ok? <==> exists g :: g in BrotherChain(a, rank, a[ancestor].links[0]) && a[g].links[1] == Ptr(internal))
    ensures a[ancestor].links[0] != Ptr(internal) && r.Ok? ==>
              exists g :: g in BrotherChain(a, rank, a[ancestor].links[0]) && a[g].links[1] == Ptr(internal) &&
                          r.value == Redirect(a, g, 1, dest)
  {
    if a[ancestor].links[0] == Ptr(internal) then Ok(Redirect(a, ancestor, 0, dest))
    else
      var g :- FindElderBrother(a, rank, a[ancestor].links[0], internal);
      Ok(Redirect(a, g, 1, dest))
  }

  /** `changeRefs` of either layout; the dense one cannot fail. */
  function ChangeRefs(layout: Layout, a: seq<Rec>, ghost rank: seq<nat>, ancestor: nat, internal: nat, dest: nat): (r: Result<seq<Rec>>)
    requires Ranked(a, rank) && ancestor < |a|
    requires layout.Sparse? ==> Binary(a)
    ensures layout.Dense? ==> r.Ok?
  {
    if layout.Dense? then Ok(ChangeRefsDense(a, ancestor, internal, dest))
    else ChangeRefsSparse(a, rank, ancestor, internal, dest)
  }

  /** `countNodes`: both layouts count every node reachable through the
      links, once per path. */
  function CountNodes(a: seq<Rec>, ghost rank: seq<nat>, h: nat): (r: nat)
    requires Ranked(a, rank) && h < |a|
  {
    Count(a, rank, h)
  }

  // ---------------------------------------------------------------------
  // Properties

  /** Pointing a link that refers to `x` at a node `dest` of the same value
      keeps the graph height-ranked and every position's value. */
  lemma RedirectToEqual(a: seq<Rec>, rank: seq<nat>, g: nat, i: nat, dest: nat)
    requires HeightRanked(a, rank) && g < |a| && i < |a[g].links| && dest < |a|
    requires a[g].links[i].Ptr? && Unfold(a, rank, a[g].links[i].h) == Unfold(a, rank, dest)
    ensures HeightRanked(Redirect(a, g, i, dest), rank)
    ensures forall h :: 0 <= h < |a| ==> Unfold(Redirect(a, g, i, dest), rank, h) == Unfold(a, rank, h)
  {
    RedirectKeepsUnfold(a, rank, g, i, dest);
  }

  /** `changeRefs(ancestor, internal, dest)` with two nodes of the same value
      changes no value anywhere in the graph, and a redirect (if any) is to
      `dest`. */
  lemma ChangeRefsKeepsValues(layout: Layout, a: seq<Rec>, rank: seq<nat>, ancestor: nat, internal: nat, dest: nat)
    requires HeightRanked(a, rank) && ancestor < |a| && internal < |a| && dest < |a|
    requires layout.Sparse? ==> Binary(a)
    requires Unfold(a, rank, internal) == Unfold(a, rank, dest)
    ensures var r := ChangeRefs(layout, a, rank, ancestor, internal, dest);
            r.Ok? ==>
              |r.value| == |a| && HeightRanked(r.value, rank) &&
              (layout.Sparse? ==> Binary(r.value)) &&
              forall h :: 0 <= h < |a| ==> Unfold(r.value, rank, h) == Unfold(a, rank, h)
  {
    var r := ChangeRefs(layout, a, rank, ancestor, internal, dest);
    if r.Ok? {
      if layout.Dense? {
        var i := FirstSlot(a[ancestor].links, internal, 0);
        if i < |a[ancestor].links| {
          RedirectToEqual(a, rank, ancestor, i, dest);
        }
      } else if a[ancestor].links[0] == Ptr(internal) {
        RedirectToEqual(a, rank, ancestor, 0, dest);
      } else {
        var g := FindElderBrother(a, rank, a[ancestor].links[0], internal).value;
        RedirectToEqual(a, rank, g, 1, dest);
      }
    }
  }

  /** `countNodes` is the size of the node's value. */
  lemma CountNodesIsSize(a: seq<Rec>, rank: seq<nat>, h: nat)
    requires Ranked(a, rank) && h < |a|
    ensures CountNodes(a, rank, h) == Size(Unfold(a, rank, h))
  {
    CountIsSize(a, rank, h);
  }
}
