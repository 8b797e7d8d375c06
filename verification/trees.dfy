/** Node values shared by both node layouts.

    A `Tree` is the value a node denotes once every reference below it has
    been followed: `Nil` is a null reference, `Node` carries the letter, the
    end-of-word flag and the outgoing links in order.  The dense layout
    (`ArrayNode`) stores its alphabet slots as the links; the sparse layout
    (`LinkedNode`) is mapped to links `[child, brother]` by `LinkedNode.ToTree`. */
module Trees {

  datatype Tree = Nil | Node(letter: char, eow: bool, links: seq<Tree>)

  /** Number of `Node` values in a tree, counting shared subtrees once per occurrence. */
  function Size(t: Tree): nat
  {
    match t
    case Nil => 0
    case Node(_, _, links) => 1 + SizeAll(links)
  }

  function SizeAll(ts: seq<Tree>): nat
  {
    if ts == [] then 0 else Size(ts[0]) + SizeAll(ts[1..])
  }

  /** Length of the longest chain of links below a tree. */
  function Height(t: Tree): nat
  {
    match t
    case Nil => 0
    case Node(_, _, links) => 1 + HeightAll(links)
  }

  function HeightAll(ts: seq<Tree>): nat
  {
    if ts == [] then 0 else Max(Height(ts[0]), HeightAll(ts[1..]))
  }

  function Max(a: nat, b: nat): nat
  {
    if a < b then b else a
  }

  lemma {:induction false} SizeAllAppend(xs: seq<Tree>, ys: seq<Tree>)
    ensures SizeAll(xs + ys) == SizeAll(xs) + SizeAll(ys)
    decreases |xs|
  {
    if xs == [] {
      assert xs + ys == ys;
    } else {
      assert (xs + ys)[1..] == xs[1..] + ys;
      SizeAllAppend(xs[1..], ys);
    }
  }

  /** The size of a prefix of the links one longer than `ts[..i]`. */
  lemma SizeAllPrefixStep(ts: seq<Tree>, i: nat)
    requires i < |ts|
    ensures SizeAll(ts[..i+1]) == SizeAll(ts[..i]) + Size(ts[i])
  {
    assert ts[..i+1] == ts[..i] + [ts[i]];
    SizeAllAppend(ts[..i], [ts[i]]);
    assert [ts[i]][1..] == [];
  }

  lemma SizeAllPrefixBound(ts: seq<Tree>, i: nat)
    requires i <= |ts|
    ensures SizeAll(ts[..i]) + SizeAll(ts[i..]) == SizeAll(ts)
  {
    assert ts == ts[..i] + ts[i..];
    SizeAllAppend(ts[..i], ts[i..]);
  }

  /** Every link of a node is strictly shorter than the node itself. */
  lemma {:induction false} HeightOfLink(ts: seq<Tree>, i: nat)
    requires i < |ts|
    ensures Height(ts[i]) <= HeightAll(ts)
    decreases i
  {
    if i > 0 {
      HeightOfLink(ts[1..], i - 1);
      assert ts[1..][i-1] == ts[i];
    }
  }

  /** Every link of a node is no larger than the node's links together. */
  lemma {:induction false} SizeOfLink(ts: seq<Tree>, i: nat)
    requires i < |ts|
    ensures Size(ts[i]) <= SizeAll(ts)
    decreases i
  {
    if i > 0 {
      SizeOfLink(ts[1..], i - 1);
      assert ts[1..][i-1] == ts[i];
    }
  }

  /** Number of end-of-word nodes, counting shared subtrees once per occurrence. */
  function EowCount(t: Tree): nat
  {
    match t
    case Nil => 0
    case Node(_, eow, links) => (if eow then 1 else 0) + EowCountAll(links)
  }

  function EowCountAll(ts: seq<Tree>): nat
  {
    if ts == [] then 0 else EowCount(ts[0]) + EowCountAll(ts[1..])
  }

  /** Replacing one link changes the count by the difference of the two links. */
  lemma {:induction false} EowCountAllUpdate(ts: seq<Tree>, i: nat, x: Tree)
    requires i < |ts|
    ensures EowCountAll(ts[i := x]) + EowCount(ts[i]) == EowCountAll(ts) + EowCount(x)
    decreases i
  {
    if i > 0 {
      EowCountAllUpdate(ts[1..], i - 1, x);
      assert ts[i := x][1..] == ts[1..][i - 1 := x];
    } else {
      assert ts[i := x][1..] == ts[1..];
    }
  }
}
