/** The dense node layout (`ArrayNode`): one child slot per alphabet symbol.

    A dense node is a `Trees.Tree` whose links are its slots; an absent slot
    holds `Nil`.  The slot count is fixed when the node is created. */
module ArrayNodes {
  import opened Trees

  /** `new ArrayNode(letter, EOW, size)`. */
  function Create(letter: char, eow: bool, size: nat): Tree
  {
    Node(letter, eow, seq(size, _ => Nil))
  }

  /** `numberOfDescendants()`: the length of the slot array. */
  function NumberOfDescendants(n: Tree): nat
    requires n.Node?
  {
    |n.links|
  }

  function GetChild(n: Tree, pos: nat): Tree
    requires n.Node? && pos < NumberOfDescendants(n)
  {
    n.links[pos]
  }

  function AddChild(n: Tree, child: Tree, pos: nat): Tree
    requires n.Node? && pos < NumberOfDescendants(n)
  {
    n.(links := n.links[pos := child])
  }

  function SetAsEOW(n: Tree): Tree
    requires n.Node?
  {
    n.(eow := true)
  }

  /** `equals`: same letter, same end-of-word flag, and `Arrays.equals` on the
      slot arrays (same length, slot-wise equal, null matching only null). */
  predicate Equals(x: Tree, y: Tree)
    requires x.Node? && y.Node?
    decreases x, 1
  {
    x.letter == y.letter && x.eow == y.eow && SlotsEqual(x.links, y.links)
  }

  predicate SlotsEqual(a: seq<Tree>, b: seq<Tree>)
    decreases a, 3
  {
    |a| == |b| && forall i :: 0 <= i < |a| ==> SlotEqual(a[i], b[i])
  }

  /** `Objects.equals` on two slots. */
  predicate SlotEqual(a: Tree, b: Tree)
    decreases a, 2
  {
    if a.Nil? || b.Nil? then a.Nil? && b.Nil? else Equals(a, b)
  }

  /** `weakCopy`: same letter and flag, same slot count, all slots empty. */
  function WeakCopy(n: Tree): Tree
    requires n.Node?
  {
    Create(n.letter, n.eow, |n.links|)
  }

  /** `newInstance`: a weak copy of the root whose slots are then filled by `copy`. */
  function NewInstance(n: Tree): Tree
    requires n.Node?
    decreases n, 1
  {
    CopyFrom(n, WeakCopy(n), 0)
  }

  /** The loop of `copy(ancestor, copyAncestor)` from slot `i` on: every
      present slot of the original receives a deep copy at the same position. */
  function CopyFrom(n: Tree, c: Tree, i: nat): Tree
    requires n.Node? && c.Node? && |c.links| == |n.links| && i <= |n.links|
    decreases n, 0, |n.links| - i
  {
    if i == |n.links| then c
    else if n.links[i].Nil? then CopyFrom(n, c, i + 1)
    else CopyFrom(n, AddChild(c, NewInstance(n.links[i]), i), i + 1)
  }

  // ---------------------------------------------------------------------
  // Properties

  /** Node equality is exactly structural equality of the node values:
      reflexive, and true only for identical letters, flags and slots. */
  lemma {:induction false} EqualsIsStructural(x: Tree, y: Tree)
    requires x.Node? && y.Node?
    ensures Equals(x, y) <==> x == y
    decreases x
  {
    if x.letter == y.letter && x.eow == y.eow && |x.links| == |y.links| {
      forall i | 0 <= i < |x.links|
        ensures SlotEqual(x.links[i], y.links[i]) <==> x.links[i] == y.links[i]
      {
        if x.links[i].Node? && y.links[i].Node? {
          EqualsIsStructural(x.links[i], y.links[i]);
        }
      }
      if SlotsEqual(x.links, y.links) {
        assert x.links == y.links;
      }
    }
  }

  /** Slot `pos` holds the new child and no other slot, letter or flag changes. */
  lemma AddChildOverwritesOneSlot(n: Tree, child: Tree, pos: nat)
    requires n.Node? && pos < NumberOfDescendants(n)
    ensures AddChild(n, child, pos).Node?
    ensures GetChild(AddChild(n, child, pos), pos) == child
    ensures NumberOfDescendants(AddChild(n, child, pos)) == NumberOfDescendants(n)
    ensures forall i :: 0 <= i < NumberOfDescendants(n) && i != pos ==>
              GetChild(AddChild(n, child, pos), i) == GetChild(n, i)
    ensures AddChild(n, child, pos).letter == n.letter && AddChild(n, child, pos).eow == n.eow
  {
  }

  /** `setAsEOW` only ever raises the flag, is idempotent, and touches nothing else. */
  lemma SetAsEOWMonotone(n: Tree)
    requires n.Node?
    ensures SetAsEOW(n).eow
    ensures SetAsEOW(SetAsEOW(n)) == SetAsEOW(n)
    ensures n.eow ==> SetAsEOW(n) == n
    ensures SetAsEOW(n).letter == n.letter && SetAsEOW(n).links == n.links
  {
  }

  /** The slot count is the size given at construction, whatever is stored. */
  lemma NumberOfDescendantsIsSlotCount(letter: char, eow: bool, size: nat, child: Tree, pos: nat)
    requires pos < size
    ensures NumberOfDescendants(Create(letter, eow, size)) == size
    ensures NumberOfDescendants(AddChild(Create(letter, eow, size), child, pos)) == size
    ensures forall i :: 0 <= i < size ==> GetChild(Create(letter, eow, size), i) == Nil
  {
  }

  /** The copy loop keeps the slots before `i` that it has already filled and
      ends with the original's slots, each copied in place. */
  lemma {:induction false} CopyFromFills(n: Tree, c: Tree, i: nat)
    requires n.Node? && c.Node? && |c.links| == |n.links| && i <= |n.links|
    requires forall k :: 0 <= k < i ==> c.links[k] == n.links[k]
    requires forall k :: i <= k < |n.links| ==> c.links[k] == Nil
    ensures CopyFrom(n, c, i) == Node(c.letter, c.eow, n.links)
    decreases n, 0, |n.links| - i
  {
    if i == |n.links| {
      assert c.links == n.links;
    } else if n.links[i].Nil? {
      CopyFromFills(n, c, i + 1);
    } else {
      NewInstanceIsCopy(n.links[i]);
      CopyFromFills(n, AddChild(c, NewInstance(n.links[i]), i), i + 1);
    }
  }

  /** `newInstance` returns a deep copy equal to the original: same letter and
      flag, same slot count, and slot `i` of the copy equal to slot `i` of the
      original (absent slots stay absent). */
  lemma {:induction false} NewInstanceIsCopy(n: Tree)
    requires n.Node?
    ensures NewInstance(n) == n
    ensures Equals(NewInstance(n), n)
    ensures NumberOfDescendants(NewInstance(n)) == NumberOfDescendants(n)
    ensures forall i :: 0 <= i < NumberOfDescendants(n) ==>
              (GetChild(NewInstance(n), i).Nil? <==> GetChild(n, i).Nil?)
    decreases n, 1
  {
    CopyFromFills(n, WeakCopy(n), 0);
    EqualsIsStructural(NewInstance(n), n);
  }
}
