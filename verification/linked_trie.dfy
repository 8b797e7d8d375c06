/** The sparse trie without an alphabet (`LinkedTrie` of the second source
    tree): any character is accepted.  Children of a node form a brother chain
    in insertion order; words are found by scanning that chain letter by letter. */
module LinkedTrie {
  import opened Outcome
  import opened LinkedNodes
  import LinkedCodec

  datatype LinkedTrie = LinkedTrie(size: int, root: LinkedNode)

  /** The letter of `new LinkedNode()`: Java's default `char`. */
  const RootLetter: char := '\0'

  /** `new LinkedTrie()`: no words, a root with no child. */
  function Empty(): LinkedTrie
  {
    LinkedTrie(0, Node(RootLetter, false, Nil, Nil))
  }

  // ---------------------------------------------------------------------
  // Chain primitives

  /** `listScan`: the first node of the chain carrying `letter`, or null. */
  function ListScan(chain: LinkedNode, letter: char): LinkedNode
  {
    if chain.Nil? then Nil
    else if chain.letter == letter then chain
    else ListScan(chain.brother, letter)
  }

  /** `chain.getLastBrother().setBrother(x)`, written back along the chain. */
  function AppendBrother(chain: LinkedNode, x: LinkedNode): LinkedNode
    requires chain.Node?
  {
    if chain.brother.Nil? then SetBrother(chain, x)
    else SetBrother(chain, AppendBrother(chain.brother, x))
  }

  /** `addNewChild`: the new node becomes the first child, or the brother of
      the last child. */
  function AddNewChild(ancestor: LinkedNode, newChild: LinkedNode): LinkedNode
    requires ancestor.Node?
  {
    if ancestor.child.Nil? then SetChild(ancestor, newChild)
    else SetChild(ancestor, AppendBrother(ancestor.child, newChild))
  }

  /** Writes back a node that `listScan` found: the first node of the chain
      carrying `letter` is replaced by `x`. */
  function ReplaceFirst(chain: LinkedNode, letter: char, x: LinkedNode): LinkedNode
  {
    if chain.Nil? then Nil
    else if chain.letter == letter then x
    else SetBrother(chain, ReplaceFirst(chain.brother, letter, x))
  }

  /** `checkNodeIfExists`: the node with its flag raised when it ends the
      word, and the increment of the word count. */
  function CheckNodeIfExists(node: LinkedNode, eow: bool): (LinkedNode, nat)
    requires node.Node?
  {
    if eow && !node.eow then (SetAsEOW(node), 1) else (node, 0)
  }

  // ---------------------------------------------------------------------
  // Insertion

  /** The loop of `add` from node `n` on: the remaining letters `w` are
      inserted below `n`.  Returns the new node and the increment of `size`. */
  function AddBelow(n: LinkedNode, w: string): (r: (LinkedNode, nat))
    requires n.Node?
    ensures r.0.Node? && r.0.letter == n.letter && r.0.eow == n.eow && r.0.brother == n.brother
    decreases |w|, 1
  {
    if w == [] then (n, 0) else CreateNodeIfNeeds(n, w)
  }

  /** `createNodeIfNeeds(ancestor, w[0], |w| == 1)` followed by the rest of the
      loop below the node it returns. */
  function CreateNodeIfNeeds(ancestor: LinkedNode, w: string): (r: (LinkedNode, nat))
    requires ancestor.Node? && |w| > 0
    ensures r.0.Node? && r.0.letter == ancestor.letter && r.0.eow == ancestor.eow
    ensures r.0.brother == ancestor.brother
    decreases |w|, 0
  {
    var last := |w| == 1;
    var child := ListScan(ancestor.child, w[0]);
    if child.Nil? then
      var (created, d) := AddBelow(Node(w[0], last, Nil, Nil), w[1..]);
      (AddNewChild(ancestor, created), (if last then 1 else 0) + d)
    else
      var (checked, d0) := CheckNodeIfExists(child, last);
      var (updated, d) := AddBelow(checked, w[1..]);
      (SetChild(ancestor, ReplaceFirst(ancestor.child, w[0], updated)), d0 + d)
  }

  /** `add`. */
  function Add(t: LinkedTrie, w: string): LinkedTrie
    requires t.root.Node?
  {
    var (root, d) := AddBelow(t.root, w);
    LinkedTrie(t.size + d, root)
  }

  // ---------------------------------------------------------------------
  // Queries

  /** `searchNodeBySequence` from node `n`. */
  function Search(n: LinkedNode, w: string): LinkedNode
    requires n.Node?
    decreases |w|
  {
    if w == [] then n
    else if n.child.Nil? then Nil
    else
      var next := ListScan(n.child, w[0]);
      if next.Nil? then Nil else Search(next, w[1..])
  }

  predicate Contains(t: LinkedTrie, w: string)
    requires t.root.Node?
  {
    var last := Search(t.root, w);
    last.Node? && last.eow
  }

  predicate IsPrefix(t: LinkedTrie, w: string)
    requires t.root.Node?
  {
    Search(t.root, w).Node?
  }

  function Size(t: LinkedTrie): int
  {
    t.size
  }

  predicate IsEmpty(t: LinkedTrie)
  {
    t.size == 0
  }

  /** `clear`: size 0 and the root loses its child. */
  function Clear(t: LinkedTrie): LinkedTrie
    requires t.root.Node?
  {
    LinkedTrie(0, SetChild(t.root, Nil))
  }

  /** The copy constructor `new LinkedTrie(trie)`. */
  function Copy(t: LinkedTrie): LinkedTrie
    requires t.root.Node?
  {
    LinkedTrie(t.size, NewInstance(t.root))
  }

  predicate Equals(t: LinkedTrie, u: LinkedTrie)
    requires t.root.Node? && u.root.Node?
  {
    t.size == u.size && LinkedNodes.Equals(t.root, u.root)
  }

  /** `writeExternal`: the size, then the pre-order encoding of the root. */
  function WriteExternal(t: LinkedTrie): (int, seq<char>)
    requires t.root.Node?
  {
    (t.size, LinkedCodec.SerializeSubtrie(t.root))
  }

  /** `readExternal`. */
  function ReadExternal(size: int, chars: seq<char>): Result<LinkedTrie>
  {
    var root :- LinkedCodec.DeserializeSubtrie(chars);
    Ok(LinkedTrie(size, root))
  }

  // ---------------------------------------------------------------------
  // Reference semantics

  ghost predicate IsPrefixOf(v: string, w: string)
  {
    |v| <= |w| && w[..|v|] == v
  }

  /** The node value without its brother chain: what a query sees of a node. */
  function Detach(m: LinkedNode): LinkedNode
  {
    if m.Nil? then Nil else m.(brother := Nil)
  }

  /** The word `w` ends at an end-of-word node below `n`. */
  ghost predicate EndsWord(n: LinkedNode, w: string)
    requires n.Node?
  {
    Search(n, w).Node? && Search(n, w).eow
  }

  /** Structural invariant of a trie: a root without brother or end-of-word
      flag, and a size equal to the number of end-of-word nodes. */
  ghost predicate Valid(t: LinkedTrie)
  {
    t.root.Node? && t.root.brother.Nil? && !t.root.eow &&
    t.size == LinkedCodec.EowCount(t.root) && WellFormed(t.root)
  }

  /** The letters of a brother chain, in chain order. */
  function Letters(chain: LinkedNode): seq<char>
  {
    if chain.Nil? then [] else [chain.letter] + Letters(chain.brother)
  }

  ghost predicate Distinct(s: seq<char>)
  {
    forall i, j :: 0 <= i < j < |s| ==> s[i] != s[j]
  }

  /** Every child chain reachable from `n` holds pairwise distinct letters. */
  ghost predicate WellFormed(n: LinkedNode)
  {
    n.Nil? || (Distinct(Letters(n.child)) && WellFormed(n.child) && WellFormed(n.brother))
  }

  // ---------------------------------------------------------------------
  // Lemmas on the chain primitives

  lemma {:induction false} ListScanFinds(chain: LinkedNode, letter: char)
    ensures ListScan(chain, letter).Node? ==> ListScan(chain, letter).letter == letter
    ensures ListScan(chain, letter).Nil? <==> forall m :: m in Chain(chain) ==> m.Node? && m.letter != letter
  {
    if chain.Node? {
      ListScanFinds(chain.brother, letter);
    }
  }

  lemma {:induction false} AppendBrotherScan(chain: LinkedNode, x: LinkedNode, e: char)
    requires chain.Node? && x.Node? && x.brother.Nil?
    requires ListScan(chain, x.letter).Nil?
    ensures Detach(ListScan(AppendBrother(chain, x), e)) ==
            if e == x.letter then x else Detach(ListScan(chain, e))
    ensures LinkedCodec.EowCount(AppendBrother(chain, x)) == LinkedCodec.EowCount(chain) + LinkedCodec.EowCount(x)
  {
    if chain.brother.Node? {
      AppendBrotherScan(chain.brother, x, e);
    }
  }

  lemma AddNewChildScan(ancestor: LinkedNode, x: LinkedNode, e: char)
    requires ancestor.Node? && x.Node? && x.brother.Nil?
    requires ListScan(ancestor.child, x.letter).Nil?
    ensures AddNewChild(ancestor, x).child.Node?
    ensures Detach(ListScan(AddNewChild(ancestor, x).child, e)) ==
            if e == x.letter then x else Detach(ListScan(ancestor.child, e))
    ensures LinkedCodec.EowCount(AddNewChild(ancestor, x)) == LinkedCodec.EowCount(ancestor) + LinkedCodec.EowCount(x)
  {
    if ancestor.child.Node? {
      AppendBrotherScan(ancestor.child, x, e);
    }
  }

  lemma {:induction false} ReplaceFirstScan(chain: LinkedNode, letter: char, x: LinkedNode, e: char)
    requires ListScan(chain, letter).Node?
    requires x.Node? && x.letter == letter && x.brother == ListScan(chain, letter).brother
    ensures ReplaceFirst(chain, letter, x).Node?
    ensures Detach(ListScan(ReplaceFirst(chain, letter, x), e)) ==
            if e == letter then Detach(x) else Detach(ListScan(chain, e))
    ensures LinkedCodec.EowCount(ReplaceFirst(chain, letter, x)) + LinkedCodec.EowCount(ListScan(chain, letter)) ==
            LinkedCodec.EowCount(chain) + LinkedCodec.EowCount(x)
  {
    if chain.letter != letter {
      ReplaceFirstScan(chain.brother, letter, x, e);
    }
  }

  /** A search below a node sees only the node's letter, flag and child. */
  lemma SearchSeesDetached(a: LinkedNode, b: LinkedNode, v: string)
    requires a.Node? && b.Node? && Detach(a) == Detach(b)
    ensures Detach(Search(a, v)) == Detach(Search(b, v))
  {
    assert a.child == Detach(a).child && b.child == Detach(b).child;
  }

  /** Search below a freshly created node that has no child yet. */
  lemma SearchFresh(c: char, eow: bool, v: string)
    ensures var m := Search(Node(c, eow, Nil, Nil), v);
      if v == [] then m == Node(c, eow, Nil, Nil) else m.Nil?
  {
  }

  // ---------------------------------------------------------------------
  // The effect of an insertion

  /** Inserting `w` below `n` increments the count exactly when `w` was not
      yet a word, and the number of end-of-word nodes grows by that increment. */
  lemma {:induction false} AddBelowCount(n: LinkedNode, w: string)
    requires n.Node?
    ensures AddBelow(n, w).1 == if |w| > 0 && !EndsWord(n, w) then 1 else 0
    ensures LinkedCodec.EowCount(AddBelow(n, w).0) == LinkedCodec.EowCount(n) + AddBelow(n, w).1
    decreases |w|
  {
    if w == [] {
      return;
    }
    assert AddBelow(n, w) == CreateNodeIfNeeds(n, w);
    var c := w[0];
    var last := |w| == 1;
    var child := ListScan(n.child, c);
    ListScanFinds(n.child, c);
    if child.Nil? {
      var created := Node(c, last, Nil, Nil);
      var f := AddBelow(created, w[1..]).0;
      AddBelowCount(created, w[1..]);
      SearchFresh(c, last, w[1..]);
      AddNewChildScan(n, f, c);
    } else {
      var checked := CheckNodeIfExists(child, last).0;
      var u := AddBelow(checked, w[1..]).0;
      AddBelowCount(checked, w[1..]);
      ReplaceFirstScan(n.child, c, u, c);
      assert EndsWord(n, w) == EndsWord(child, w[1..]);
      if w[1..] != [] {
        assert Search(checked, w[1..]) == Search(child, w[1..]);
      }
    }
  }

  /** Inserting `w` below `n` makes every prefix of `w` reachable, raises the
      end-of-word flag exactly at `w` itself and leaves every other search
      result as it was. */
  lemma {:induction false} AddBelowSearch(n: LinkedNode, w: string, v: string)
    requires n.Node?
    ensures IsPrefixOf(v, w) ==>
              Search(AddBelow(n, w).0, v).Node? &&
              (Search(AddBelow(n, w).0, v).eow <==> EndsWord(n, v) || (v == w && |w| > 0))
    ensures !IsPrefixOf(v, w) ==> Detach(Search(AddBelow(n, w).0, v)) == Detach(Search(n, v))
    decreases |w|, 1
  {
    if w == [] {
    } else if v == [] {
      assert IsPrefixOf(v, w);
    } else if ListScan(n.child, w[0]).Nil? {
      SearchNewBranch(n, w, v);
    } else {
      SearchExistingBranch(n, w, v);
    }
  }

  /** A word and a search that part at the first letter. */
  lemma OtherFirstLetter(n: LinkedNode, n': LinkedNode, w: string, v: string)
    requires n.Node? && n'.Node? && |w| > 0 && |v| > 0 && v[0] != w[0]
    requires Detach(ListScan(n'.child, v[0])) == Detach(ListScan(n.child, v[0]))
    ensures !IsPrefixOf(v, w)
    ensures Detach(Search(n', v)) == Detach(Search(n, v))
  {
    if ListScan(n.child, v[0]).Node? {
      SearchSeesDetached(ListScan(n'.child, v[0]), ListScan(n.child, v[0]), v[1..]);
    }
  }

  /** The case of `AddBelowSearch` where the first letter is new below `n`. */
  lemma {:induction false} SearchNewBranch(n: LinkedNode, w: string, v: string)
    requires n.Node? && |w| > 0 && |v| > 0 && ListScan(n.child, w[0]).Nil?
    ensures IsPrefixOf(v, w) ==>
              Search(AddBelow(n, w).0, v).Node? &&
              (Search(AddBelow(n, w).0, v).eow <==> EndsWord(n, v) || v == w)
    ensures !IsPrefixOf(v, w) ==> Detach(Search(AddBelow(n, w).0, v)) == Detach(Search(n, v))
    decreases |w|, 0
  {
    assert AddBelow(n, w) == CreateNodeIfNeeds(n, w);
    var c := w[0];
    var last := |w| == 1;
    var created := Node(c, last, Nil, Nil);
    var f := AddBelow(created, w[1..]).0;
    var n' := AddNewChild(n, f);
    assert AddBelow(n, w).0 == n';
    AddNewChildScan(n, f, v[0]);
    if v[0] == c {
      AddBelowSearch(created, w[1..], v[1..]);
      SearchFresh(c, last, v[1..]);
      ListScanFinds(n.child, c);
      assert IsPrefixOf(v, w) <==> IsPrefixOf(v[1..], w[1..]);
      SearchSeesDetached(ListScan(n'.child, c), f, v[1..]);
      if IsPrefixOf(v, w) {
        assert v == w <==> v[1..] == w[1..];
      }
    } else {
      OtherFirstLetter(n, n', w, v);
    }
  }

  /** The case of `AddBelowSearch` where the first letter already has a node. */
  lemma {:induction false} SearchExistingBranch(n: LinkedNode, w: string, v: string)
    requires n.Node? && |w| > 0 && |v| > 0 && ListScan(n.child, w[0]).Node?
    ensures IsPrefixOf(v, w) ==>
              Search(AddBelow(n, w).0, v).Node? &&
              (Search(AddBelow(n, w).0, v).eow <==> EndsWord(n, v) || v == w)
    ensures !IsPrefixOf(v, w) ==> Detach(Search(AddBelow(n, w).0, v)) == Detach(Search(n, v))
    decreases |w|, 0
  {
    assert AddBelow(n, w) == CreateNodeIfNeeds(n, w);
    var c := w[0];
    var last := |w| == 1;
    var child := ListScan(n.child, c);
    ListScanFinds(n.child, c);
    var checked := CheckNodeIfExists(child, last).0;
    var u := AddBelow(checked, w[1..]).0;
    var n' := SetChild(n, ReplaceFirst(n.child, c, u));
    assert AddBelow(n, w).0 == n';
    ReplaceFirstScan(n.child, c, u, v[0]);
    if v[0] == c {
      AddBelowSearch(checked, w[1..], v[1..]);
      assert IsPrefixOf(v, w) <==> IsPrefixOf(v[1..], w[1..]);
      SearchSeesDetached(ListScan(n'.child, c), u, v[1..]);
      if v[1..] != [] {
        assert Search(checked, v[1..]) == Search(child, v[1..]);
      }
      if IsPrefixOf(v, w) {
        assert v == w <==> v[1..] == w[1..];
      }
    } else {
      OtherFirstLetter(n, n', w, v);
    }
  }

  // ---------------------------------------------------------------------
  // Chain order and distinct letters

  lemma {:induction false} ListScanLetters(chain: LinkedNode, c: char)
    ensures ListScan(chain, c).Nil? <==> c !in Letters(chain)
  {
    if chain.Node? {
      ListScanLetters(chain.brother, c);
    }
  }

  lemma {:induction false} AppendBrotherOrder(chain: LinkedNode, x: LinkedNode)
    requires chain.Node? && x.Node? && x.brother.Nil?
    ensures Letters(AppendBrother(chain, x)) == Letters(chain) + [x.letter]
    ensures WellFormed(chain) && WellFormed(x) ==> WellFormed(AppendBrother(chain, x))
  {
    if chain.brother.Node? {
      AppendBrotherOrder(chain.brother, x);
    }
  }

  lemma {:induction false} ReplaceFirstOrder(chain: LinkedNode, c: char, x: LinkedNode)
    requires ListScan(chain, c).Node?
    requires x.Node? && x.letter == c && x.brother == ListScan(chain, c).brother
    ensures Letters(ReplaceFirst(chain, c, x)) == Letters(chain)
    ensures WellFormed(chain) && WellFormed(x) ==> WellFormed(ReplaceFirst(chain, c, x))
  {
    if chain.letter != c {
      ReplaceFirstOrder(chain.brother, c, x);
    }
  }

  lemma {:induction false} ListScanWellFormed(chain: LinkedNode, c: char)
    requires WellFormed(chain)
    ensures WellFormed(ListScan(chain, c))
  {
    if chain.Node? && chain.letter != c {
      ListScanWellFormed(chain.brother, c);
    }
  }

  /** A new letter joins the end of its chain (insertion order), an existing
      one keeps the chain's order, and every chain keeps distinct letters. */
  lemma {:induction false} AddBelowOrder(n: LinkedNode, w: string)
    requires n.Node? && WellFormed(n)
    ensures WellFormed(AddBelow(n, w).0)
    ensures |w| > 0 && w[0] !in Letters(n.child) ==>
              Letters(AddBelow(n, w).0.child) == Letters(n.child) + [w[0]]
    ensures |w| > 0 && w[0] in Letters(n.child) ==>
              Letters(AddBelow(n, w).0.child) == Letters(n.child)
    decreases |w|
  {
    if w == [] {
      return;
    }
    assert AddBelow(n, w) == CreateNodeIfNeeds(n, w);
    var c := w[0];
    var last := |w| == 1;
    var child := ListScan(n.child, c);
    ListScanLetters(n.child, c);
    ListScanFinds(n.child, c);
    if child.Nil? {
      var created := Node(c, last, Nil, Nil);
      var f := AddBelow(created, w[1..]).0;
      AddBelowOrder(created, w[1..]);
      if n.child.Node? {
        AppendBrotherOrder(n.child, f);
      }
      var l := Letters(n.child) + [c];
      assert Distinct(l) by {
        forall i, j | 0 <= i < j < |l| ensures l[i] != l[j] {
          if j == |l| - 1 {
            assert l[i] in Letters(n.child);
          }
        }
      }
    } else {
      var checked := CheckNodeIfExists(child, last).0;
      ListScanWellFormed(n.child, c);
      var u := AddBelow(checked, w[1..]).0;
      AddBelowOrder(checked, w[1..]);
      ReplaceFirstOrder(n.child, c, u);
    }
  }

  // ---------------------------------------------------------------------
  // The trie operations against the reference semantics

  lemma EmptyTrie(w: string)
    ensures Valid(Empty()) && IsEmpty(Empty())
    ensures !Contains(Empty(), w)
    ensures IsPrefix(Empty(), w) <==> w == []
  {
  }

  /** After `add(w)` the trie holds exactly its former words and `w`, unless
      `w` is empty, which `add` accepts without storing. */
  lemma AddContains(t: LinkedTrie, w: string, v: string)
    requires t.root.Node?
    ensures Contains(Add(t, w), v) <==> Contains(t, v) || (v == w && |w| > 0)
  {
    AddBelowSearch(t.root, w, v);
  }

  /** After `add(w)` the prefixes are the former ones and those of `w`. */
  lemma AddIsPrefix(t: LinkedTrie, w: string, v: string)
    requires t.root.Node?
    ensures IsPrefix(Add(t, w), v) <==> IsPrefix(t, v) || IsPrefixOf(v, w)
  {
    AddBelowSearch(t.root, w, v);
  }

  /** `add` keeps the invariant, and `size` grows by one exactly when a new
      non-empty word arrives. */
  lemma AddKeepsValid(t: LinkedTrie, w: string)
    requires Valid(t)
    ensures Valid(Add(t, w))
    ensures Size(Add(t, w)) == if |w| > 0 && !Contains(t, w) then Size(t) + 1 else Size(t)
  {
    AddBelowCount(t.root, w);
    AddBelowOrder(t.root, w);
  }

  /** `clear` leaves a valid trie with no words; only the root remains. */
  lemma ClearEmpties(t: LinkedTrie, w: string)
    requires Valid(t)
    ensures Valid(Clear(t)) && IsEmpty(Clear(t))
    ensures !Contains(Clear(t), w)
    ensures IsPrefix(Clear(t), w) <==> w == []
  {
  }

  /** The copy holds the same trie, and `equals` is structural equality. */
  lemma CopyEquals(t: LinkedTrie, u: LinkedTrie)
    requires t.root.Node? && u.root.Node?
    ensures Copy(t) == t && Equals(Copy(t), t)
    ensures Equals(t, u) <==> t == u
  {
    NewInstanceIsCopy(t.root);
    EqualsIsStructural(t.root, t.root);
    EqualsIsStructural(t.root, u.root);
  }

  /** Reading back what `writeExternal` wrote gives the same trie, provided
      no letter is one of the two marker characters. */
  lemma ExternalRoundTrip(t: LinkedTrie)
    requires t.root.Node? && LinkedCodec.NoReservedLetters(t.root)
    ensures ReadExternal(WriteExternal(t).0, WriteExternal(t).1) == Ok(t)
  {
    LinkedCodec.RoundTrip(t.root);
  }

  /** The external form is not faithful for the marker letters.  The word
      `"*"` is written as `'\0' '*' '*' ')' ')' ')'`, and the decoder reads the
      first `'*'` as the root's end-of-word flag: the trie read back holds
      the empty word and not `"*"`.  A `')'` letter is read as a null link,
      so the word `")"` does not survive either. */
  lemma MarkerWordsCorrupted()
    ensures var t := Add(Empty(), "*");
            WriteExternal(t).1 == ['\0', '*', '*', ')', ')', ')'] &&
            Contains(t, "*") && !Contains(t, "") &&
            var back := ReadExternal(WriteExternal(t).0, WriteExternal(t).1);
            back.Ok? && Contains(back.value, "") && !Contains(back.value, "*")
    ensures var t := Add(Empty(), ")");
            Contains(t, ")") &&
            var back := ReadExternal(WriteExternal(t).0, WriteExternal(t).1);
            back.Ok? && !Contains(back.value, ")")
  {
    var t := Add(Empty(), "*");
    assert t.root == Node(RootLetter, false, Node('*', true, Nil, Nil), Nil);
    var u := Add(Empty(), ")");
    assert u.root == Node(RootLetter, false, Node(')', true, Nil, Nil), Nil);
    assert WriteExternal(u).1 == ['\0', ')', '*', ')', ')', ')'];
    assert LinkedCodec.DeserializeSubtrie(WriteExternal(u).1) ==
           Ok(Node(RootLetter, false, Nil, Node('*', false, Nil, Nil)));
  }

  lemma {:induction false} ReplaceFirstSame(chain: LinkedNode, c: char)
    requires ListScan(chain, c).Node?
    ensures ReplaceFirst(chain, c, ListScan(chain, c)) == chain
  {
    if chain.letter != c {
      ReplaceFirstSame(chain.brother, c);
    }
  }

  /** Adding a word that is already stored changes nothing. */
  lemma {:induction false} AddBelowStored(n: LinkedNode, w: string)
    requires n.Node? && (w == [] || EndsWord(n, w))
    ensures AddBelow(n, w) == (n, 0)
    decreases |w|
  {
    if w != [] {
      assert AddBelow(n, w) == CreateNodeIfNeeds(n, w);
      var child := ListScan(n.child, w[0]);
      var checked := CheckNodeIfExists(child, |w| == 1).0;
      if |w| > 1 {
        assert checked == child;
        AddBelowStored(child, w[1..]);
      }
      ReplaceFirstSame(n.child, w[0]);
    }
  }

  /** `add` is idempotent: a second `add` of the same word is a no-op. */
  lemma AddIdempotent(t: LinkedTrie, w: string)
    requires t.root.Node?
    ensures Contains(t, w) ==> Add(t, w) == t
    ensures Add(Add(t, w), w) == Add(t, w)
  {
    if Contains(t, w) {
      AddBelowStored(t.root, w);
    }
    AddBelowSearch(t.root, w, w);
    AddBelowStored(Add(t, w).root, w);
  }
}
