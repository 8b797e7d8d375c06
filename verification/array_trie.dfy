/** The dense trie (`ArrayTrie`).  Every node holds one slot per letter of
    the sorted alphabet; a letter's slot is found by binary search over that
    alphabet.  `add`, `contains` and `isPrefix` translate the whole word into
    slot positions first and reject it when some letter is missing. */
module ArrayTrie {
  import opened Outcome
  import opened Trees
  import opened ArrayNodes
  import opened Alphabets

  datatype ArrayTrie = ArrayTrie(size: int, root: Tree, alphabet: seq<char>)

  /** The letter of a node made by `new ArrayNode(size)`: Java's default `char`. */
  const RootLetter: char := '\0'

  /** `new ArrayTrie(alphabet)`: the alphabet is sorted and the root gets one
      slot per letter. */
  function New(alphabet: string): ArrayTrie
  {
    ArrayTrie(0, Create(RootLetter, false, |alphabet|), Sort(alphabet))
  }

  /** `inspectWord`: the slot of every letter, or failure on the first letter
      the binary search misses. */
  function InspectWord(alphabet: seq<char>, w: string): (r: Result<seq<nat>>)
    ensures r.Ok? ==>
              && |r.value| == |w|
              && forall i :: 0 <= i < |w| ==> r.value[i] < |alphabet| && alphabet[r.value[i]] == w[i]
  {
    if w == [] then Ok([])
    else
      var index := BinarySearch(alphabet, w[0]);
      if index < 0 then Err(InvalidSymbol)
      else
        var rest :- InspectWord(alphabet, w[1..]);
        Ok([index as nat] + rest)
  }

  /** The walk of `searchNodeBySequence` over slot positions.  A position past
      the end of a node's slots is Java's `ArrayIndexOutOfBoundsException`. */
  function SearchNode(n: Tree, pos: seq<nat>): Result<Tree>
    requires n.Node?
  {
    if pos == [] then Ok(n)
    else if pos[0] >= |n.links| then Err(IndexOutOfBounds)
    else
      var child := GetChild(n, pos[0]);
      if child.Nil? then Ok(Nil) else SearchNode(child, pos[1..])
  }

  /** `searchNodeBySequence`. */
  function SearchNodeBySequence(t: ArrayTrie, w: string): Result<Tree>
    requires t.root.Node?
  {
    var pos :- InspectWord(t.alphabet, w);
    SearchNode(t.root, pos)
  }

  function Contains(t: ArrayTrie, w: string): Result<bool>
    requires t.root.Node?
  {
    var last :- SearchNodeBySequence(t, w);
    Ok(last.Node? && last.eow)
  }

  function IsPrefix(t: ArrayTrie, w: string): Result<bool>
    requires t.root.Node?
  {
    var last :- SearchNodeBySequence(t, w);
    Ok(last.Node?)
  }

  /** `checkNodeIfExists`: the node with its flag raised when it ends the
      word, and the increment of the word count. */
  function CheckNodeIfExists(node: Tree, eow: bool): (Tree, nat)
    requires node.Node?
  {
    if eow && !node.eow then (SetAsEOW(node), 1) else (node, 0)
  }

  /** The loop of `add` below node `n`: `createNodeIfNeeds` for each letter of
      `w` at the slot `pos` gives it.  New nodes get `width` slots.  Returns the
      new node and the increment of `size`. */
  function AddBelow(n: Tree, w: string, pos: seq<nat>, width: nat): (r: Result<(Tree, nat)>)
    requires n.Node? && |pos| == |w|
    ensures r.Ok? ==> r.value.0.Node? && r.value.0.letter == n.letter &&
                      r.value.0.eow == n.eow && |r.value.0.links| == |n.links|
    decreases |w|
  {
    if w == [] then Ok((n, 0))
    else if pos[0] >= |n.links| then Err(IndexOutOfBounds)
    else
      var last := |w| == 1;
      var child := GetChild(n, pos[0]);
      if child.Nil? then
        var below :- AddBelow(Create(w[0], last, width), w[1..], pos[1..], width);
        Ok((AddChild(n, below.0, pos[0]), (if last then 1 else 0) + below.1))
      else
        var checked := CheckNodeIfExists(child, last);
        var below :- AddBelow(checked.0, w[1..], pos[1..], width);
        Ok((AddChild(n, below.0, pos[0]), checked.1 + below.1))
  }

  /** `add`: the word is validated before the trie is touched. */
  function Add(t: ArrayTrie, w: string): Result<ArrayTrie>
    requires t.root.Node?
  {
    var pos :- InspectWord(t.alphabet, w);
    var r :- AddBelow(t.root, w, pos, |t.alphabet|);
    Ok(ArrayTrie(t.size + r.1, r.0, t.alphabet))
  }

  function Size(t: ArrayTrie): int
  {
    t.size
  }

  predicate IsEmpty(t: ArrayTrie)
  {
    t.size == 0
  }

  /** `clear`: size 0 and a fresh root. */
  function Clear(t: ArrayTrie): ArrayTrie
  {
    ArrayTrie(0, Create(RootLetter, false, |t.alphabet|), t.alphabet)
  }

  /** The copy constructor. */
  function Copy(t: ArrayTrie): ArrayTrie
    requires t.root.Node?
  {
    ArrayTrie(t.size, NewInstance(t.root), t.alphabet)
  }

  predicate Equals(t: ArrayTrie, u: ArrayTrie)
    requires t.root.Node? && u.root.Node?
  {
    t.size == u.size && t.alphabet == u.alphabet && ArrayNodes.Equals(t.root, u.root)
  }

  // ---------------------------------------------------------------------
  // Invariant and reference semantics

  /** Every node below `n` has exactly `width` slots. */
  ghost predicate Shaped(n: Tree, width: nat)
  {
    n.Nil? || (|n.links| == width && forall i :: 0 <= i < |n.links| ==> Shaped(n.links[i], width))
  }

  /** Every child sits in the slot binary search gives for its letter. */
  ghost predicate SlotsMatch(n: Tree, alphabet: seq<char>)
  {
    n.Nil? ||
    ((forall p :: 0 <= p < |n.links| && n.links[p].Node? ==> BinarySearch(alphabet, n.links[p].letter) == p) &&
     (forall p :: 0 <= p < |n.links| ==> SlotsMatch(n.links[p], alphabet)))
  }

  ghost predicate Valid(t: ArrayTrie)
  {
    t.root.Node? && !t.root.eow && Shaped(t.root, |t.alphabet|) && Sorted(t.alphabet) &&
    t.size == EowCount(t.root) && SlotsMatch(t.root, t.alphabet)
  }

  ghost predicate Below(pos: seq<nat>, width: nat)
  {
    forall i :: 0 <= i < |pos| ==> pos[i] < width
  }

  ghost predicate IsPrefixOf<T>(v: seq<T>, w: seq<T>)
  {
    |v| <= |w| && w[..|v|] == v
  }

  /** The slot path `pos` ends at an end-of-word node below `n`. */
  ghost predicate EndsAt(n: Tree, pos: seq<nat>)
    requires n.Node?
  {
    SearchNode(n, pos).Ok? && SearchNode(n, pos).value.Node? && SearchNode(n, pos).value.eow
  }

  // ---------------------------------------------------------------------
  // Validation and totality

  /** On a sorted alphabet `inspectWord` accepts exactly the words spelt in
      it, and each letter's slot is the one binary search returns for it. */
  lemma {:induction false} InspectWordAccepts(alphabet: seq<char>, w: string)
    requires Sorted(alphabet)
    ensures InspectWord(alphabet, w).Ok? <==> forall i :: 0 <= i < |w| ==> w[i] in alphabet
    ensures InspectWord(alphabet, w).Err? ==> InspectWord(alphabet, w).error == InvalidSymbol
    ensures InspectWord(alphabet, w).Ok? ==>
              forall i :: 0 <= i < |w| ==> InspectWord(alphabet, w).value[i] == BinarySearch(alphabet, w[i])
  {
    if w != [] {
      BinarySearchFinds(alphabet, w[0]);
      InspectWordAccepts(alphabet, w[1..]);
      assert forall i :: 1 <= i < |w| ==> w[i] == w[1..][i - 1];
    }
  }

  lemma {:induction false} SearchNodeTotal(n: Tree, pos: seq<nat>, width: nat)
    requires n.Node? && Shaped(n, width) && Below(pos, width)
    ensures SearchNode(n, pos).Ok? && Shaped(SearchNode(n, pos).value, width)
    decreases |pos|
  {
    if pos != [] && GetChild(n, pos[0]).Node? {
      SearchNodeTotal(GetChild(n, pos[0]), pos[1..], width);
    }
  }

  lemma {:induction false} AddBelowTotal(n: Tree, w: string, pos: seq<nat>, width: nat)
    requires n.Node? && |pos| == |w| && Shaped(n, width) && Below(pos, width)
    ensures AddBelow(n, w, pos, width).Ok? && Shaped(AddBelow(n, w, pos, width).value.0, width)
    decreases |w|
  {
    if w != [] {
      var last := |w| == 1;
      var child := GetChild(n, pos[0]);
      var m := if child.Nil? then Create(w[0], last, width) else CheckNodeIfExists(child, last).0;
      AddBelowTotal(m, w[1..], pos[1..], width);
      var r := AddBelow(n, w, pos, width).value.0;
      assert forall i :: 0 <= i < |r.links| ==> r.links[i] == n.links[i] || r.links[i] == AddBelow(m, w[1..], pos[1..], width).value.0;
    }
  }

  // ---------------------------------------------------------------------
  // The effect of an insertion

  /** What a search below a node sees when it starts from a node whose
      flag alone changed. */
  lemma SearchIgnoresFlag(a: Tree, b: Tree, q: seq<nat>)
    requires a.Node? && b.Node? && a.letter == b.letter && a.links == b.links && q != []
    ensures SearchNode(a, q) == SearchNode(b, q)
  {
  }

  /** Inserting along the slot path `pos` makes every prefix of it reachable,
      raises the end-of-word flag exactly at `pos` itself and leaves every
      other search result unchanged. */
  lemma {:induction false} AddBelowSearch(n: Tree, w: string, pos: seq<nat>, width: nat, q: seq<nat>)
    requires n.Node? && |pos| == |w| && Shaped(n, width) && Below(pos, width) && Below(q, width)
    ensures AddBelow(n, w, pos, width).Ok?
    ensures IsPrefixOf(q, pos) ==>
              var s := SearchNode(AddBelow(n, w, pos, width).value.0, q);
              s.Ok? && s.value.Node? && (s.value.eow <==> EndsAt(n, q) || (q == pos && |pos| > 0))
    ensures !IsPrefixOf(q, pos) ==> SearchNode(AddBelow(n, w, pos, width).value.0, q) == SearchNode(n, q)
    decreases |w|
  {
    AddBelowTotal(n, w, pos, width);
    if w == [] || q == [] {
      return;
    }
    var n' := AddBelow(n, w, pos, width).value.0;
    var last := |w| == 1;
    var child := GetChild(n, pos[0]);
    var m := if child.Nil? then Create(w[0], last, width) else CheckNodeIfExists(child, last).0;
    AddBelowTotal(m, w[1..], pos[1..], width);
    var u := AddBelow(m, w[1..], pos[1..], width).value.0;
    assert n' == AddChild(n, u, pos[0]);
    if q[0] == pos[0] {
      AddBelowSearch(m, w[1..], pos[1..], width, q[1..]);
      assert SearchNode(n', q) == SearchNode(u, q[1..]);
      assert IsPrefixOf(q, pos) <==> IsPrefixOf(q[1..], pos[1..]);
      assert q == pos <==> q[1..] == pos[1..];
      if q[1..] != [] {
        if child.Nil? {
          assert SearchNode(m, q[1..]) == Ok(Nil);
        } else {
          SearchIgnoresFlag(m, child, q[1..]);
        }
      }
    } else {
      assert n'.links[q[0]] == n.links[q[0]];
    }
  }

  /** Inserting `w` increments the count exactly when the path was not yet a
      word, and the number of end-of-word nodes grows by that increment. */
  lemma {:induction false} AddBelowCount(n: Tree, w: string, pos: seq<nat>, width: nat)
    requires n.Node? && |pos| == |w| && Shaped(n, width) && Below(pos, width)
    ensures AddBelow(n, w, pos, width).Ok?
    ensures AddBelow(n, w, pos, width).value.1 == if |w| > 0 && !EndsAt(n, pos) then 1 else 0
    ensures EowCount(AddBelow(n, w, pos, width).value.0) == EowCount(n) + AddBelow(n, w, pos, width).value.1
    decreases |w|
  {
    AddBelowTotal(n, w, pos, width);
    if w == [] {
      return;
    }
    var last := |w| == 1;
    var child := GetChild(n, pos[0]);
    var m := if child.Nil? then Create(w[0], last, width) else CheckNodeIfExists(child, last).0;
    AddBelowCount(m, w[1..], pos[1..], width);
    var u := AddBelow(m, w[1..], pos[1..], width).value.0;
    EowCountAllUpdate(n.links, pos[0], u);
    if child.Nil? {
      assert EowCount(m) == if last then 1 else 0 by {
        assert forall i :: 0 <= i < |m.links| ==> m.links[i] == Nil;
        NilLinksCount(m.links);
      }
      if !last {
        assert SearchNode(m, pos[1..]) == Ok(Nil);
      }
    } else {
      assert SearchNode(n, pos) == SearchNode(child, pos[1..]);
      if !last {
        SearchIgnoresFlag(m, child, pos[1..]);
      }
    }
  }

  /** Insertion puts every new node in the slot of its letter. */
  lemma {:induction false} AddBelowSlots(n: Tree, w: string, pos: seq<nat>, width: nat, alphabet: seq<char>)
    requires n.Node? && |pos| == |w| && SlotsMatch(n, alphabet)
    requires forall i :: 0 <= i < |w| ==> BinarySearch(alphabet, w[i]) == pos[i]
    ensures AddBelow(n, w, pos, width).Ok? ==> SlotsMatch(AddBelow(n, w, pos, width).value.0, alphabet)
    decreases |w|
  {
    if w != [] && pos[0] < |n.links| && AddBelow(n, w, pos, width).Ok? {
      var last := |w| == 1;
      var child := GetChild(n, pos[0]);
      var m := if child.Nil? then Create(w[0], last, width) else CheckNodeIfExists(child, last).0;
      assert forall i :: 0 <= i < |w| - 1 ==> w[1..][i] == w[i + 1] && pos[1..][i] == pos[i + 1];
      AddBelowSlots(m, w[1..], pos[1..], width, alphabet);
      var u := AddBelow(m, w[1..], pos[1..], width).value.0;
      assert AddBelow(n, w, pos, width).value.0 == AddChild(n, u, pos[0]);
    }
  }

  lemma {:induction false} NilLinksCount(ts: seq<Tree>)
    requires forall i :: 0 <= i < |ts| ==> ts[i] == Nil
    ensures EowCountAll(ts) == 0
  {
    if ts != [] {
      NilLinksCount(ts[1..]);
    }
  }

  // ---------------------------------------------------------------------
  // The trie operations

  /** Two accepted words have the same slot path exactly when they are equal,
      and prefix paths belong to prefix words. */
  lemma PathsMatchWords(alphabet: seq<char>, v: string, w: string)
    requires Sorted(alphabet) && InspectWord(alphabet, v).Ok? && InspectWord(alphabet, w).Ok?
    ensures IsPrefixOf(InspectWord(alphabet, v).value, InspectWord(alphabet, w).value) <==> IsPrefixOf(v, w)
    ensures InspectWord(alphabet, v).value == InspectWord(alphabet, w).value <==> v == w
  {
    InspectWordAccepts(alphabet, v);
    InspectWordAccepts(alphabet, w);
    var p := InspectWord(alphabet, v).value;
    var q := InspectWord(alphabet, w).value;
    if IsPrefixOf(p, q) {
      assert forall i :: 0 <= i < |v| ==> v[i] == alphabet[p[i]] == alphabet[q[i]] == w[i];
      assert w[..|v|] == v;
    }
    if IsPrefixOf(v, w) {
      assert forall i :: 0 <= i < |v| ==> p[i] == BinarySearch(alphabet, v[i]) == BinarySearch(alphabet, w[i]) == q[i];
      assert q[..|p|] == p;
    }
  }

  lemma EmptyTrie(alphabet: string, w: string)
    ensures Valid(New(alphabet)) && IsEmpty(New(alphabet))
    ensures Contains(New(alphabet), w).Ok? ==> Contains(New(alphabet), w) == Ok(false)
    ensures IsPrefix(New(alphabet), w).Ok? ==> (IsPrefix(New(alphabet), w) == Ok(true) <==> w == [])
  {
    var t := New(alphabet);
    assert Shaped(t.root, |t.alphabet|);
    NilLinksCount(t.root.links);
    if InspectWord(t.alphabet, w).Ok? && w != [] {
      var p := InspectWord(t.alphabet, w).value;
      assert GetChild(t.root, p[0]) == Nil;
    }
  }

  /** On a valid trie a query fails only on a letter outside the alphabet. */
  lemma QueriesValidate(t: ArrayTrie, w: string)
    requires Valid(t)
    ensures Contains(t, w).Err? <==> exists i :: 0 <= i < |w| && w[i] !in t.alphabet
    ensures IsPrefix(t, w).Err? <==> exists i :: 0 <= i < |w| && w[i] !in t.alphabet
    ensures Contains(t, w).Err? ==> Contains(t, w).error == InvalidSymbol
    ensures Add(t, w).Err? <==> exists i :: 0 <= i < |w| && w[i] !in t.alphabet
    ensures Add(t, w).Err? ==> Add(t, w).error == InvalidSymbol
  {
    InspectWordAccepts(t.alphabet, w);
    if InspectWord(t.alphabet, w).Ok? {
      var p := InspectWord(t.alphabet, w).value;
      SearchNodeTotal(t.root, p, |t.alphabet|);
      AddBelowTotal(t.root, w, p, |t.alphabet|);
    }
  }

  /** After an accepted `add(w)` the trie holds exactly its former words and
      `w`, unless `w` is empty; the prefixes are the former ones and those
      of `w`. */
  lemma AddContains(t: ArrayTrie, w: string, v: string)
    requires Valid(t) && Add(t, w).Ok? && Contains(t, v).Ok?
    ensures Contains(Add(t, w).value, v) == Ok(Contains(t, v).value || (v == w && |w| > 0))
    ensures IsPrefix(Add(t, w).value, v) == Ok(IsPrefix(t, v).value || IsPrefixOf(v, w))
  {
    var width := |t.alphabet|;
    InspectWordAccepts(t.alphabet, w);
    InspectWordAccepts(t.alphabet, v);
    var p := InspectWord(t.alphabet, w).value;
    var q := InspectWord(t.alphabet, v).value;
    PathsMatchWords(t.alphabet, v, w);
    AddBelowSearch(t.root, w, p, width, q);
    SearchNodeTotal(t.root, q, width);
  }

  /** An accepted `add` keeps the invariant, and `size` grows by one exactly
      when a new non-empty word arrives. */
  lemma AddKeepsValid(t: ArrayTrie, w: string)
    requires Valid(t) && Add(t, w).Ok?
    ensures Valid(Add(t, w).value)
    ensures Size(Add(t, w).value) == if |w| > 0 && Contains(t, w) == Ok(false) then Size(t) + 1 else Size(t)
  {
    var width := |t.alphabet|;
    var p := InspectWord(t.alphabet, w).value;
    InspectWordAccepts(t.alphabet, w);
    AddBelowCount(t.root, w, p, width);
    AddBelowTotal(t.root, w, p, width);
    AddBelowSlots(t.root, w, p, width, t.alphabet);
    SearchNodeTotal(t.root, p, width);
  }

  /** `clear` leaves a valid trie with no words and the same alphabet. */
  lemma ClearEmpties(t: ArrayTrie, w: string)
    requires Valid(t)
    ensures Valid(Clear(t)) && IsEmpty(Clear(t)) && Clear(t).alphabet == t.alphabet
    ensures Contains(Clear(t), w).Ok? ==> Contains(Clear(t), w) == Ok(false)
  {
    var c := Clear(t);
    assert Shaped(c.root, |c.alphabet|);
    NilLinksCount(c.root.links);
    if InspectWord(c.alphabet, w).Ok? && w != [] {
      var p := InspectWord(c.alphabet, w).value;
      assert GetChild(c.root, p[0]) == Nil;
    }
  }

  /** The copy holds the same trie, and `equals` is structural equality. */
  lemma CopyEquals(t: ArrayTrie, u: ArrayTrie)
    requires t.root.Node? && u.root.Node?
    ensures Copy(t) == t && Equals(Copy(t), t)
    ensures Equals(t, u) <==> t == u
  {
    NewInstanceIsCopy(t.root);
    EqualsIsStructural(t.root, t.root);
    EqualsIsStructural(t.root, u.root);
  }
}
