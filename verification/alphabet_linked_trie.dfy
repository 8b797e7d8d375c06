/** The sparse trie of the first source tree (`LinkedTrie` with an alphabet).
    It stores words exactly as the alphabet-free sparse trie does, but `add`
    first rejects a word holding a letter outside the alphabet, while
    `contains` performs no such check.  The alphabet defaults to the English
    lower-case letters and takes part in `equals` and in the external form. */
module AlphabetLinkedTrie {
  import opened Outcome
  import opened LinkedNodes
  import opened Alphabets
  import LinkedTrie
  import LinkedCodec

  datatype Trie = Trie(size: int, root: LinkedNode, alphabet: string)

  const DefaultAlphabet: string := "abcdefghijklmnopqrstuvwxyz"

  /** `new LinkedTrie()`. */
  function New(): Trie
  {
    WithAlphabet(DefaultAlphabet)
  }

  /** `new LinkedTrie(alphabet)`. */
  function WithAlphabet(alphabet: string): Trie
  {
    Trie(0, Node(LinkedTrie.RootLetter, false, Nil, Nil), alphabet)
  }

  /** `inspectWord`: fails on the first letter that `indexOf` cannot find. */
  function InspectWord(alphabet: string, w: string): Result<()>
  {
    if w == [] then Ok(())
    else if IndexOf(alphabet, w[0]) < 0 then Err(InvalidSymbol)
    else InspectWord(alphabet, w[1..])
  }

  /** `add`: the word is validated before the trie is touched. */
  function Add(t: Trie, w: string): Result<Trie>
    requires t.root.Node?
  {
    var _ :- InspectWord(t.alphabet, w);
    var (root, d) := LinkedTrie.AddBelow(t.root, w);
    Ok(Trie(t.size + d, root, t.alphabet))
  }

  /** `contains`: the same walk as the alphabet-free trie, without validation. */
  predicate Contains(t: Trie, w: string)
    requires t.root.Node?
  {
    var last := LinkedTrie.Search(t.root, w);
    last.Node? && last.eow
  }

  function Size(t: Trie): int
  {
    t.size
  }

  predicate IsEmpty(t: Trie)
  {
    t.size == 0
  }

  function Clear(t: Trie): Trie
    requires t.root.Node?
  {
    Trie(0, SetChild(t.root, Nil), t.alphabet)
  }

  /** The copy constructor. */
  function Copy(t: Trie): Trie
    requires t.root.Node?
  {
    Trie(t.size, NewInstance(t.root), t.alphabet)
  }

  predicate Equals(t: Trie, u: Trie)
    requires t.root.Node? && u.root.Node?
  {
    t.size == u.size && t.alphabet == u.alphabet && LinkedNodes.Equals(t.root, u.root)
  }

  /** `writeExternal`: the size, the alphabet and the pre-order encoding. */
  function WriteExternal(t: Trie): (int, string, seq<char>)
  {
    (t.size, t.alphabet, LinkedCodec.Serialize(t.root))
  }

  /** `readExternal`. */
  function ReadExternal(size: int, alphabet: string, chars: seq<char>): Result<Trie>
  {
    var root :- LinkedCodec.DeserializeSubtrie(chars);
    Ok(Trie(size, root, alphabet))
  }

  // ---------------------------------------------------------------------
  // Invariant

  /** Every node of the chain `n` and below it carries a letter of `alphabet`. */
  ghost predicate LettersIn(n: LinkedNode, alphabet: string)
  {
    n.Nil? || (n.letter in alphabet && LettersIn(n.child, alphabet) && LettersIn(n.brother, alphabet))
  }

  ghost predicate Valid(t: Trie)
  {
    LinkedTrie.Valid(LinkedTrie.LinkedTrie(t.size, t.root)) && LettersIn(t.root.child, t.alphabet)
  }

  // ---------------------------------------------------------------------
  // Lemmas

  /** `inspectWord` accepts exactly the words spelt in the alphabet. */
  lemma {:induction false} InspectWordAccepts(alphabet: string, w: string)
    ensures InspectWord(alphabet, w).Ok? <==> forall i :: 0 <= i < |w| ==> w[i] in alphabet
    ensures InspectWord(alphabet, w).Err? ==> InspectWord(alphabet, w).error == InvalidSymbol
  {
    if w != [] {
      InspectWordAccepts(alphabet, w[1..]);
      assert forall i :: 1 <= i < |w| ==> w[i] == w[1..][i - 1];
    }
  }

  lemma EmptyTrie(alphabet: string, w: string)
    ensures Valid(WithAlphabet(alphabet)) && IsEmpty(WithAlphabet(alphabet))
    ensures !Contains(WithAlphabet(alphabet), w)
    ensures New().alphabet == "abcdefghijklmnopqrstuvwxyz"
  {
  }

  lemma {:induction false} ListScanLetters(chain: LinkedNode, c: char, alphabet: string)
    requires LettersIn(chain, alphabet)
    ensures LettersIn(LinkedTrie.ListScan(chain, c), alphabet)
  {
    if chain.Node? && chain.letter != c {
      ListScanLetters(chain.brother, c, alphabet);
    }
  }

  lemma {:induction false} AppendBrotherLetters(chain: LinkedNode, x: LinkedNode, alphabet: string)
    requires chain.Node? && LettersIn(chain, alphabet) && LettersIn(x, alphabet)
    ensures LettersIn(LinkedTrie.AppendBrother(chain, x), alphabet)
  {
    if chain.brother.Node? {
      AppendBrotherLetters(chain.brother, x, alphabet);
    }
  }

  lemma {:induction false} ReplaceFirstLetters(chain: LinkedNode, c: char, x: LinkedNode, alphabet: string)
    requires LettersIn(chain, alphabet) && LettersIn(x, alphabet)
    ensures LettersIn(LinkedTrie.ReplaceFirst(chain, c, x), alphabet)
  {
    if chain.Node? && chain.letter != c {
      ReplaceFirstLetters(chain.brother, c, x, alphabet);
    }
  }

  /** Inserting a word spelt in the alphabet keeps every stored letter in it. */
  lemma {:induction false} AddBelowLetters(n: LinkedNode, w: string, alphabet: string)
    requires n.Node? && LettersIn(n.child, alphabet)
    requires forall i :: 0 <= i < |w| ==> w[i] in alphabet
    ensures LettersIn(LinkedTrie.AddBelow(n, w).0.child, alphabet)
    decreases |w|
  {
    if w == [] {
      return;
    }
    assert LinkedTrie.AddBelow(n, w) == LinkedTrie.CreateNodeIfNeeds(n, w);
    assert forall i :: 0 <= i < |w[1..]| ==> w[1..][i] == w[i + 1];
    var c := w[0];
    var last := |w| == 1;
    var child := LinkedTrie.ListScan(n.child, c);
    if child.Nil? {
      var created := Node(c, last, Nil, Nil);
      AddBelowLetters(created, w[1..], alphabet);
      var f := LinkedTrie.AddBelow(created, w[1..]).0;
      if n.child.Node? {
        AppendBrotherLetters(n.child, f, alphabet);
      }
    } else {
      ListScanLetters(n.child, c, alphabet);
      var checked := LinkedTrie.CheckNodeIfExists(child, last).0;
      AddBelowLetters(checked, w[1..], alphabet);
      var u := LinkedTrie.AddBelow(checked, w[1..]).0;
      LinkedTrie.ListScanFinds(n.child, c);
      ReplaceFirstLetters(n.child, c, u, alphabet);
    }
  }

  /** A word holding a letter outside the alphabet is rejected and the trie
      is left as it was; an accepted word is stored as in the alphabet-free
      trie: the words afterwards are the former ones and `w`. */
  lemma AddValidates(t: Trie, w: string, v: string)
    requires t.root.Node?
    ensures Add(t, w).Err? <==> exists i :: 0 <= i < |w| && w[i] !in t.alphabet
    ensures Add(t, w).Err? ==> Add(t, w).error == InvalidSymbol
    ensures Add(t, w).Ok? ==>
              && Add(t, w).value.alphabet == t.alphabet
              && (Contains(Add(t, w).value, v) <==> Contains(t, v) || (v == w && |w| > 0))
  {
    InspectWordAccepts(t.alphabet, w);
    LinkedTrie.AddBelowSearch(t.root, w, v);
  }

  /** An accepted `add` keeps the invariant and counts a new word once. */
  lemma AddKeepsValid(t: Trie, w: string)
    requires Valid(t) && Add(t, w).Ok?
    ensures Valid(Add(t, w).value)
    ensures Size(Add(t, w).value) == if |w| > 0 && !Contains(t, w) then Size(t) + 1 else Size(t)
  {
    InspectWordAccepts(t.alphabet, w);
    LinkedTrie.AddKeepsValid(LinkedTrie.LinkedTrie(t.size, t.root), w);
    AddBelowLetters(t.root, w, t.alphabet);
  }

  /** A search that reaches a node below `n` spelt only letters stored there. */
  lemma {:induction false} SearchSpellsStoredLetters(n: LinkedNode, w: string, alphabet: string)
    requires n.Node? && LettersIn(n.child, alphabet)
    requires LinkedTrie.Search(n, w).Node?
    ensures forall i :: 0 <= i < |w| ==> w[i] in alphabet
    decreases |w|
  {
    if w != [] {
      var next := LinkedTrie.ListScan(n.child, w[0]);
      ListScanLetters(n.child, w[0], alphabet);
      LinkedTrie.ListScanFinds(n.child, w[0]);
      SearchSpellsStoredLetters(next, w[1..], alphabet);
      assert forall i :: 1 <= i < |w| ==> w[i] == w[1..][i - 1];
    }
  }

  /** `contains` needs no validation: a word outside the alphabet is never
      stored, so the lookup answers false for it. */
  lemma ContainsOnlyAlphabetWords(t: Trie, w: string)
    requires Valid(t) && exists i :: 0 <= i < |w| && w[i] !in t.alphabet
    ensures !Contains(t, w)
  {
    if LinkedTrie.Search(t.root, w).Node? {
      SearchSpellsStoredLetters(t.root, w, t.alphabet);
    }
  }

  /** `clear` leaves a valid trie with no words and the same alphabet. */
  lemma ClearEmpties(t: Trie, w: string)
    requires Valid(t)
    ensures Valid(Clear(t)) && IsEmpty(Clear(t)) && Clear(t).alphabet == t.alphabet
    ensures !Contains(Clear(t), w)
  {
    LinkedTrie.ClearEmpties(LinkedTrie.LinkedTrie(t.size, t.root), w);
  }

  /** The copy holds the same trie, and `equals` is structural equality. */
  lemma CopyEquals(t: Trie, u: Trie)
    requires t.root.Node? && u.root.Node?
    ensures Copy(t) == t && Equals(Copy(t), t)
    ensures Equals(t, u) <==> t == u
  {
    NewInstanceIsCopy(t.root);
    EqualsIsStructural(t.root, t.root);
    EqualsIsStructural(t.root, u.root);
  }

  /** The external form reads back as the same trie when no stored letter is
      one of the two marker characters. */
  lemma ExternalRoundTrip(t: Trie)
    requires t.root.Node? && LinkedCodec.NoReservedLetters(t.root)
    ensures ReadExternal(WriteExternal(t).0, WriteExternal(t).1, WriteExternal(t).2) == Ok(t)
  {
    LinkedCodec.RoundTrip(t.root);
  }
}
