# Trie and DAWG word dictionary, modelled in Dafny

This project models the core of a Java word dictionary (MikeHerasimov/Trie).
A trie stores words. An optimizer then merges equal subtries so that the trie
becomes a DAWG, a directed acyclic word graph. The project proves that the
DAWG still answers every query as the trie did.

The repository holds two source trees. Paths starting with `Trie-master/` are
the second tree; all other paths are the first. Both trees are modelled where
they differ.

- **Node layouts.**
  - The dense `ArrayNode` has one child slot per alphabet letter (`ArrayNodes`).
  - The sparse `LinkedNode` has a first child and a brother chain (`LinkedNodes`).
  - A node is an immutable value. `Trees.Tree` is the common form: a dense node's links are its slots, and a sparse node's links are `[child, brother]`.
  - Java's `equals` is proved to be structural equality of these values.
- **Tries.**
  - The dense `ArrayTrie` (`ArrayTrie`) sorts its alphabet with `Arrays.sort` and finds slots with `Arrays.binarySearch` (`Alphabets`).
  - The alphabet-free sparse trie of the second tree is `LinkedTrie`.
  - The sparse trie with an alphabet of the first tree is `AlphabetLinkedTrie`.
  - Each has `add`, `contains`, `size`, `isEmpty`, `clear`, the copy constructor and `equals`.
  - `ArrayTrie` and the second tree's `LinkedTrie` also have `isPrefix`; `AlphabetLinkedTrie` has none.
  - Validation failures and out-of-range array accesses become `Outcome.Result` errors.
- **Pre-order character encoding** of a sparse subtrie (`LinkedCodec`).
  - The encoding writes `')'` for a null link and `'*'` after an end-of-word letter.
  - The Java decoder's static read counter is a position passed in and returned (see "Left out").
- **Shared node graphs** (`Arena`).
  - After minimisation, nodes are shared. A node graph is a sequence of records whose links are indexes.
  - A ghost ranking proves the graph acyclic. `Unfold` gives the tree value each index stands for.
  - `equals` and `countNodes` on a graph are compiled functions over it.
- **Flattening** (`SubtrieConverter`).
  - `getNodes`, `getAncestorIndexes` and `getLeafIndexes` of both converters are one pre-order walk.
  - The walk is parameterised by the layout. It matches the sparse trie's own `getInfo` (`LinkedToDawg.GetInfo`).
- **The optimizer.**
  - `Optimizer.eliminateDuplicates` and `compareAndEliminate` are modelled as methods with loop invariants.
  - The `changeRefs` and `countNodes` strategies of both layouts are in `OptimizerBehaviour`.
  - The sparse `changeRefs` can dereference null. That case is the `NullReference` error.
- **DAWGs.**
  - The sparse `LinkedDAWG` (`LinkedDawg`) has queries that run on the graph.
  - Its four-array encoding by `LinkedDAWGSerializationHelper` and its decoder `generateRootNode` are in `LinkedDawgCodec`.
  - The dense `ArrayDAWG` is in `ArrayDawg`.
  - All three `toDAWG` variants are in `ArrayDawg` and `LinkedToDawg`.

The lock-step climb of `compareAndEliminate` has no bound of its own. It
terminates because the arrays it is given are `Optimizer.Prepared`:

- every node is smaller than its recorded ancestor;
- the first node is the largest;
- two nodes with the same recorded ancestor differ.

`SubtrieConverter.ConvertedIsPrepared` proves that both converters produce
such arrays. For the dense layout this needs the trie invariant: every child
sits in its letter's slot. For the sparse layout it needs a root without a
brother.

Where the two source trees disagree, each is modelled as written:

- The alphabet-free trie's `contains` goes through `searchNodeBySequence`.
- The alphabet trie's `contains` walks the chain itself and never validates.
- `countNodes` is recursive in one tree and delegates to `numberOfNodesInSubtrie` in the other. Both are `Arena.Count`.

## Model

| member | source | states |
|---|---|---|
| ArrayNodes.EqualsIsStructural | src/main/java/com/github/mikeherasimov/trie/array/ArrayNode.java:57-64 | `equals` holds exactly when the nodes have the same letter, the same flag and equal slots with null matching only null. That is structural equality, so it is reflexive. |
| ArrayNodes.AddChildOverwritesOneSlot | src/main/java/com/github/mikeherasimov/trie/array/ArrayNode.java:29-35 | After `addChild(node, pos)`, `getChild(pos)` is `node`. The slot count, the letter, the flag and every other slot are unchanged. |
| ArrayNodes.SetAsEOWMonotone | src/main/java/com/github/mikeherasimov/trie/array/ArrayNode.java:37-40 | `setAsEOW` only raises the flag. It is idempotent, does nothing on an end-of-word node and keeps letter and slots. |
| ArrayNodes.NumberOfDescendantsIsSlotCount | src/main/java/com/github/mikeherasimov/trie/array/ArrayNode.java:13-21 | `numberOfDescendants` is the size given at construction, before and after a child is stored. A new node's slots are all null. |
| ArrayNodes.CopyFromFills | src/main/java/com/github/mikeherasimov/trie/array/ArrayNode.java:79-88 | The copy loop puts into slot i of the weak copy what slot i of the original holds, and leaves absent slots absent. |
| ArrayNodes.NewInstanceIsCopy | src/main/java/com/github/mikeherasimov/trie/array/ArrayNode.java:23-27 | `newInstance` gives a node equal to the original under `equals`, with the same slot count and the same content in every slot. |
| LinkedNodes.EqualsIsStructural | src/main/java/com/github/mikeherasimov/trie/linked/LinkedNode.java:74-82 | `equals` holds exactly when letter, flag, child and the whole following brother chain are equal. |
| LinkedNodes.ChildOrderMatters | src/main/java/com/github/mikeherasimov/trie/linked/LinkedNode.java:79-81 | Two parents holding the same two children in opposite order are not equal. |
| LinkedNodes.SettersChangeOneField | src/main/java/com/github/mikeherasimov/trie/linked/LinkedNode.java:30-36 | `setChild` and `setBrother` each change only their own field. |
| LinkedNodes.SetAsEOWMonotone | src/main/java/com/github/mikeherasimov/trie/linked/LinkedNode.java:38-41 | `setAsEOW` only raises the flag, is idempotent, and keeps letter, child and brother. |
| LinkedNodes.LastBrotherEndsChain | src/main/java/com/github/mikeherasimov/trie/linked/LinkedNode.java:61-67 | `getLastBrother` is the last node of the brother chain and has no brother. It is the node itself exactly when the node has no brother. |
| LinkedNodes.ChainShrinks | Trie-master/src/main/java/com/github/mikeherasimov/trie/linked/LinkedNode.java:159-163 | Every node along a brother chain counts no more nodes than the chain's head. |
| LinkedNodes.CopyRebuilds | src/main/java/com/github/mikeherasimov/trie/linked/LinkedNode.java:94-109 | `copy(node, weakCopy(node))` rebuilds the node with its child and brother subtries. |
| LinkedNodes.NewInstanceIsCopy | src/main/java/com/github/mikeherasimov/trie/linked/LinkedNode.java:24-28 | `newInstance` yields a deep copy equal to the original under `equals`. |
| LinkedNodes.NumberOfNodesIsSize | Trie-master/src/main/java/com/github/mikeherasimov/trie/linked/LinkedNode.java:159-163 | `numberOfNodesInSubtrie` is the number of nodes below the child plus the following brothers and theirs. It is at least the length of the brother chain. |
| LinkedNodes.ToTreeInjective | Trie-master/src/main/java/com/github/mikeherasimov/trie/linked/LinkedNode.java:78-86 | Distinct sparse nodes have distinct `[child, brother]` tree values, so the common node form decides `LinkedNode` equality. |
| LinkedCodec.Deserialize | Trie-master/src/main/java/com/github/mikeherasimov/trie/linked/LinkedNode.java:142-157 | A successful decode consumes at least one character and stays inside the array. Reading past the end, including the `'*'` look-ahead, is an index error. |
| LinkedCodec.SerializeHead | Trie-master/src/main/java/com/github/mikeherasimov/trie/linked/LinkedNode.java:121-132 | An encoding starts with the node's letter, or with `')'` for null. A node takes at least three characters. |
| LinkedCodec.DeserializeSerialized | Trie-master/src/main/java/com/github/mikeherasimov/trie/linked/LinkedNode.java:121-157 | Decoding an encoding found at any position gives back the node and stops right after it. |
| LinkedCodec.RoundTrip | Trie-master/src/main/java/com/github/mikeherasimov/trie/linked/LinkedNode.java:115-157 | `deserializeSubtrie(serializeSubtrie(n))` is `n` when no letter is `')'` or `'*'`. |
| LinkedCodec.EncodingLength | Trie-master/src/main/java/com/github/mikeherasimov/trie/linked/LinkedNode.java:121-132 | The encoding has `numberOfNodesInSubtrie + 1` closers `')'` and one `'*'` per end-of-word node. Its length is 2·nodes + flags + 1. |
| LinkedCodec.DeserializePrefix | Trie-master/src/main/java/com/github/mikeherasimov/trie/linked/LinkedNode.java:134-140 | What follows a decodable encoding does not change the decode that starts at a given position. |
| Alphabets.Sort | src/main/java/com/github/mikeherasimov/trie/array/ArrayTrie.java:30-34 | The constructor's alphabet is sorted and is a permutation of the given letters. |
| Alphabets.SortedIsUnique | src/main/java/com/github/mikeherasimov/trie/array/ArrayTrie.java:32 | Any two sorted permutations of the same letters are equal, so the model's sort agrees with `Arrays.sort`. |
| Alphabets.BinarySearch | src/main/java/com/github/mikeherasimov/trie/array/ArrayTrie.java:156 | A non-negative result is an index holding the key. |
| Alphabets.BinarySearchFinds | src/main/java/com/github/mikeherasimov/trie/array/ArrayTrie.java:156-161 | On a sorted alphabet the search succeeds exactly for its letters. A miss encodes the insertion point. |
| Alphabets.IndexOf | src/main/java/com/github/mikeherasimov/trie/linked/LinkedTrie.java:137-142 | `indexOf` gives the first index holding the letter, or -1 exactly when the letter is absent. |
| ArrayTrie.InspectWord | src/main/java/com/github/mikeherasimov/trie/array/ArrayTrie.java:153-164 | On success there is one slot per letter, and each slot holds that letter in the alphabet. |
| ArrayTrie.InspectWordAccepts | src/main/java/com/github/mikeherasimov/trie/array/ArrayTrie.java:153-164 | On a sorted alphabet, `inspectWord` accepts exactly the words spelt in it. A rejection is `IllegalArgumentException`, and each slot is the letter's binary-search index. |
| ArrayTrie.PathsMatchWords | src/main/java/com/github/mikeherasimov/trie/array/ArrayTrie.java:153-164 | For accepted words, one slot path is a prefix of another exactly when one word is a prefix of the other, and paths are equal exactly when the words are. |
| ArrayTrie.SearchNodeTotal | src/main/java/com/github/mikeherasimov/trie/array/ArrayTrie.java:134-146 | In a trie whose nodes all have alphabet-many slots, a search along slots of the alphabet never leaves the array. |
| ArrayTrie.AddBelowTotal | src/main/java/com/github/mikeherasimov/trie/array/ArrayTrie.java:166-182 | Insertion along in-range slots never leaves the array. Every new node gets alphabet-many slots. |
| ArrayTrie.AddBelow | src/main/java/com/github/mikeherasimov/trie/array/ArrayTrie.java:71-75 | Insertion keeps the letter, the flag and the slot count of the node it starts from. |
| ArrayTrie.AddBelowSearch | src/main/java/com/github/mikeherasimov/trie/array/ArrayTrie.java:166-190 | After insertion every prefix of the path is reachable. The end-of-word flag is raised at the path's end only, and every other search is unchanged. |
| ArrayTrie.AddBelowCount | src/main/java/com/github/mikeherasimov/trie/array/ArrayTrie.java:166-190 | The count grows by one exactly when the path did not yet end at an end-of-word node. The number of end-of-word nodes grows by the same amount. |
| ArrayTrie.AddBelowSlots | src/main/java/com/github/mikeherasimov/trie/array/ArrayTrie.java:178-182 | Every node created by insertion sits in the slot binary search gives for its letter. |
| ArrayTrie.SearchIgnoresFlag | src/main/java/com/github/mikeherasimov/trie/array/ArrayTrie.java:134-146 | A search below a node depends only on its slots, not on its own flag or letter. |
| ArrayTrie.EmptyTrie | src/main/java/com/github/mikeherasimov/trie/array/ArrayTrie.java:30-34 | A new trie is valid and empty, contains no word, and has only the empty prefix. |
| ArrayTrie.QueriesValidate | src/main/java/com/github/mikeherasimov/trie/array/ArrayTrie.java:115-146 | On a valid trie, `contains`, `isPrefix` and `add` fail exactly on a word with a letter outside the alphabet, with `IllegalArgumentException`. |
| ArrayTrie.AddContains | src/main/java/com/github/mikeherasimov/trie/array/ArrayTrie.java:67-76 | After an accepted `add(w)` the trie contains exactly its former words and `w` when non-empty. Its prefixes are the former ones and those of `w`. |
| ArrayTrie.AddKeepsValid | src/main/java/com/github/mikeherasimov/trie/array/ArrayTrie.java:166-190 | An accepted `add` keeps the invariant. `size` grows by one exactly when `w` is non-empty and not yet contained. |
| ArrayTrie.ClearEmpties | src/main/java/com/github/mikeherasimov/trie/array/ArrayTrie.java:96-105 | After `clear` the trie is valid and empty, keeps its alphabet and contains no word. |
| ArrayTrie.CopyEquals | src/main/java/com/github/mikeherasimov/trie/array/ArrayTrie.java:54-58 | The copy equals the original, and `equals` is equality of size, alphabet and root value. |
| LinkedTrie.ListScanFinds | Trie-master/src/main/java/com/github/mikeherasimov/trie/linked/LinkedTrie.java:141-149 | `listScan` returns a node carrying the letter. It is null exactly when no node of the chain carries it. |
| LinkedTrie.ListScanLetters | Trie-master/src/main/java/com/github/mikeherasimov/trie/linked/LinkedTrie.java:141-149 | `listScan` finds nothing exactly when the letter is not among the chain's letters. |
| LinkedTrie.AppendBrotherScan | Trie-master/src/main/java/com/github/mikeherasimov/trie/linked/LinkedTrie.java:151-159 | Appending a node with a new letter at the end of a chain makes that letter find it. Every other letter finds what it found before. |
| LinkedTrie.AddNewChildScan | Trie-master/src/main/java/com/github/mikeherasimov/trie/linked/LinkedTrie.java:151-159 | `addNewChild` makes the new letter find the new node, whether it becomes the first child or the last brother. Other letters are unaffected. |
| LinkedTrie.ReplaceFirstScan | Trie-master/src/main/java/com/github/mikeherasimov/trie/linked/LinkedTrie.java:129-139 | Writing back the node `listScan` found changes what that letter finds and nothing else. |
| LinkedTrie.CreateNodeIfNeeds | Trie-master/src/main/java/com/github/mikeherasimov/trie/linked/LinkedTrie.java:129-139 | Creating or reusing the child keeps the ancestor's letter, flag and brother. |
| LinkedTrie.AddBelowCount | Trie-master/src/main/java/com/github/mikeherasimov/trie/linked/LinkedTrie.java:129-167 | The count grows by one exactly when the word was not yet stored, which is the false-to-true flip of the last node's flag. |
| LinkedTrie.AddBelowSearch | Trie-master/src/main/java/com/github/mikeherasimov/trie/linked/LinkedTrie.java:56-63 | After insertion every prefix of `w` is reachable and the flag is raised at `w` only. Searches for other words see what they saw before. |
| LinkedTrie.AddBelowOrder | Trie-master/src/main/java/com/github/mikeherasimov/trie/linked/LinkedTrie.java:151-159 | A new letter joins the end of its chain, so children keep insertion order. Every chain keeps pairwise distinct letters. |
| LinkedTrie.AddBelowStored | Trie-master/src/main/java/com/github/mikeherasimov/trie/linked/LinkedTrie.java:161-167 | Adding a word that is already stored changes nothing and counts nothing. |
| LinkedTrie.EmptyTrie | Trie-master/src/main/java/com/github/mikeherasimov/trie/linked/LinkedTrie.java:26-28 | A new trie is valid and empty, contains no word, and has only the empty prefix. |
| LinkedTrie.AddContains | Trie-master/src/main/java/com/github/mikeherasimov/trie/linked/LinkedTrie.java:98-122 | After `add(w)` the trie contains exactly its former words and `w` when non-empty. Any character is accepted. |
| LinkedTrie.AddIsPrefix | Trie-master/src/main/java/com/github/mikeherasimov/trie/linked/LinkedTrie.java:104-122 | After `add(w)` the prefixes are exactly the former ones and those of `w`. |
| LinkedTrie.AddKeepsValid | Trie-master/src/main/java/com/github/mikeherasimov/trie/linked/LinkedTrie.java:129-167 | `add` keeps the invariant. `size` grows by one exactly when `w` is non-empty and not yet contained. |
| LinkedTrie.AddIdempotent | Trie-master/src/main/java/com/github/mikeherasimov/trie/linked/LinkedTrie.java:56-63 | Adding a contained word is a no-op, and adding a word twice is the same as adding it once. |
| LinkedTrie.ClearEmpties | Trie-master/src/main/java/com/github/mikeherasimov/trie/linked/LinkedTrie.java:87-96 | After `clear` the trie is valid and empty, contains no word, and has only the empty prefix. |
| LinkedTrie.CopyEquals | Trie-master/src/main/java/com/github/mikeherasimov/trie/linked/LinkedTrie.java:39-42 | The copy equals the original, and `equals` is equality of size and root value. |
| LinkedTrie.ExternalRoundTrip | Trie-master/src/main/java/com/github/mikeherasimov/trie/linked/LinkedTrie.java:177-188 | Reading back the size and the root's encoding restores the trie when no letter is a marker. |
| LinkedTrie.MarkerWordsCorrupted | Trie-master/src/main/java/com/github/mikeherasimov/trie/linked/LinkedNode.java:121-157 | Outside that domain the encoding is lossy. `add("*")` is written as `'\0' '*' '*' ')' ')' ')'`, and reading it back gives a trie holding the empty word and not `"*"`. The word `")"` is lost as well, because its letter reads back as a null link. |
| AlphabetLinkedTrie.InspectWordAccepts | src/main/java/com/github/mikeherasimov/trie/linked/LinkedTrie.java:137-142 | `inspectWord` accepts exactly the words spelt in the alphabet. A rejection is `IllegalArgumentException`. |
| AlphabetLinkedTrie.EmptyTrie | src/main/java/com/github/mikeherasimov/trie/linked/LinkedTrie.java:21-38 | A new trie is valid, empty and contains no word. The default alphabet is the 26 English lower-case letters. |
| AlphabetLinkedTrie.AddValidates | src/main/java/com/github/mikeherasimov/trie/linked/LinkedTrie.java:62-71 | `add` fails exactly on a word with a letter outside the alphabet, before touching the trie. An accepted word makes the words the former ones plus `w`. |
| AlphabetLinkedTrie.AddBelowLetters | src/main/java/com/github/mikeherasimov/trie/linked/LinkedTrie.java:144-174 | Inserting a word spelt in the alphabet keeps every stored letter in it. |
| AlphabetLinkedTrie.AddKeepsValid | src/main/java/com/github/mikeherasimov/trie/linked/LinkedTrie.java:144-182 | An accepted `add` keeps the invariant. `size` grows by one exactly when `w` is non-empty and not yet contained. |
| AlphabetLinkedTrie.ContainsOnlyAlphabetWords | src/main/java/com/github/mikeherasimov/trie/linked/LinkedTrie.java:116-130 | `contains` does not validate, yet it answers false for any word with a letter outside the alphabet. |
| AlphabetLinkedTrie.ClearEmpties | src/main/java/com/github/mikeherasimov/trie/linked/LinkedTrie.java:110-114 | After `clear` the trie is valid and empty, keeps its alphabet and contains no word. |
| AlphabetLinkedTrie.CopyEquals | src/main/java/com/github/mikeherasimov/trie/linked/LinkedTrie.java:49-53 | The copy equals the original, and `equals` compares size, alphabet and root value. |
| AlphabetLinkedTrie.ExternalRoundTrip | src/main/java/com/github/mikeherasimov/trie/linked/LinkedTrie.java:243-261 | Reading back size, alphabet and pre-order encoding restores the trie when no letter is a marker. |
| Trees.EowCountAllUpdate | src/main/java/com/github/mikeherasimov/trie/array/ArrayNode.java:29-31 | Replacing one slot changes the number of end-of-word nodes by the difference between the new and the old occupant. |
| Arena.EqIffUnfold | Trie-master/src/main/java/com/github/mikeherasimov/trie/linked/LinkedNode.java:78-86 | `equals` on two nodes of a graph, with its identity short-cut, holds exactly when their unfolded values are equal. |
| Arena.CountIsSize | Trie-master/src/main/java/com/github/mikeherasimov/trie/linked/LinkedNode.java:159-163 | Counting nodes on a graph counts every node of the unfolded value, shared nodes once per path. |
| Arena.RedirectKeepsUnfold | src/trie/ArrayOptimizerBehaviour.java:10-19 | Pointing a link at a node of the same value keeps the graph acyclic and every node's value. |
| SubtrieConverter.WalkLength | src/main/java/com/github/mikeherasimov/trie/array/ArraySubtrieConverter.java:17-23 | The walk records exactly `numberOfNodesInSubtrie` nodes, the length of the converters' arrays. |
| SubtrieConverter.VisitAt | src/main/java/com/github/mikeherasimov/trie/array/ArraySubtrieConverter.java:25-33 | Index k holds a node whose links point to the indexes their targets get in pre-order. The first index holds the root with ancestor 0. |
| SubtrieConverter.LinkTarget | src/main/java/com/github/mikeherasimov/trie/array/ArraySubtrieConverter.java:43-52 | Link i of the node at k is recorded at k + 1 + the sizes of the earlier links. Its ancestor is k for a dense slot or a sparse child, and k's own ancestor for a brother. |
| SubtrieConverter.ParentOf | src/main/java/com/github/mikeherasimov/trie/linked/LinkedSubtrieConverter.java:25-33 | Every index but the first is the target of a link of an earlier index. |
| SubtrieConverter.SubtreeRange | src/main/java/com/github/mikeherasimov/trie/linked/LinkedSubtrieConverter.java:25-51 | The visits from index k, as many as the subtree at k has nodes, are exactly the walk of that subtree on its own, starting at k. |
| SubtrieConverter.SubtreeOccupiesRange | src/main/java/com/github/mikeherasimov/trie/array/ArraySubtrieConverter.java:25-52 | The subtrie at k occupies `[k, k + countNodes(nodes[k]))`, and there the nodes and ancestor arrays hold what converting it alone from k would give. |
| SubtrieConverter.NodesDenoteSubtrees | src/main/java/com/github/mikeherasimov/trie/array/ArraySubtrieConverter.java:17-33 | The flattened nodes form an acyclic graph in which index k stands for the subtree recorded there, and index 0 for the whole trie. |
| SubtrieConverter.AncestorsPrecede | src/main/java/com/github/mikeherasimov/trie/linked/LinkedSubtrieConverter.java:43-51 | Every non-root index's ancestor entry is smaller than the index, and the root's entry is 0. |
| SubtrieConverter.LeafIndexesExact | src/main/java/com/github/mikeherasimov/trie/array/ArraySubtrieConverter.java:54-75 | `getLeafIndexes` lists, strictly increasing, exactly the indexes of leaves. A leaf is a dense node with only null slots, or a sparse node without a child. |
| SubtrieConverter.AncestorIsLarger | src/main/java/com/github/mikeherasimov/trie/linked/LinkedSubtrieConverter.java:43-51 | Every non-root node is strictly smaller than the node its ancestor entry names. |
| SubtrieConverter.ChainEnd | src/main/java/com/github/mikeherasimov/trie/linked/LinkedSubtrieConverter.java:43-51 | In the sparse layout, nodes sharing an ancestor entry form one brother chain. Each one's subtree reaches the same end index. |
| SubtrieConverter.SiblingsDiffer | src/main/java/com/github/mikeherasimov/trie/linked/LinkedSubtrieConverter.java:35-51 | Two distinct nodes with the same ancestor entry have different values, given distinct letters among dense siblings. |
| SubtrieConverter.ConvertedParentsLink | src/main/java/com/github/mikeherasimov/trie/array/ArraySubtrieConverter.java:25-52 | In the dense arrays, every node but the first is held in a slot of the node recorded as its ancestor. |
| SubtrieConverter.ConvertedIsPrepared | src/main/java/com/github/mikeherasimov/trie/array/ArraySubtrieConverter.java:17-75 | The three arrays meet everything the optimizer relies on, for both layouts. |
| OptimizerBehaviour.FirstSlot | src/trie/ArrayOptimizerBehaviour.java:12-18 | The scan stops at the first slot holding exactly the given node index. Every earlier slot holds something else. |
| OptimizerBehaviour.ChangeRefsDense | src/main/java/com/github/mikeherasimov/trie/array/ArrayOptimizerBehaviour.java:12-21 | When no slot refers to `internal` nothing changes. Otherwise only the first slot referring to it now refers to `dest`. |
| OptimizerBehaviour.FindElderBrother | Trie-master/src/main/java/com/github/mikeherasimov/trie/linked/LinkedOptimizerBehaviour.java:16-22 | The scan returns the chain member whose brother is `internal`. It fails with the null dereference exactly when `internal` is not on the chain. |
| OptimizerBehaviour.ChangeRefsSparse | src/main/java/com/github/mikeherasimov/trie/LinkedOptimizerBehaviour.java:11-21 | If the first child is `internal` it becomes `dest`. Otherwise the elder brother's brother link is retargeted and nothing else changes. |
| OptimizerBehaviour.ChangeRefs | src/trie/ArrayOptimizerBehaviour.java:10-19 | The dense strategy never fails. |
| OptimizerBehaviour.ChangeRefsKeepsValues | Trie-master/src/main/java/com/github/mikeherasimov/trie/linked/LinkedOptimizerBehaviour.java:12-23 | When `internal` and `dest` have the same value, `changeRefs` of either layout keeps every node's value and the graph acyclic. |
| OptimizerBehaviour.CountNodesIsSize | src/trie/ArrayOptimizerBehaviour.java:21-31 | `countNodes` is the node count of the value: one plus the counts of the present children. |
| Optimizer.Span | Trie-master/src/main/java/com/github/mikeherasimov/trie/Optimizer.java:102-105 | `setBits` marks exactly the indexes from `rootIndex` up to but excluding `rootIndex + countNodes`. |
| Optimizer.ClimbWhileEqual | Trie-master/src/main/java/com/github/mikeherasimov/trie/Optimizer.java:86-94 | The lock-step climb stops at an unequal pair. A match is found exactly when the two leaves are equal. The last equal pair lies the same number k of ancestor steps above the two leaves, every pair on the way is equal, and the final pair are their ancestors. Without a match the indexes stay at the leaves. |
| Optimizer.CompareAndEliminate | Trie-master/src/main/java/com/github/mikeherasimov/trie/Optimizer.java:80-105 | Unequal leaves change nothing and cannot fail. On a match there is a k such that c and d, the nodes k steps above the two leaves, are the last equal pair of the chains and have unequal ancestors. The link from d's ancestor to d now points at c, and `leafs[index]` becomes d's ancestor. d's subtrie is marked, and every value is kept. |
| Optimizer.EliminateDuplicates | Trie-master/src/main/java/com/github/mikeherasimov/trie/Optimizer.java:59-78 | Minimisation keeps the value of every node, so the root still stands for the same words. On dense nodes it never fails. With no two distinct equal leaves the graph comes back unchanged. On a dense graph where every node is linked from its recorded ancestor, two distinct equal leaves always change the graph. |
| Optimizer.CompareWithLater | Trie-master/src/main/java/com/github/mikeherasimov/trie/Optimizer.java:67-75 | The inner loop compares the leaf at entry i with every later unmarked entry holding another leaf. Without a match the state is unchanged and every pair up to entry i is unequal. It fails only when some pair matched. |
| Optimizer.RedirectCross | src/main/java/com/github/mikeherasimov/trie/array/ArrayOptimizerBehaviour.java:12-21 | A dense redirect from d's ancestor towards a node with another ancestor points the link away from the node's own children, and it never restores a link changed earlier. On the original graph it changes the link to d. |
| LinkedDawg.ListScanAt | Trie-master/src/main/java/com/github/mikeherasimov/trie/linked/LinkedTrie.java:141-149 | A scan on the graph returns a node carrying the letter. |
| LinkedDawg.ListScanAgrees | Trie-master/src/main/java/com/github/mikeherasimov/trie/linked/LinkedTrie.java:141-149 | `listScan` on the shared graph finds the node that `listScan` on the unfolded trie finds. |
| LinkedDawg.SearchAgrees | Trie-master/src/main/java/com/github/mikeherasimov/trie/linked/LinkedTrie.java:109-122 | `searchNodeBySequence` on the graph reaches the node the trie's search reaches. |
| LinkedDawg.QueriesAgree | Trie-master/src/main/java/com/github/mikeherasimov/trie/linked/LinkedDAWG.java:24-37 | `contains`, `isPrefix` and `size` of the DAWG answer as those of the trie it stands for. |
| LinkedDawg.EmptyDawg | Trie-master/src/main/java/com/github/mikeherasimov/trie/linked/LinkedDAWG.java:20-22 | `new LinkedDAWG()` stands for the empty trie: no word, only the empty prefix. |
| LinkedDawgCodec.Visit | src/main/java/com/github/mikeherasimov/trie/linked/LinkedDAWGSerializationHelper.java:36-50 | Numbers already given are kept, and new numbers are `0..` in visiting order. The node receives a number, the one returned. At most `countNodes` nodes are numbered, so every write stays in bounds. |
| LinkedDawgCodec.VisitLink | src/main/java/com/github/mikeherasimov/trie/linked/LinkedDAWGSerializationHelper.java:43-48 | Following one link keeps existing numbers and the array sizes, and numbers at most the nodes counted through that link. |
| LinkedDawgCodec.NumberNext | src/main/java/com/github/mikeherasimov/trie/linked/LinkedDAWGSerializationHelper.java:40-41 | Giving a new node the next number keeps the numbers exactly `0..count-1`, each used once. |
| LinkedDawgCodec.VisitRecords | src/main/java/com/github/mikeherasimov/trie/linked/LinkedDAWGSerializationHelper.java:36-55 | After the visit, every node numbered so far has its letter, flag, child number and brother number (0 for none) at its number. Unused entries stay as they were. |
| LinkedDawgCodec.EncodeRecords | src/main/java/com/github/mikeherasimov/trie/linked/LinkedDAWGSerializationHelper.java:28-34 | Encoding from the root gives the root number 0, numbers at most `countNodes` nodes, and records every numbered node. |
| LinkedDawgCodec.GenerateRootNode | Trie-master/src/main/java/com/github/mikeherasimov/trie/linked/LinkedDAWG.java:60-83 | Decoding succeeds exactly when there is a node, the arrays are long enough and every index is 0 or a node. Otherwise it is an index error. A success has one two-link node per letter. |
| LinkedDawgCodec.DecodeTables | Trie-master/src/main/java/com/github/mikeherasimov/trie/linked/LinkedDAWG.java:74-83 | Arrays that record every numbered node decode to the graph renumbered. An index decodes to that node and 0 to no link, so shared nodes stay shared. |
| LinkedDawgCodec.DecodeRenumbers | src/main/java/com/github/mikeherasimov/trie/linked/LinkedDAWGSerializationHelper.java:57-71 | The arrays cut to the number of distinct nodes decode without error to the graph, renumbered with the root at 0. |
| LinkedDawgCodec.UnfoldRenumbered | Trie-master/src/main/java/com/github/mikeherasimov/trie/linked/LinkedDAWG.java:74-83 | Each renumbered node stands for the same sparse node value as the original. |
| LinkedDawgCodec.RenumberedRanked | Trie-master/src/main/java/com/github/mikeherasimov/trie/linked/LinkedDAWG.java:60-65 | The decoded graph is acyclic, with two links per node. |
| LinkedDawgCodec.WriteReadRoundTrip | Trie-master/src/main/java/com/github/mikeherasimov/trie/linked/LinkedDAWG.java:39-58 | `readExternal` after `writeExternal` succeeds and gives a DAWG standing for the same trie. |
| LinkedDawgCodec.WriteReadQueries | Trie-master/src/main/java/com/github/mikeherasimov/trie/linked/LinkedDAWG.java:24-58 | The DAWG read back answers `contains`, `isPrefix` and `size` as the one written. |
| ArrayDawg.SearchSlotsAgrees | src/main/java/com/github/mikeherasimov/trie/array/ArrayTrie.java:134-146 | The slot search on the shared graph reaches what the trie's search reaches in the unfolded node, errors included. |
| ArrayDawg.ContainsAgrees | src/main/java/com/github/mikeherasimov/trie/array/ArrayDAWG.java:62-70 | `contains` and `size` of the dense DAWG answer as those of the trie it stands for. |
| ArrayDawg.SlotsDistinct | src/main/java/com/github/mikeherasimov/trie/array/ArrayTrie.java:153-182 | Children in their binary-search slots carry distinct letters, as the optimizer needs of siblings. |
| ArrayDawg.ToDAWG | src/main/java/com/github/mikeherasimov/trie/array/ArrayTrie.java:85-94 | `toDAWG` never fails. Its DAWG stands for the trie itself, has a node array with one entry per trie node and answers `contains` as the trie does. |
| LinkedToDawg.LinkedIsBinary | Trie-master/src/main/java/com/github/mikeherasimov/trie/linked/LinkedNode.java:16-17 | Every sparse node has exactly the two links child and brother. |
| LinkedToDawg.Optimize | Trie-master/src/main/java/com/github/mikeherasimov/trie/linked/LinkedTrie.java:78-84 | Optimising the sparse arrays gives a DAWG over `numberOfNodesInSubtrie` nodes that stands for the trie the arrays came from. |
| LinkedToDawg.ToDAWG | Trie-master/src/main/java/com/github/mikeherasimov/trie/linked/LinkedTrie.java:76-85 | The DAWG keeps the trie's size, and its node array has one entry per trie node. It stands for the trie, and `contains` and `isPrefix` agree with the trie's for every word. |
| LinkedToDawg.LeafPositionsAppend | src/main/java/com/github/mikeherasimov/trie/linked/LinkedTrie.java:202-206 | The leaves of two consecutive walks are those of the first followed by those of the second, shifted by its length. |
| LinkedToDawg.LeafsFromIsPositions | src/main/java/com/github/mikeherasimov/trie/linked/LinkedSubtrieConverter.java:61-71 | The converter's leaf list is the list of childless positions of the walk. |
| LinkedToDawg.WalkOfLinked | src/main/java/com/github/mikeherasimov/trie/linked/LinkedSubtrieConverter.java:25-33 | The sparse walk is the node, then its child's walk with the node as ancestor, then its brother's walk with the inherited ancestor. |
| LinkedToDawg.GetInfoIsWalk | src/main/java/com/github/mikeherasimov/trie/linked/LinkedTrie.java:193-211 | `getInfo` appends exactly what the sparse converter's walk records: the nodes, the ancestor entries and the increasing leaf indexes. |
| LinkedToDawg.GetInfoOfRoot | src/main/java/com/github/mikeherasimov/trie/linked/LinkedTrie.java:90-97 | From the root, `getInfo` fills arrays of `countNodes` length equal to `getAncestorIndexes` and `getLeafIndexes` of the sparse converter. |
| LinkedToDawg.AlphabetToDAWG | src/main/java/com/github/mikeherasimov/trie/linked/LinkedTrie.java:85-103 | The DAWG keeps the trie's size, and its node array has one entry per trie node. It stands for the trie's words and answers `contains` as the trie does for every word. |

## Left out

- Java object streams (`ObjectOutput`/`ObjectInput`, `writeUTF`, `writeObject`). The external forms are the values they carry: an int, strings, and char, boolean and int arrays.
- `hashCode`, `toString` and the Trove collections. They only serve Java hashing and printing; lists and the identity map are sequences and a map keyed by graph index.
- The static recursion counters. Each is modelled as a position passed in and returned, or as the index of a pre-order walk, so every call starts from the beginning. In Java the counter is reset to -1 only after the recursive call has returned normally (`deserializeSubtrie` at Trie-master/src/main/java/com/github/mikeherasimov/trie/linked/LinkedNode.java:136-140; `readExternal` and `toDAWG` in src/main/java/com/github/mikeherasimov/trie/linked/LinkedTrie.java:254-261 and :96-97). A decode that throws, on a malformed or truncated array, leaves the counter where it stopped. The next decode or `toDAWG` in the same class then starts at that stale position. The model does not represent this state shared between calls.
- Java `int` overflow of sizes, counters and indexes. Integers are unbounded, since a trie with 2^31 nodes does not fit in a Java array anyway.
- UTF-16 code units. A Java `char` is a UTF-16 code unit, and `add`, `contains` and the codecs index a word with `charAt`, one code unit per node. A Dafny `char` is a Unicode scalar value and cannot hold a surrogate (0xD800 to 0xDFFF). Words with a character above U+FFFF are therefore not modelled. Java stores such a character as two nodes, one per surrogate, so its node counts and encodings differ from anything the model produces. For words in the Basic Multilingual Plane the two views agree letter for letter.
- Object identity.
  - Values cannot state "shares no node with the original" for `newInstance` and the copy constructors. Only equality of the copy is stated.
  - The difference between `toDAWG()` working on a copy and the static `toDAWG(trie)` working on its argument in place is likewise invisible: both give the same DAWG.
- Partial mutation before an exception. A failing call returns an error instead of a half-changed trie.
  - `add` validates before it mutates, so nothing is lost.
  - The sparse `changeRefs` dereferencing null after earlier redirects is modelled only as the error.
- `ArrayTrie.writeExternal`/`readExternal`. They call `ArrayNode.serializeSubtrie` and `deserializeSubtrie`, and `ArrayNode.numberOfNodesInSubtrie` is called by the delegating `countNodes`. None of these three bodies is part of this model. The recursive `countNodes` of the other source tree stands in for the count.
- The `Builder` classes and the thin wrappers.
  - `src/main/java/.../linked/LinkedDAWG.java` and `ArrayDAWG` only delegate to their trie. Their queries are `LinkedDawg` and `ArrayDawg` over the graph.
  - Builders call constructors and static methods that the shown sources do not define.
- Interfaces and enums without logic: `Trie`, `WordGraph`, `DAWG`, `Node`, `Alphabet`, `CommonAlphabets`, `SubtrieConverter`, `OptimizerBehaviour`. `CommonAlphabets` only supplies constant strings.
- Decoded graphs that contain a cycle. `readExternal` accepts any in-range indexes. The model's decoder checks exactly what Java checks, but queries and the round trip are stated for acyclic graphs, which is what `writeExternal` produces.
- Optimizer.EliminateDuplicates: the result is stated only for a successful run. It is not proved that the sparse `changeRefs` never meets the null dereference, so for the sparse layout the contract is conditional on `Ok`. That duplicates always change the graph is stated for dense graphs only. In the sparse layout a node's recorded ancestor need not hold the link to it (a brother is linked from its elder brother), so the argument does not carry over. Which pairs end up shared is not stated beyond each single comparison (`CompareAndEliminate`).
- Optimizer.CompareAndEliminate: like `EliminateDuplicates`, the sparse case is stated for a successful `changeRefs` only.
- LinkedCodec.RoundTrip: stated only for trees with no `')'` or `'*'` letter. `add` accepts any `char` (Trie-master/src/main/java/com/github/mikeherasimov/trie/linked/LinkedTrie.java:56-63), but the encoding uses these two letters as markers (Trie-master/src/main/java/com/github/mikeherasimov/trie/linked/LinkedNode.java:121-157). A node with such a letter is corrupted on the way back, as `LinkedTrie.MarkerWordsCorrupted` shows.
- LinkedTrie.ExternalRoundTrip: stated only for marker-free tries, for the same reason. Words containing `'*'` or `')'` do not survive `writeExternal` followed by `readExternal`.
- AlphabetLinkedTrie.ExternalRoundTrip: stated only for marker-free tries, for the same reason. An alphabet that contains `'*'` or `')'` lets such words in, and they are corrupted the same way.
- LinkedToDawg.Optimize: conditional on the optimizer succeeding, for the same reason.
- LinkedToDawg.ToDAWG: conditional on the optimizer succeeding, for the same reason. It also requires the trie invariant, which every trie built by the constructor and `add` keeps (`LinkedTrie.AddKeepsValid`).
- LinkedToDawg.AlphabetToDAWG: conditional on the optimizer succeeding, for the same reason. It also requires the invariant `AlphabetLinkedTrie.AddKeepsValid` maintains.
- ArrayDawg.ToDAWG: requires the trie invariant: sorted alphabet, alphabet-many slots, children in their letters' slots. `ArrayTrie.EmptyTrie` and `ArrayTrie.AddKeepsValid` show every trie built through the API keeps it. Without it the climb of `compareAndEliminate` need not terminate.
