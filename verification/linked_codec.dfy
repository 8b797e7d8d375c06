/** The pre-order character encoding of a sparse subtrie.

    A node is written as its letter, then `'*'` when it ends a word, then the
    encoding of its child, then the encoding of its brother; a null reference
    is written as `')'`.  The decoder replays the same grammar.  The Java
    decoder keeps its read position in a static counter that is reset after
    every top-level call; here the position is threaded through the calls. */
module LinkedCodec {
  import opened Outcome
  import opened LinkedNodes

  const NullMark: char := ')'
  const EowMark: char := '*'

  /** `preorderSerialize`. */
  function Serialize(n: LinkedNode): seq<char>
  {
    if n.Nil? then [NullMark]
    else [n.letter] + (if n.eow then [EowMark] else []) + Serialize(n.child) + Serialize(n.brother)
  }

  /** `serializeSubtrie`. */
  function SerializeSubtrie(n: LinkedNode): seq<char>
    requires n.Node?
  {
    Serialize(n)
  }

  /** `preorderDeserialize` reading from position `pos`: the decoded node and
      the position after it.  Reading past the end of the array is the Java
      `ArrayIndexOutOfBoundsException`; that includes the look-ahead for `'*'`
      just after a letter. */
  function Deserialize(s: seq<char>, pos: nat): (r: Result<(LinkedNode, nat)>)
    ensures r.Ok? ==> pos < r.value.1 <= |s|
    decreases |s| - pos
  {
    if pos >= |s| then Err(IndexOutOfBounds)
    else if s[pos] == NullMark then Ok((Nil, pos + 1))
    else if pos + 1 >= |s| then Err(IndexOutOfBounds)
    else
      var eow := s[pos + 1] == EowMark;
      var next := if eow then pos + 2 else pos + 1;
      match Deserialize(s, next)
      case Err(e) => Err(e)
      case Ok((child, afterChild)) =>
        match Deserialize(s, afterChild)
        case Err(e) => Err(e)
        case Ok((brother, afterBrother)) => Ok((Node(s[pos], eow, child, brother), afterBrother))
  }

  /** `deserializeSubtrie`: decoding always starts at the first character. */
  function DeserializeSubtrie(s: seq<char>): Result<LinkedNode>
  {
    match Deserialize(s, 0)
    case Err(e) => Err(e)
    case Ok((n, _)) => Ok(n)
  }

  /** No node letter collides with one of the two markers. */
  predicate NoReservedLetters(n: LinkedNode)
  {
    n.Node? ==>
      n.letter != NullMark && n.letter != EowMark &&
      NoReservedLetters(n.child) && NoReservedLetters(n.brother)
  }

  function NodeCount(n: LinkedNode): nat
  {
    if n.Nil? then 0 else NumberOfNodesInSubtrie(n)
  }

  function EowCount(n: LinkedNode): nat
  {
    if n.Nil? then 0 else (if n.eow then 1 else 0) + EowCount(n.child) + EowCount(n.brother)
  }

  // ---------------------------------------------------------------------
  // Properties

  /** The encoding starts with the node's letter, or with `')'` for null. */
  lemma SerializeHead(n: LinkedNode)
    ensures |Serialize(n)| > 0
    ensures Serialize(n)[0] == if n.Nil? then NullMark else n.letter
    ensures n.Node? ==> |Serialize(n)| >= 3
  {
  }

  /** The characters a node writes before its child's encoding. */
  function Head(n: LinkedNode): seq<char>
    requires n.Node?
  {
    [n.letter] + (if n.eow then [EowMark] else [])
  }

  lemma SerializeSplit(n: LinkedNode)
    requires n.Node?
    ensures Serialize(n) == Head(n) + Serialize(n.child) + Serialize(n.brother)
  {
  }

  /** `e` occurs in `s` starting at position `pos`. */
  predicate OccursAt(s: seq<char>, pos: nat, e: seq<char>)
  {
    pos + |e| <= |s| && forall k :: 0 <= k < |e| ==> s[pos + k] == e[k]
  }

  lemma OccursAtSplit(s: seq<char>, pos: nat, x: seq<char>, y: seq<char>)
    requires OccursAt(s, pos, x + y)
    ensures OccursAt(s, pos, x) && OccursAt(s, pos + |x|, y)
  {
    forall k | 0 <= k < |y|
      ensures s[pos + |x| + k] == y[k]
    {
      assert (x + y)[|x| + k] == y[k];
    }
    forall k | 0 <= k < |x|
      ensures s[pos + k] == x[k]
    {
      assert (x + y)[k] == x[k];
    }
  }

  /** Decoding a well-formed encoding found at `pos` gives back the node and
      stops right after it, whatever follows. */
  lemma {:induction false} DeserializeSerialized(n: LinkedNode, s: seq<char>, pos: nat)
    requires NoReservedLetters(n)
    requires OccursAt(s, pos, Serialize(n))
    ensures Deserialize(s, pos) == Ok((n, pos + |Serialize(n)|))
  {
    SerializeHead(n);
    assert s[pos + 0] == Serialize(n)[0];
    if n.Node? {
      var head := Head(n);
      var ec := Serialize(n.child);
      var eb := Serialize(n.brother);
      SerializeSplit(n);
      OccursAtSplit(s, pos, head + ec, eb);
      OccursAtSplit(s, pos, head, ec);
      var next := pos + |head|;
      SerializeHead(n.child);
      if n.eow {
        assert s[pos + 1] == head[1];
      } else {
        assert s[next + 0] == ec[0];
      }
      DeserializeSerialized(n.child, s, next);
      DeserializeSerialized(n.brother, s, next + |ec|);
    }
  }

  /** `deserializeSubtrie(serializeSubtrie(n))` equals `n`, provided no letter
      is one of the two markers. */
  lemma RoundTrip(n: LinkedNode)
    requires n.Node? && NoReservedLetters(n)
    ensures DeserializeSubtrie(SerializeSubtrie(n)) == Ok(n)
  {
    DeserializeSerialized(n, Serialize(n), 0);
  }

  /** The encoding holds one letter per node, one `'*'` per end-of-word node
      and `NodeCount + 1` null markers: one per absent child or brother link. */
  lemma EncodingLength(n: LinkedNode)
    requires NoReservedLetters(n)
    ensures multiset(Serialize(n))[NullMark] == NodeCount(n) + 1
    ensures multiset(Serialize(n))[EowMark] == EowCount(n)
    ensures |Serialize(n)| == 2 * NodeCount(n) + EowCount(n) + 1
  {
    NullMarkCount(n);
    EowMarkCount(n);
    SerializedLength(n);
  }

  lemma {:induction false} NullMarkCount(n: LinkedNode)
    requires NoReservedLetters(n)
    ensures multiset(Serialize(n))[NullMark] == NodeCount(n) + 1
  {
    if n.Node? {
      NullMarkCount(n.child);
      NullMarkCount(n.brother);
      SerializeSplit(n);
      assert multiset(Head(n))[NullMark] == 0;
    }
  }

  lemma {:induction false} EowMarkCount(n: LinkedNode)
    requires NoReservedLetters(n)
    ensures multiset(Serialize(n))[EowMark] == EowCount(n)
  {
    if n.Node? {
      EowMarkCount(n.child);
      EowMarkCount(n.brother);
      SerializeSplit(n);
      assert multiset(Head(n))[EowMark] == if n.eow then 1 else 0;
    }
  }

  lemma {:induction false} SerializedLength(n: LinkedNode)
    ensures |Serialize(n)| == 2 * NodeCount(n) + EowCount(n) + 1
  {
    if n.Node? {
      SerializedLength(n.child);
      SerializedLength(n.brother);
      SerializeSplit(n);
    }
  }

  /** Appending characters after a decodable encoding changes nothing. */
  lemma {:induction false} DeserializePrefix(s: seq<char>, t: seq<char>, pos: nat)
    ensures Deserialize(s, pos).Ok? ==> Deserialize(s + t, pos) == Deserialize(s, pos)
    decreases |s| - pos
  {
    if pos < |s| && s[pos] != NullMark && pos + 1 < |s| {
      var u := s + t;
      assert u[pos] == s[pos] && u[pos + 1] == s[pos + 1];
      var next := if s[pos + 1] == EowMark then pos + 2 else pos + 1;
      DeserializePrefix(s, t, next);
      match Deserialize(s, next)
      case Err(_) =>
      case Ok((_, afterChild)) =>
        DeserializePrefix(s, t, afterChild);
    } else if pos < |s| {
      assert (s + t)[pos] == s[pos];
    }
  }
}
