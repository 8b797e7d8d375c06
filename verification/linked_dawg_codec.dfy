/** The array encoding of a sparse DAWG (`LinkedDAWGSerializationHelper`,
    `LinkedDAWG.writeExternal` / `readExternal`).

    `calculateValues` numbers the distinct node objects reachable from the
    root in depth-first order (child before brother), remembering each
    object's number in an identity map, and records for each number the
    letter, the flag and the numbers of the child and the brother; `0`
    stands for "none", which is safe because number 0 is the root and the
    root is nobody's child or brother.  Decoding rebuilds one node per
    number and reconnects the references. */
module LinkedDawgCodec {
  import opened Outcome
  import opened Arena
  import opened OptimizerBehaviour
  import opened LinkedDawg

  /** The four arrays the helper hands out. */
  datatype Tables = Tables(letters: seq<char>, eows: seq<bool>, childIndexes: seq<int>, brotherIndexes: seq<int>)

  /** The helper's working state: the identity map from node object
      (position) to number, and the four arrays. */
  datatype Helper = Helper(ids: map<nat, nat>, tables: Tables)

  /** Four freshly allocated Java arrays of length `n`. */
  function Blank(n: nat): Tables
  {
    Tables(seq(n, _ => '\0'), seq(n, _ => false), seq(n, _ => 0), seq(n, _ => 0))
  }

  predicate Sized(t: Tables, n: nat)
  {
    |t.letters| == n && |t.eows| == n && |t.childIndexes| == n && |t.brotherIndexes| == n
  }

  /** The numbers handed out so far are exactly `0 .. |ids|-1`, each once. */
  ghost predicate Numbered(ids: map<nat, nat>)
  {
    (forall h :: h in ids ==> ids[h] < |ids|) &&
    (forall h1, h2 :: h1 in ids && h2 in ids && ids[h1] == ids[h2] ==> h1 == h2) &&
    (forall j :: 0 <= j < |ids| ==> j in ids.Values)
  }

  /** The nodes counted through link `i` of position `h`. */
  function LinkCount(a: seq<Rec>, ghost rank: seq<nat>, h: nat, i: nat): nat
    requires Ranked(a, rank) && h < |a| && i < |a[h].links|
  {
    if a[h].links[i].Null? then 0 else Count(a, rank, a[h].links[i].h)
  }

  /** Array `i` (children for 0, brothers for 1) with entry `idx` set to `v`. */
  function SetIndex(t: Tables, i: nat, idx: nat, v: int): (r: Tables)
    requires idx < |t.childIndexes| && idx < |t.brotherIndexes|
    ensures Sized(t, |t.letters|) ==> Sized(r, |t.letters|)
  {
    if i == 0 then t.(childIndexes := t.childIndexes[idx := v])
    else t.(brotherIndexes := t.brotherIndexes[idx := v])
  }

  /** The recursive `calculateValues(identityMap, current)` on the node at
      position `h`: its number, and the state afterwards.  A node seen
      before keeps its number; a new one gets the next number, and then its
      child and its brother are numbered in that order. */
  function Visit(a: seq<Rec>, ghost rank: seq<nat>, h: nat, e: Helper): (r: (Helper, nat))
    requires Ranked(a, rank) && Binary(a) && h < |a|
    requires Numbered(e.ids) && Sized(e.tables, |e.tables.letters|)
    requires |e.ids| + Count(a, rank, h) <= |e.tables.letters|
    ensures Sized(r.0.tables, |e.tables.letters|) && Numbered(r.0.ids)
    ensures forall k :: k in e.ids ==> k in r.0.ids && r.0.ids[k] == e.ids[k]
    ensures |e.ids| <= |r.0.ids| <= |e.ids| + Count(a, rank, h)
    ensures h in r.0.ids && r.1 == r.0.ids[h]
    decreases rank[h], 1
  {
    if h in e.ids then (e, e.ids[h])
    else
      CountBinary(a, rank, h);
      NumberNext(e.ids, h);
      var idx := |e.ids|;
      var t := e.tables;
      var e1 := Helper(e.ids[h := idx], t.(letters := t.letters[idx := a[h].letter], eows := t.eows[idx := a[h].eow]));
      var e2 := VisitLink(a, rank, h, 0, e1);
      var e3 := VisitLink(a, rank, h, 1, e2);
      KeptTrans(e.ids, e1.ids, e2.ids, e3.ids);
      (e3, idx)
  }

  /** `m'` keeps every number `m` gave. */
  ghost predicate Kept(m: map<nat, nat>, m': map<nat, nat>)
  {
    forall k :: k in m ==> k in m' && m'[k] == m[k]
  }

  lemma KeptTrans(m1: map<nat, nat>, m2: map<nat, nat>, m3: map<nat, nat>, m4: map<nat, nat>)
    requires Kept(m1, m2) && Kept(m2, m3) && Kept(m3, m4)
    ensures Kept(m1, m4)
  {
  }

  /** Numbering what link `i` of `h` refers to, and recording its number in
      the entry of `h`; a null link leaves the entry at its initial 0. */
  function VisitLink(a: seq<Rec>, ghost rank: seq<nat>, h: nat, i: nat, e: Helper): (r: Helper)
    requires Ranked(a, rank) && Binary(a) && h < |a| && i < 2
    requires Numbered(e.ids) && Sized(e.tables, |e.tables.letters|)
    requires h in e.ids && |e.ids| + LinkCount(a, rank, h, i) <= |e.tables.letters|
    ensures Sized(r.tables, |e.tables.letters|) && Numbered(r.ids)
    ensures forall k :: k in e.ids ==> k in r.ids && r.ids[k] == e.ids[k]
    ensures |e.ids| <= |r.ids| <= |e.ids| + LinkCount(a, rank, h, i)
    decreases rank[h], 0
  {
    if a[h].links[i].Null? then e
    else
      var (e', v) := Visit(a, rank, a[h].links[i].h, e);
      e'.(tables := SetIndex(e'.tables, i, e.ids[h], v))
  }

  /** `new LinkedDAWGSerializationHelper(root).calculateValues()` followed by
      the four getters, which cut the arrays to the number of distinct nodes. */
  function CalculateValues(a: seq<Rec>, ghost rank: seq<nat>, root: nat): (t: Tables)
    requires Ranked(a, rank) && Binary(a) && root < |a|
  {
    var n := Count(a, rank, root);
    var (e, _) := Visit(a, rank, root, Helper(map[], Blank(n)));
    var d := |e.ids|;
    Tables(e.tables.letters[..d], e.tables.eows[..d], e.tables.childIndexes[..d], e.tables.brotherIndexes[..d])
  }

  /** `writeExternal`: the size and the four arrays of the root's graph. */
  function WriteExternal(d: LinkedDAWG, ghost rank: seq<nat>): (int, Tables)
    requires Valid(d, rank)
  {
    (d.size, CalculateValues(d.nodes, rank, 0))
  }

  /** A stored number is "none" or the index of a node. */
  predicate IndexOk(x: int, n: nat)
  {
    x == 0 || 0 <= x < n
  }

  function RefOf(x: int): Ref
  {
    if x <= 0 then Null else Ptr(x as nat)
  }

  /** `generateRootNode`: one node per letter (`fillNodes`), references
      restored from the index arrays (`restoreReferences`), the node graph
      with the root at position 0.  An array shorter than `letters`, an index
      outside the nodes, or no nodes at all is an
      `ArrayIndexOutOfBoundsException`. */
  function GenerateRootNode(t: Tables): (r: Result<seq<Rec>>)
    ensures r.Ok? <==>
              (0 < |t.letters| && |t.letters| <= |t.eows| && |t.letters| <= |t.childIndexes| &&
               |t.letters| <= |t.brotherIndexes| &&
               forall i :: 0 <= i < |t.letters| ==>
                 IndexOk(t.childIndexes[i], |t.letters|) && IndexOk(t.brotherIndexes[i], |t.letters|))
    ensures r.Err? ==> r.error == IndexOutOfBounds
    ensures r.Ok? ==> |r.value| == |t.letters| && Binary(r.value)
  {
    var n := |t.letters|;
    if |t.eows| < n || |t.childIndexes| < n || |t.brotherIndexes| < n then Err(IndexOutOfBounds)
    else if !(forall i :: 0 <= i < n ==> IndexOk(t.childIndexes[i], n) && IndexOk(t.brotherIndexes[i], n)) then
      Err(IndexOutOfBounds)
    else if n == 0 then Err(IndexOutOfBounds)
    else
      Ok(seq(n, i requires 0 <= i < n =>
               Rec(t.letters[i], t.eows[i], [RefOf(t.childIndexes[i]), RefOf(t.brotherIndexes[i])])))
  }

  /** `readExternal`. */
  function ReadExternal(size: int, t: Tables): Result<LinkedDAWG>
  {
    var nodes :- GenerateRootNode(t);
    Ok(LinkedDAWG(size, nodes))
  }

  // ---------------------------------------------------------------------
  // Properties of the encoder

  /** A node's count is one plus the counts of its child and brother. */
  lemma CountBinary(a: seq<Rec>, rank: seq<nat>, h: nat)
    requires Ranked(a, rank) && Binary(a) && h < |a|
    ensures Count(a, rank, h) == 1 + LinkCount(a, rank, h, 0) + LinkCount(a, rank, h, 1)
  {
    assert Count(a, rank, h) == 1 + CountFrom(a, rank, h, 0);
    assert CountFrom(a, rank, h, 0) == LinkCount(a, rank, h, 0) + CountFrom(a, rank, h, 1);
    assert CountFrom(a, rank, h, 1) == LinkCount(a, rank, h, 1) + CountFrom(a, rank, h, 2);
    assert CountFrom(a, rank, h, 2) == 0;
  }

  /** Giving a new node the next number keeps the numbering exact. */
  lemma NumberNext(ids: map<nat, nat>, h: nat)
    requires Numbered(ids) && h !in ids
    ensures |ids[h := |ids|]| == |ids| + 1 && Numbered(ids[h := |ids|])
  {
    var ids' := ids[h := |ids|];
    NextBelow(ids, h, ids');
    NextInjective(ids, h, ids');
    NextCovers(ids, h, ids');
  }

  lemma NextBelow(ids: map<nat, nat>, h: nat, ids': map<nat, nat>)
    requires Numbered(ids) && h !in ids && ids' == ids[h := |ids|]
    ensures |ids'| == |ids| + 1 && forall k :: k in ids' ==> ids'[k] < |ids'|
  {
    assert ids'.Keys == ids.Keys + {h};
    assert |ids'.Keys| == |ids.Keys| + 1;
  }

  lemma NextInjective(ids: map<nat, nat>, h: nat, ids': map<nat, nat>)
    requires Numbered(ids) && h !in ids && ids' == ids[h := |ids|]
    ensures forall h1, h2 :: h1 in ids' && h2 in ids' && ids'[h1] == ids'[h2] ==> h1 == h2
  {
    forall h1, h2 | h1 in ids' && h2 in ids' && ids'[h1] == ids'[h2]
      ensures h1 == h2
    {
      if h1 != h && h2 != h {
        assert ids[h1] == ids[h2];
      }
    }
  }

  lemma NextCovers(ids: map<nat, nat>, h: nat, ids': map<nat, nat>)
    requires Numbered(ids) && h !in ids && ids' == ids[h := |ids|]
    ensures forall j :: 0 <= j < |ids| + 1 ==> j in ids'.Values
  {
    var n := |ids|;
    forall j | 0 <= j < n + 1
      ensures j in ids'.Values
    {
      if j < n {
        assert j in ids.Values;
        var k :| k in ids && ids[k] == j;
        assert k in ids' && ids'[k] == j;
      } else {
        assert h in ids' && ids'[h] == j;
      }
    }
  }

  /** Entry `j` of the child (`i == 0`) or brother (`i == 1`) array. */
  function Entry(t: Tables, i: nat, j: nat): int
    requires j < |t.childIndexes| && j < |t.brotherIndexes|
  {
    if i == 0 then t.childIndexes[j] else t.brotherIndexes[j]
  }

  /** Entry `j` is the same in both states. */
  ghost predicate SameAt(t: Tables, u: Tables, j: nat)
  {
    Sized(t, |t.letters|) && Sized(u, |t.letters|) && j < |t.letters| &&
    t.letters[j] == u.letters[j] && t.eows[j] == u.eows[j] &&
    t.childIndexes[j] == u.childIndexes[j] && t.brotherIndexes[j] == u.brotherIndexes[j]
  }

  /** The index arrays still hold their initial zeros from number `n` on. */
  ghost predicate BlankFrom(t: Tables, n: nat)
  {
    forall j :: n <= j < |t.childIndexes| && j < |t.brotherIndexes| ==>
      t.childIndexes[j] == 0 && t.brotherIndexes[j] == 0
  }

  /** How a link is stored: `0` for null, otherwise the target's number. */
  ghost predicate LinkStored(l: Ref, ids: map<nat, nat>, x: int)
  {
    if l.Null? then x == 0 else l.h in ids && x == ids[l.h]
  }

  /** The entry numbered for position `k` records its letter, its flag, and
      its child and brother. */
  ghost predicate Recorded(a: seq<Rec>, ids: map<nat, nat>, t: Tables, k: nat)
  {
    k < |a| && |a[k].links| == 2 && k in ids && Sized(t, |t.letters|) && ids[k] < |t.letters| &&
    t.letters[ids[k]] == a[k].letter && t.eows[ids[k]] == a[k].eow &&
    LinkStored(a[k].links[0], ids, t.childIndexes[ids[k]]) &&
    LinkStored(a[k].links[1], ids, t.brotherIndexes[ids[k]])
  }

  /** A recorded entry stays recorded while numbers are only added and the
      entry itself is not written. */
  lemma RecordedKept(a: seq<Rec>, ids: map<nat, nat>, t: Tables, ids': map<nat, nat>, t': Tables, k: nat)
    requires Recorded(a, ids, t, k)
    requires forall x :: x in ids ==> x in ids' && ids'[x] == ids[x]
    requires SameAt(t, t', ids[k])
    ensures Recorded(a, ids', t', k)
  {
  }

  /** Numbers handed out after `ids` are at least `|ids|`. */
  lemma NewNumbersAbove(ids: map<nat, nat>, ids': map<nat, nat>, k: nat)
    requires Numbered(ids) && Numbered(ids')
    requires forall x :: x in ids ==> x in ids' && ids'[x] == ids[x]
    requires k in ids' && k !in ids
    ensures |ids| <= ids'[k]
  {
    forall x | x in ids
      ensures ids[x] != ids'[k]
    {
      assert ids'[x] == ids[x];
    }
    assert ids'[k] !in ids.Values;
  }

  /** What `calculateValues` on position `h` leaves behind in `r`, started
      from `e`: nothing below the numbers it started from changes, the
      entries above are still blank, and every node it numbered has its
      entry recorded and lies no higher than `h`. */
  ghost predicate Visited(a: seq<Rec>, rank: seq<nat>, h: nat, e: Helper, r: Helper)
  {
    |rank| == |a| && h < |a| &&
    BlankFrom(r.tables, |r.ids|) &&
    (forall j :: 0 <= j < |e.ids| ==> SameAt(e.tables, r.tables, j)) &&
    (forall k :: k in r.ids && k !in e.ids ==> Recorded(a, r.ids, r.tables, k) && rank[k] <= rank[h])
  }

  /** What following link `i` of the freshly numbered `h` leaves behind:
      the entry of `h` for that link is written, the rest of that entry and
      every other old entry is kept, and every node numbered on the way has
      its entry recorded and lies below `h`. */
  ghost predicate LinkWritten(a: seq<Rec>, rank: seq<nat>, h: nat, i: nat, e: Helper, r: Helper)
  {
    |rank| == |a| && h < |a| && i < 2 && |a[h].links| == 2 &&
    h in e.ids && e.ids[h] < |e.ids| <= |e.tables.letters| &&
    Sized(e.tables, |e.tables.letters|) && Sized(r.tables, |e.tables.letters|) &&
    var idx := e.ids[h];
    BlankFrom(r.tables, |r.ids|) &&
    (forall j :: 0 <= j < |e.ids| && j != idx ==> SameAt(e.tables, r.tables, j)) &&
    r.tables.letters[idx] == e.tables.letters[idx] && r.tables.eows[idx] == e.tables.eows[idx] &&
    Entry(r.tables, 1 - i, idx) == Entry(e.tables, 1 - i, idx) &&
    (a[h].links[i].Null? ==> r == e) &&
    (a[h].links[i].Ptr? ==> LinkStored(a[h].links[i], r.ids, Entry(r.tables, i, idx))) &&
    (forall k :: k in r.ids && k !in e.ids ==> Recorded(a, r.ids, r.tables, k) && rank[k] < rank[h])
  }

  lemma {:induction false} VisitRecords(a: seq<Rec>, rank: seq<nat>, h: nat, e: Helper)
    requires Ranked(a, rank) && Binary(a) && h < |a|
    requires Numbered(e.ids) && Sized(e.tables, |e.tables.letters|)
    requires |e.ids| + Count(a, rank, h) <= |e.tables.letters|
    requires BlankFrom(e.tables, |e.ids|)
    ensures Visited(a, rank, h, e, Visit(a, rank, h, e).0)
    decreases rank[h], 1
  {
    if h !in e.ids {
      CountBinary(a, rank, h);
      NumberNext(e.ids, h);
      var idx := |e.ids|;
      var t := e.tables;
      var e1 := Helper(e.ids[h := idx], t.(letters := t.letters[idx := a[h].letter], eows := t.eows[idx := a[h].eow]));
      VisitLinkRecords(a, rank, h, 0, e1);
      var e2 := VisitLink(a, rank, h, 0, e1);
      VisitLinkRecords(a, rank, h, 1, e2);
      var e3 := VisitLink(a, rank, h, 1, e2);
      NumberedLinks(a, rank, h, e, e1, e2, e3);
      assert Visit(a, rank, h, e).0 == e3;
    }
  }

  /** The states of `calculateValues` on `h`: `e` before, `e1` after
      numbering `h` and recording its letter and flag, `e2` and `e3` after
      following its child and its brother. */
  ghost predicate LinksFollowed(a: seq<Rec>, rank: seq<nat>, h: nat, e: Helper, e1: Helper, e2: Helper, e3: Helper)
  {
    |rank| == |a| && h < |a| && |a[h].links| == 2 &&
    Numbered(e.ids) && h !in e.ids && |e.ids| < |e.tables.letters| &&
    Sized(e.tables, |e.tables.letters|) && BlankFrom(e.tables, |e.ids|) &&
    e1 == Helper(e.ids[h := |e.ids|], e.tables.(letters := e.tables.letters[|e.ids| := a[h].letter],
                                                eows := e.tables.eows[|e.ids| := a[h].eow])) &&
    Numbered(e1.ids) && Numbered(e2.ids) && |e1.ids| == |e.ids| + 1 &&
    (forall x :: x in e1.ids ==> x in e2.ids && e2.ids[x] == e1.ids[x]) &&
    (forall x :: x in e2.ids ==> x in e3.ids && e3.ids[x] == e2.ids[x]) &&
    LinkWritten(a, rank, h, 0, e1, e2) && LinkWritten(a, rank, h, 1, e2, e3)
  }

  lemma LinksKeepOld(a: seq<Rec>, rank: seq<nat>, h: nat, e: Helper, e1: Helper, e2: Helper, e3: Helper)
    requires LinksFollowed(a, rank, h, e, e1, e2, e3)
    ensures forall j :: 0 <= j < |e.ids| ==> SameAt(e.tables, e3.tables, j)
  {
    forall j | 0 <= j < |e.ids|
      ensures SameAt(e.tables, e3.tables, j)
    {
      assert SameAt(e1.tables, e2.tables, j);
      assert SameAt(e2.tables, e3.tables, j);
    }
  }

  lemma LinksRecordSelf(a: seq<Rec>, rank: seq<nat>, h: nat, e: Helper, e1: Helper, e2: Helper, e3: Helper)
    requires LinksFollowed(a, rank, h, e, e1, e2, e3)
    ensures Recorded(a, e3.ids, e3.tables, h)
  {
    if a[h].links[0].Null? {
      assert e2 == e1;
    }
  }

  lemma LinksRecordBelow(a: seq<Rec>, rank: seq<nat>, h: nat, e: Helper, e1: Helper, e2: Helper, e3: Helper, k: nat)
    requires LinksFollowed(a, rank, h, e, e1, e2, e3)
    requires k in e3.ids && k !in e.ids && k != h
    ensures Recorded(a, e3.ids, e3.tables, k) && rank[k] <= rank[h]
  {
    var idx := |e.ids|;
    if k in e2.ids {
      NewNumbersAbove(e1.ids, e2.ids, k);
      assert e2.ids[k] != idx;
      assert SameAt(e2.tables, e3.tables, e2.ids[k]);
      RecordedKept(a, e2.ids, e2.tables, e3.ids, e3.tables, k);
    }
  }

  /** Numbering `h` and then following its two links records `h` itself. */
  lemma NumberedLinks(a: seq<Rec>, rank: seq<nat>, h: nat, e: Helper, e1: Helper, e2: Helper, e3: Helper)
    requires LinksFollowed(a, rank, h, e, e1, e2, e3)
    ensures Visited(a, rank, h, e, e3)
  {
    LinksKeepOld(a, rank, h, e, e1, e2, e3);
    LinksRecordSelf(a, rank, h, e, e1, e2, e3);
    forall k | k in e3.ids && k !in e.ids
      ensures Recorded(a, e3.ids, e3.tables, k) && rank[k] <= rank[h]
    {
      if k != h {
        LinksRecordBelow(a, rank, h, e, e1, e2, e3, k);
      }
    }
  }

  /** `e'` is what visiting a link target below `bound` leaves, started
      from `e` in which `idx` is numbered. */
  ghost predicate VisitedBelow(a: seq<Rec>, rank: seq<nat>, bound: nat, e: Helper, e': Helper, idx: nat)
  {
    |rank| == |a| && idx < |e.ids| &&
    Numbered(e.ids) && Numbered(e'.ids) && Sized(e'.tables, |e'.tables.letters|) && Sized(e.tables, |e'.tables.letters|) &&
    (forall x :: x in e.ids ==> x in e'.ids && e'.ids[x] == e.ids[x]) &&
    |e.ids| <= |e'.ids| <= |e'.tables.letters| &&
    BlankFrom(e'.tables, |e'.ids|) &&
    (forall j :: 0 <= j < |e.ids| ==> SameAt(e.tables, e'.tables, j)) &&
    (forall k :: k in e'.ids && k !in e.ids ==> Recorded(a, e'.ids, e'.tables, k) && rank[k] < bound)
  }

  lemma WriteKeepsOld(a: seq<Rec>, rank: seq<nat>, bound: nat, e: Helper, e': Helper, i: nat, idx: nat, v: nat)
    requires VisitedBelow(a, rank, bound, e, e', idx) && i < 2
    ensures forall j :: 0 <= j < |e.ids| && j != idx ==> SameAt(e.tables, SetIndex(e'.tables, i, idx, v), j)
  {
    var u := SetIndex(e'.tables, i, idx, v);
    forall j | 0 <= j < |e.ids| && j != idx
      ensures SameAt(e.tables, u, j)
    {
      assert SameAt(e.tables, e'.tables, j);
    }
  }

  lemma WriteKeepsRecorded(a: seq<Rec>, rank: seq<nat>, bound: nat, e: Helper, e': Helper, i: nat, idx: nat, v: nat)
    requires VisitedBelow(a, rank, bound, e, e', idx) && i < 2
    ensures forall k :: k in e'.ids && k !in e.ids ==> Recorded(a, e'.ids, SetIndex(e'.tables, i, idx, v), k) && rank[k] < bound
  {
    var u := SetIndex(e'.tables, i, idx, v);
    forall k | k in e'.ids && k !in e.ids
      ensures Recorded(a, e'.ids, u, k) && rank[k] < bound
    {
      NewNumbersAbove(e.ids, e'.ids, k);
      assert SameAt(e'.tables, u, e'.ids[k]);
      RecordedKept(a, e'.ids, e'.tables, e'.ids, u, k);
    }
  }

  /** Writing the number of a visited link into entry `idx` keeps what the
      visit established. */
  lemma WriteLinkEntry(a: seq<Rec>, rank: seq<nat>, bound: nat, e: Helper, e': Helper, i: nat, idx: nat, v: nat)
    requires VisitedBelow(a, rank, bound, e, e', idx) && i < 2
    ensures var u := SetIndex(e'.tables, i, idx, v);
            BlankFrom(u, |e'.ids|) &&
            (forall j :: 0 <= j < |e.ids| && j != idx ==> SameAt(e.tables, u, j)) &&
            u.letters[idx] == e.tables.letters[idx] && u.eows[idx] == e.tables.eows[idx] &&
            Entry(u, 1 - i, idx) == Entry(e.tables, 1 - i, idx) && Entry(u, i, idx) == v &&
            (forall k :: k in e'.ids && k !in e.ids ==> Recorded(a, e'.ids, u, k) && rank[k] < bound)
  {
    assert SameAt(e.tables, e'.tables, idx);
    WriteKeepsOld(a, rank, bound, e, e', i, idx, v);
    WriteKeepsRecorded(a, rank, bound, e, e', i, idx, v);
  }

  lemma {:induction false} VisitLinkRecords(a: seq<Rec>, rank: seq<nat>, h: nat, i: nat, e: Helper)
    requires Ranked(a, rank) && Binary(a) && h < |a| && i < 2
    requires Numbered(e.ids) && Sized(e.tables, |e.tables.letters|)
    requires h in e.ids && |e.ids| + LinkCount(a, rank, h, i) <= |e.tables.letters|
    requires BlankFrom(e.tables, |e.ids|)
    ensures LinkWritten(a, rank, h, i, e, VisitLink(a, rank, h, i, e))
    decreases rank[h], 0
  {
    var idx := e.ids[h];
    if a[h].links[i].Ptr? {
      var c := a[h].links[i].h;
      VisitRecords(a, rank, c, e);
      var (e', v) := Visit(a, rank, c, e);
      WriteLinkEntry(a, rank, rank[h], e, e', i, idx, v);
      assert VisitLink(a, rank, h, i, e) == e'.(tables := SetIndex(e'.tables, i, idx, v));
    }
  }

  /** The position numbered `j`. */
  ghost function Inv(ids: map<nat, nat>, j: nat): (k: nat)
    requires Numbered(ids) && j < |ids|
    ensures k in ids && ids[k] == j
  {
    assert j in ids.Values;
    var k :| k in ids && ids[k] == j; k
  }

  /** Encoding the whole graph from the root: the root gets number 0, and
      every numbered node has its entry recorded and lies no higher than
      the root. */
  lemma EncodeRecords(a: seq<Rec>, rank: seq<nat>)
    requires Ranked(a, rank) && Binary(a) && 0 < |a|
    ensures var (e, v) := Visit(a, rank, 0, Helper(map[], Blank(Count(a, rank, 0))));
            Numbered(e.ids) && |e.ids| <= Count(a, rank, 0) && v == 0 && 0 in e.ids && e.ids[0] == 0 &&
            forall k :: k in e.ids ==> Recorded(a, e.ids, e.tables, k) && rank[k] <= rank[0]
  {
    var e0 := Helper(map[], Blank(Count(a, rank, 0)));
    VisitRecords(a, rank, 0, e0);
  }

  /** The reference to the number of what `l` refers to. */
  ghost function Renumber(ids: map<nat, nat>, l: Ref): Ref
  {
    if l.Ptr? && l.h in ids then Ptr(ids[l.h]) else Null
  }

  /** `b` holds, at each position's number, that position's record with
      its links renumbered; every link target is numbered too. */
  ghost predicate Renumbered(a: seq<Rec>, ids: map<nat, nat>, b: seq<Rec>)
  {
    |b| == |ids| &&
    forall k :: k in ids ==>
      k < |a| && |a[k].links| == 2 && ids[k] < |b| &&
      (a[k].links[0].Ptr? ==> a[k].links[0].h in ids) &&
      (a[k].links[1].Ptr? ==> a[k].links[1].h in ids) &&
      b[ids[k]] == Rec(a[k].letter, a[k].eow, [Renumber(ids, a[k].links[0]), Renumber(ids, a[k].links[1])])
  }

  /** A stored link decodes to its renumbered reference, provided no link
      is stored as number 0. */
  lemma StoredDecodes(l: Ref, ids: map<nat, nat>, x: int)
    requires Numbered(ids) && LinkStored(l, ids, x)
    requires l.Ptr? ==> ids[l.h] != 0
    ensures RefOf(x) == Renumber(ids, l) && IndexOk(x, |ids|)
  {
  }

  /** The entry of a recorded node other than the root decodes to its
      renumbered links. */
  lemma DecodedEntry(a: seq<Rec>, rank: seq<nat>, ids: map<nat, nat>, t: Tables, k: nat)
    requires Ranked(a, rank) && Numbered(ids) && Recorded(a, ids, t, k)
    requires 0 < |a| && 0 in ids && ids[0] == 0 && rank[k] <= rank[0]
    ensures RefOf(t.childIndexes[ids[k]]) == Renumber(ids, a[k].links[0]) && IndexOk(t.childIndexes[ids[k]], |ids|)
    ensures RefOf(t.brotherIndexes[ids[k]]) == Renumber(ids, a[k].links[1]) && IndexOk(t.brotherIndexes[ids[k]], |ids|)
  {
    forall i | 0 <= i < 2 && a[k].links[i].Ptr?
      ensures ids[a[k].links[i].h] != 0
    {
      var c := a[k].links[i].h;
      assert rank[c] < rank[k];
      assert ids[c] != ids[0];
    }
    StoredDecodes(a[k].links[0], ids, t.childIndexes[ids[k]]);
    StoredDecodes(a[k].links[1], ids, t.brotherIndexes[ids[k]]);
  }

  /** Arrays in which every numbered node is recorded, with the root at
      number 0 and highest, decode without error. */
  lemma DecodeTablesOk(a: seq<Rec>, rank: seq<nat>, ids: map<nat, nat>, t: Tables)
    requires Ranked(a, rank) && Numbered(ids) && Sized(t, |ids|)
    requires 0 < |a| && 0 in ids && ids[0] == 0
    requires forall k :: k in ids ==> Recorded(a, ids, t, k) && rank[k] <= rank[0]
    ensures GenerateRootNode(t).Ok?
  {
    var n := |ids|;
    forall j | 0 <= j < n
      ensures IndexOk(t.childIndexes[j], n) && IndexOk(t.brotherIndexes[j], n)
    {
      DecodedEntry(a, rank, ids, t, Inv(ids, j));
    }
  }

  /** Decoding arrays in which every numbered node is recorded, and in
      which the root has number 0 and lies highest, renumbers the graph. */
  lemma DecodeTables(a: seq<Rec>, rank: seq<nat>, ids: map<nat, nat>, t: Tables)
    requires Ranked(a, rank) && Numbered(ids) && Sized(t, |ids|)
    requires 0 < |a| && 0 in ids && ids[0] == 0
    requires forall k :: k in ids ==> Recorded(a, ids, t, k) && rank[k] <= rank[0]
    ensures GenerateRootNode(t).Ok? && Renumbered(a, ids, GenerateRootNode(t).value)
  {
    DecodeTablesOk(a, rank, ids, t);
    var b := GenerateRootNode(t).value;
    forall k | k in ids
      ensures b[ids[k]] == Rec(a[k].letter, a[k].eow, [Renumber(ids, a[k].links[0]), Renumber(ids, a[k].links[1])])
    {
      DecodedEntry(a, rank, ids, t, k);
    }
  }

  /** The decoded arrays are the graph, renumbered. */
  lemma DecodeRenumbers(a: seq<Rec>, rank: seq<nat>)
    requires Ranked(a, rank) && Binary(a) && 0 < |a|
    ensures var ids := Visit(a, rank, 0, Helper(map[], Blank(Count(a, rank, 0)))).0.ids;
            var r := GenerateRootNode(CalculateValues(a, rank, 0));
            Numbered(ids) && 0 in ids && ids[0] == 0 && r.Ok? && Renumbered(a, ids, r.value)
  {
    EncodeRecords(a, rank);
    var (e, _) := Visit(a, rank, 0, Helper(map[], Blank(Count(a, rank, 0))));
    var ids := e.ids;
    var t := CalculateValues(a, rank, 0);
    forall k | k in ids
      ensures Recorded(a, ids, t, k) && rank[k] <= rank[0]
    {
      assert Recorded(a, ids, e.tables, k);
    }
    DecodeTables(a, rank, ids, t);
  }

  /** Under a renumbering, each numbered position unfolds to the same
      sparse node in both graphs. */
  lemma {:induction false} UnfoldRenumbered(a: seq<Rec>, rank: seq<nat>, ids: map<nat, nat>, b: seq<Rec>, rank': seq<nat>, k: nat)
    requires Ranked(a, rank) && Binary(a) && Ranked(b, rank') && Binary(b)
    requires Renumbered(a, ids, b) && k in ids
    ensures UnfoldLinked(b, rank', Ptr(ids[k])) == UnfoldLinked(a, rank, Ptr(k))
    decreases rank[k]
  {
    if a[k].links[0].Ptr? {
      UnfoldRenumbered(a, rank, ids, b, rank', a[k].links[0].h);
    }
    if a[k].links[1].Ptr? {
      UnfoldRenumbered(a, rank, ids, b, rank', a[k].links[1].h);
    }
  }

  /** A renumbered graph inherits the ranks of the positions it renumbers. */
  lemma RenumberedRanked(a: seq<Rec>, rank: seq<nat>, ids: map<nat, nat>, b: seq<Rec>) returns (rank': seq<nat>)
    requires Ranked(a, rank) && Numbered(ids) && Renumbered(a, ids, b)
    ensures Ranked(b, rank') && Binary(b)
  {
    rank' := seq(|ids|, j requires 0 <= j < |ids| => rank[Inv(ids, j)]);
    forall j | 0 <= j < |b|
      ensures |b[j].links| == 2 && forall i :: 0 <= i < 2 && b[j].links[i].Ptr? ==>
                b[j].links[i].h < |b| && rank'[b[j].links[i].h] < rank'[j]
    {
      RenumberedLinks(a, rank, ids, b, rank', Inv(ids, j));
    }
  }

  lemma RenumberedLinks(a: seq<Rec>, rank: seq<nat>, ids: map<nat, nat>, b: seq<Rec>, rank': seq<nat>, k: nat)
    requires Ranked(a, rank) && Numbered(ids) && Renumbered(a, ids, b) && k in ids
    requires |rank'| == |ids| && forall j :: 0 <= j < |ids| ==> rank'[j] == rank[Inv(ids, j)]
    ensures var j := ids[k];
            |b[j].links| == 2 && forall i :: 0 <= i < 2 && b[j].links[i].Ptr? ==>
              b[j].links[i].h < |b| && rank'[b[j].links[i].h] < rank'[j]
  {
    var j := ids[k];
    assert Inv(ids, j) == k;
    forall i | 0 <= i < 2 && b[j].links[i].Ptr?
      ensures b[j].links[i].h < |b| && rank'[b[j].links[i].h] < rank'[j]
    {
      var c := a[k].links[i].h;
      assert b[j].links[i] == Ptr(ids[c]);
      assert Inv(ids, ids[c]) == c;
    }
  }

  /** `readExternal` after `writeExternal` gives back a DAWG that stands for
      the same trie. */
  lemma WriteReadRoundTrip(d: LinkedDAWG, rank: seq<nat>) returns (rank': seq<nat>)
    requires Valid(d, rank)
    ensures var w := WriteExternal(d, rank);
            var r := ReadExternal(w.0, w.1);
            r.Ok? && Valid(r.value, rank') && AsTrie(r.value, rank') == AsTrie(d, rank)
  {
    var a := d.nodes;
    DecodeRenumbers(a, rank);
    var ids := Visit(a, rank, 0, Helper(map[], Blank(Count(a, rank, 0)))).0.ids;
    var b := GenerateRootNode(CalculateValues(a, rank, 0)).value;
    rank' := RenumberedRanked(a, rank, ids, b);
    UnfoldRenumbered(a, rank, ids, b, rank', 0);
  }

  /** The DAWG read back answers every query as the one written. */
  lemma WriteReadQueries(d: LinkedDAWG, rank: seq<nat>, w: string) returns (rank': seq<nat>)
    requires Valid(d, rank)
    ensures var x := WriteExternal(d, rank);
            var r := ReadExternal(x.0, x.1);
            r.Ok? && Valid(r.value, rank') &&
            Contains(r.value, rank', w) == Contains(d, rank, w) &&
            IsPrefix(r.value, rank', w) == IsPrefix(d, rank, w) &&
            Size(r.value) == Size(d)
  {
    rank' := WriteReadRoundTrip(d, rank);
    var x := WriteExternal(d, rank);
    var r := ReadExternal(x.0, x.1);
    QueriesAgree(d, rank, w);
    QueriesAgree(r.value, rank', w);
  }
}
