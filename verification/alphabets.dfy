/** Alphabets: the letters a trie accepts.  The dense trie keeps its alphabet
    sorted and finds a letter's slot by binary search; the sparse trie of the
    first source tree accepts a letter when `String.indexOf` finds it. */
module Alphabets {

  ghost predicate Sorted(a: seq<char>)
  {
    forall i, j :: 0 <= i < j < |a| ==> a[i] <= a[j]
  }

  // ---------------------------------------------------------------------
  // Sorting (`Arrays.sort(char[])`)

  function Insert(c: char, a: seq<char>): (r: seq<char>)
    requires Sorted(a)
    ensures Sorted(r) && multiset(r) == multiset(a) + multiset{c}
  {
    if a == [] || c <= a[0] then
      SortedCons(c, a);
      [c] + a
    else
      SortedTail(a);
      var rest := Insert(c, a[1..]);
      HeadBelowInserted(c, a, rest);
      SortedCons(a[0], rest);
      assert a == [a[0]] + a[1..];
      [a[0]] + rest
  }

  /** The head of a sorted sequence is below everything in the tail with a
      larger letter added. */
  lemma HeadBelowInserted(c: char, a: seq<char>, rest: seq<char>)
    requires Sorted(a) && a != [] && a[0] < c
    requires multiset(rest) == multiset(a[1..]) + multiset{c}
    ensures forall y :: y in rest ==> a[0] <= y
  {
    forall y | y in rest ensures a[0] <= y {
      assert y in multiset(rest);
      if y != c {
        assert y in a[1..];
      }
    }
  }

  lemma SortedCons(x: char, s: seq<char>)
    requires Sorted(s) && forall y :: y in s ==> x <= y
    ensures Sorted([x] + s)
  {
    forall i, j | 0 <= i < j < |[x] + s| ensures ([x] + s)[i] <= ([x] + s)[j] {
      if i == 0 {
        assert ([x] + s)[j] == s[j - 1] && s[j - 1] in s;
      } else {
        assert ([x] + s)[i] == s[i - 1] && ([x] + s)[j] == s[j - 1];
      }
    }
  }

  lemma SortedHeadIsLeast(a: seq<char>, x: char)
    requires Sorted(a) && x in a
    ensures a[0] <= x
  {
  }

  /** The alphabet in ascending order.  `Arrays.sort` uses a different
      algorithm, but `SortedIsUnique` shows that every sorted permutation is
      this one. */
  function Sort(a: seq<char>): (r: seq<char>)
    ensures Sorted(r) && multiset(r) == multiset(a) && |r| == |a|
  {
    if a == [] then []
    else
      assert a == [a[0]] + a[1..];
      Insert(a[0], Sort(a[1..]))
  }

  lemma SortedTail(a: seq<char>)
    requires Sorted(a) && a != []
    ensures Sorted(a[1..])
  {
    forall i, j | 0 <= i < j < |a[1..]| ensures a[1..][i] <= a[1..][j] {
      assert a[1..][i] == a[i + 1] && a[1..][j] == a[j + 1];
    }
  }

  lemma MultisetTail(a: seq<char>)
    requires a != []
    ensures multiset(a[1..]) == multiset(a) - multiset{a[0]}
  {
    assert a == [a[0]] + a[1..];
    assert multiset(a) == multiset{a[0]} + multiset(a[1..]);
  }

  /** Sorted sequences with the same elements start with the same letter. */
  lemma SameHead(a: seq<char>, b: seq<char>)
    requires Sorted(a) && Sorted(b) && multiset(a) == multiset(b) && a != [] && b != []
    ensures a[0] == b[0]
  {
    assert a[0] in multiset(b) && b[0] in multiset(a);
    SortedHeadIsLeast(a, b[0]);
    SortedHeadIsLeast(b, a[0]);
  }

  /** Two sorted sequences with the same elements are equal. */
  lemma {:induction false} SortedIsUnique(a: seq<char>, b: seq<char>)
    requires Sorted(a) && Sorted(b) && multiset(a) == multiset(b)
    ensures a == b
    decreases |a|
  {
    assert |a| == |multiset(a)| == |multiset(b)| == |b|;
    if a != [] {
      SameHead(a, b);
      MultisetTail(a);
      MultisetTail(b);
      SortedTail(a);
      SortedTail(b);
      SortedIsUnique(a[1..], b[1..]);
      assert a == [a[0]] + a[1..] && b == [b[0]] + b[1..];
    }
  }

  // ---------------------------------------------------------------------
  // Lookup

  /** Where a probe of `a[low..high]` ended: on a slot holding the key, or
      at the point where the key would be inserted. */
  datatype Probe = Found(at: nat) | Missed(point: nat)

  /** The midpoint `Arrays.binarySearch` probes; `low + high` cannot wrap
      for an alphabet that fits in a Java array. */
  function Mid(low: nat, high: int): (m: nat)
    requires low <= high
    ensures low <= m <= high
  {
    (low + high) / 2
  }

  /** `Arrays.binarySearch(char[], char)` restricted to `a[low..high]`
      (both ends inclusive). */
  function Search(a: seq<char>, key: char, low: nat, high: int): (r: Probe)
    requires -1 <= high < |a| && low <= high + 1
    ensures r.Found? ==> low <= r.at <= high && a[r.at] == key
    ensures r.Missed? ==> low <= r.point <= high + 1
    decreases high - low + 1
  {
    if low > high then Missed(low)
    else
      var mid := Mid(low, high);
      if a[mid] < key then Search(a, key, mid + 1, high)
      else if a[mid] > key then Search(a, key, low, mid as int - 1)
      else Found(mid)
  }

  /** The index of a slot holding `key`, or `-(insertion point) - 1`. */
  function BinarySearch(a: seq<char>, key: char): (r: int)
    ensures r < |a|
    ensures r >= 0 ==> a[r] == key
  {
    match Search(a, key, 0, |a| - 1)
    case Found(i) => i
    case Missed(p) => -(p + 1)
  }

  /** `key` would be inserted at `p`: every letter before is smaller and
      every letter from `p` on is larger. */
  ghost predicate InsertionPoint(a: seq<char>, key: char, p: int)
  {
    0 <= p <= |a| && (forall i :: 0 <= i < p ==> a[i] < key) && (forall i :: p <= i < |a| ==> key < a[i])
  }

  /** A probe below the key goes on to the right half. */
  lemma SearchUp(a: seq<char>, key: char, low: nat, high: int)
    requires -1 <= high < |a| && low <= high
    requires a[Mid(low, high)] < key
    ensures Search(a, key, low, high) == Search(a, key, Mid(low, high) + 1, high)
  {
  }

  /** A probe above the key goes on to the left half. */
  lemma SearchDown(a: seq<char>, key: char, low: nat, high: int)
    requires -1 <= high < |a| && low <= high
    requires a[Mid(low, high)] > key
    ensures Search(a, key, low, high) == Search(a, key, low, Mid(low, high) as int - 1)
  {
  }

  /** A miss ends between the last letter below `key` and the first above
      it, whether or not the alphabet is sorted. */
  lemma SearchMissBetween(a: seq<char>, key: char, low: nat, high: int, r: Probe)
    requires -1 <= high < |a| && low <= high + 1
    requires r == Search(a, key, low, high) && r.Missed?
    ensures low < r.point ==> a[r.point - 1] < key
    ensures r.point <= high ==> key < a[r.point]
  {
    SearchMissAbove(a, key, low, high, r);
    SearchMissBelow(a, key, low, high, r);
  }

  lemma {:induction false} SearchMissAbove(a: seq<char>, key: char, low: nat, high: int, r: Probe)
    requires -1 <= high < |a| && low <= high + 1
    requires r == Search(a, key, low, high) && r.Missed?
    ensures low < r.point ==> a[r.point - 1] < key
    decreases high - low + 1
  {
    if low <= high {
      var mid := Mid(low, high);
      if a[mid] < key {
        SearchUp(a, key, low, high);
        SearchMissAbove(a, key, mid + 1, high, r);
      } else if a[mid] > key {
        SearchDown(a, key, low, high);
        SearchMissAbove(a, key, low, mid as int - 1, r);
      }
    }
  }

  lemma {:induction false} SearchMissBelow(a: seq<char>, key: char, low: nat, high: int, r: Probe)
    requires -1 <= high < |a| && low <= high + 1
    requires r == Search(a, key, low, high) && r.Missed?
    ensures r.point <= high ==> key < a[r.point]
    decreases high - low + 1
  {
    if low <= high {
      var mid := Mid(low, high);
      if a[mid] < key {
        SearchUp(a, key, low, high);
        SearchMissBelow(a, key, mid + 1, high, r);
      } else if a[mid] > key {
        SearchDown(a, key, low, high);
        SearchMissBelow(a, key, low, mid as int - 1, r);
      }
    }
  }

  /** On a sorted alphabet the search succeeds exactly for its letters, and a
      miss encodes the insertion point. */
  lemma BinarySearchFinds(a: seq<char>, key: char)
    requires Sorted(a)
    ensures BinarySearch(a, key) >= 0 <==> key in a
    ensures BinarySearch(a, key) < 0 ==> InsertionPoint(a, key, -(BinarySearch(a, key) + 1))
  {
    var probe := Search(a, key, 0, |a| - 1);
    if probe.Missed? {
      SearchMissBetween(a, key, 0, |a| - 1, probe);
      var p := probe.point;
      forall i | 0 <= i < p ensures a[i] < key {
        assert a[i] <= a[p - 1];
      }
      forall i | p <= i < |a| ensures key < a[i] {
        assert a[p] <= a[i];
      }
      assert key !in a by {
        forall i | 0 <= i < |a| ensures a[i] != key {
          if i < p { assert a[i] < key; } else { assert key < a[i]; }
        }
      }
    }
  }

  /** `String.indexOf(char)`: the first index holding `c`, or -1. */
  function IndexOf(s: seq<char>, c: char): (r: int)
    ensures -1 <= r < |s|
    ensures r >= 0 ==> s[r] == c && c !in s[..r]
    ensures r < 0 <==> c !in s
  {
    if s == [] then -1
    else if s[0] == c then 0
    else
      var r := IndexOf(s[1..], c);
      assert s == [s[0]] + s[1..];
      if r < 0 then -1
      else
        assert s[..r + 1] == [s[0]] + s[1..][..r];
        r + 1
  }
}
