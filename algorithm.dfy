/**
 * arthoolbox::algorithm::swap_front: look for a value in the range
 * [first, last) of a writable sequence and, when it is there, swap its first
 * occurrence with the element at `first`. Iterators are indices into an
 * array.
 */
module Algorithm {

  /** std::find: the first index in [lo, hi) holding v, or hi when there is none. */
  function Find<T(==)>(s: seq<T>, lo: nat, hi: nat, v: T): (k: nat)
    requires lo <= hi <= |s|
    ensures lo <= k <= hi
    ensures k < hi ==> s[k] == v
    ensures forall i :: lo <= i < k ==> s[i] != v
    decreases hi - lo
  {
    if lo == hi then hi
    else if s[lo] == v then lo
    else Find(s, lo + 1, hi, v)
  }

  /** v occurs in s[lo..hi] exactly when Find stops before hi. */
  lemma FindFindsOccurrence<T>(s: seq<T>, lo: nat, hi: nat, v: T)
    requires lo <= hi <= |s|
    ensures Find(s, lo, hi, v) < hi <==> v in s[lo..hi]
  {
    if v in s[lo..hi] {
      var j :| 0 <= j < hi - lo && s[lo..hi][j] == v;
      assert s[lo + j] == v;
    }
  }

  /** s with the elements at i and j exchanged (std::iter_swap). */
  function Swap<T>(s: seq<T>, i: nat, j: nat): (r: seq<T>)
    requires i < |s| && j < |s|
    ensures |r| == |s| && r[i] == s[j] && r[j] == s[i]
    ensures forall x :: 0 <= x < |s| && x != i && x != j ==> r[x] == s[x]
  {
    s[i := s[j]][j := s[i]]
  }

  /** The range after swap_front(first, last, v). */
  function SwapFrontSpec<T(==)>(s: seq<T>, first: nat, last: nat, v: T): seq<T>
    requires first <= last <= |s|
  {
    var k := Find(s, first, last, v);
    if k != last && k != first then Swap(s, first, k) else s
  }

  /** The iterator swap_front returns: past first when v was found, first otherwise. */
  function SwapFrontResult<T(==)>(s: seq<T>, first: nat, last: nat, v: T): nat
    requires first <= last <= |s|
  {
    if Find(s, first, last, v) != last then first + 1 else first
  }

  /** swap_front(first, last, v) on a[first..last]. */
  method SwapFront<T(==)>(a: array<T>, first: nat, last: nat, v: T) returns (r: nat)
    requires first <= last <= a.Length
    modifies a
    ensures r == SwapFrontResult(old(a[..]), first, last, v)
    ensures a[..] == SwapFrontSpec(old(a[..]), first, last, v)
  {
    var found := Find(a[..], first, last, v);
    if found != last {
      if found != first {
        a[first], a[found] := a[found], a[first];
      }
      r := first + 1;
    } else {
      r := first;
    }
  }

  /** Without v in the range, nothing changes and the result is first. */
  lemma SwapFrontAbsent<T>(s: seq<T>, first: nat, last: nat, v: T)
    requires first <= last <= |s| && v !in s[first..last]
    ensures SwapFrontSpec(s, first, last, v) == s
    ensures SwapFrontResult(s, first, last, v) == first
  {
    FindFindsOccurrence(s, first, last, v);
  }

  /** With v in the range, v ends up at first and the result is first + 1. */
  lemma SwapFrontPresent<T>(s: seq<T>, first: nat, last: nat, v: T)
    requires first <= last <= |s| && v in s[first..last]
    ensures first < last && SwapFrontSpec(s, first, last, v)[first] == v
    ensures SwapFrontResult(s, first, last, v) == first + 1
  {
    FindFindsOccurrence(s, first, last, v);
  }

  /** Only first and the first occurrence of v can change. */
  lemma SwapFrontTouchesTwo<T>(s: seq<T>, first: nat, last: nat, v: T, i: nat)
    requires first <= last <= |s| && i < |s| && i != first && i != Find(s, first, last, v)
    ensures SwapFrontSpec(s, first, last, v)[i] == s[i]
  {
  }

  /** The range after swap_front is a permutation of the one before. */
  lemma SwapFrontPermutes<T>(s: seq<T>, first: nat, last: nat, v: T)
    requires first <= last <= |s|
    ensures multiset(SwapFrontSpec(s, first, last, v)) == multiset(s)
  {
    var k := Find(s, first, last, v);
    if k != last && k != first {
      SwapPermutes(s, first, k);
    }
  }

  /** Exchanging two elements keeps the multiset of elements. */
  lemma SwapPermutes<T>(s: seq<T>, i: nat, j: nat)
    requires i < |s| && j < |s|
    ensures multiset(Swap(s, i, j)) == multiset(s)
  {
    var t := s[i := s[j]];
    assert multiset(t) == multiset(s) - multiset{s[i]} + multiset{s[j]};
    assert multiset(t[j := s[i]]) == multiset(t) - multiset{t[j]} + multiset{s[i]};
  }

  /** When v is already at first, the range is left as it was. */
  lemma SwapFrontInPlace<T>(s: seq<T>, first: nat, last: nat, v: T)
    requires first < last <= |s| && s[first] == v
    ensures SwapFrontSpec(s, first, last, v) == s
    ensures SwapFrontResult(s, first, last, v) == first + 1
  {
  }
}
