/**
 * arthoolbox::traits: compile-time lists of types (TypeSequence) and the
 * operations on them. A TypeSequence<T...> is modelled as a sequence of
 * values of an arbitrary element type, and a std::index_sequence as a
 * sequence of natural numbers; each template specialisation becomes a case
 * of a function.
 */
module TypeTraits {

  /**
   * An argument of Cons: a single type, or a TypeSequence whose elements
   * Cons splices in.
   */
  datatype Arg<T> = One(x: T) | Many(xs: seq<T>)

  /** Head<TypeSequence<T, U...>> (and First): the first type. */
  function Head<T>(s: seq<T>): T
    requires s != []
  {
    s[0]
  }

  /** Tail: the types after the first; Tail of the empty sequence is empty. */
  function Tail<T>(s: seq<T>): seq<T> {
    if s == [] then [] else s[1..]
  }

  /** The types an argument of Cons contributes. */
  function Items<T>(a: Arg<T>): (r: seq<T>)
    ensures a.One? ==> r == [a.x]
    ensures a.Many? ==> r == a.xs
  {
    match a
    case One(x) => [x]
    case Many(xs) => xs
  }

  /** Cons, its four specialisations: pair, prepend, append and concatenate. */
  function Cons<T>(a: Arg<T>, b: Arg<T>): seq<T> {
    match (a, b)
    case (One(t), One(u)) => [t, u]
    case (One(t), Many(us)) => [t] + us
    case (Many(ts), One(u)) => ts + [u]
    case (Many(ts), Many(us)) => ts + us
  }

  /** Every case of Cons lays out the types of its first argument, then those of its second. */
  lemma ConsConcatenates<T>(a: Arg<T>, b: Arg<T>)
    ensures Cons(a, b) == Items(a) + Items(b)
    ensures |Cons(a, b)| == |Items(a)| + |Items(b)|
  {
  }

  /** Head and Tail split a non-empty sequence, and Cons puts it back together. */
  lemma ConsHeadTail<T>(s: seq<T>)
    requires s != []
    ensures Cons(One(Head(s)), Many(Tail(s))) == s
  {
  }

  /** Last<TypeSequence<T>> is T; otherwise Last of the Tail. */
  function Last<T>(s: seq<T>): (r: T)
    requires s != []
    ensures r == s[|s| - 1]
  {
    if |s| == 1 then s[0] else Last(Tail(s))
  }

  /** SizeOf: the number of types (sizeof...). */
  function SizeOf<T>(s: seq<T>): nat {
    |s|
  }

  /** AtImpl<Sequence, I, Idx>: Head once Idx reaches I, otherwise one step down the Tail. */
  function AtImpl<T>(s: seq<T>, i: nat, idx: nat): (r: T)
    requires idx <= i && i - idx < |s|
    ensures r == s[i - idx]
    decreases i - idx
  {
    if idx == i then Head(s) else AtImpl(Tail(s), i, idx + 1)
  }

  /** At<Sequence, I>: requires I < SizeOf; the type at index I. */
  function At<T>(s: seq<T>, i: nat): (r: T)
    requires i < SizeOf(s)
    ensures r == s[i]
  {
    AtImpl(s, i, 0)
  }

  /** Every index names a type of a sequence of length n. */
  predicate IndexesBelow(idxs: seq<nat>, n: nat) {
    forall k :: 0 <= k < |idxs| ==> idxs[k] < n
  }

  /**
   * SubViewImpl<In, Out, I, Others...>: append the type at I to Out, and
   * go on with the other indexes.
   */
  function SubViewImpl<T>(input: seq<T>, out: seq<T>, idxs: seq<nat>): (r: seq<T>)
    requires IndexesBelow(idxs, |input|)
    ensures |r| == |out| + |idxs| && r[..|out|] == out
    decreases |idxs|
  {
    if idxs == [] then out
    else SubViewImpl(input, Cons(Many(out), One(At(input, idxs[0]))), idxs[1..])
  }

  /** The types of input at the indexes, in their order. */
  function Selected<T>(input: seq<T>, idxs: seq<nat>): seq<T>
    requires IndexesBelow(idxs, |input|)
  {
    seq(|idxs|, k requires 0 <= k < |idxs| => input[idxs[k]])
  }

  /** SubViewImpl appends to Out the types at the remaining indexes. */
  lemma {:induction false} SubViewImplSelects<T>(input: seq<T>, out: seq<T>, idxs: seq<nat>)
    requires IndexesBelow(idxs, |input|)
    ensures SubViewImpl(input, out, idxs) == out + Selected(input, idxs)
    decreases |idxs|
  {
    if idxs != [] {
      var rest := idxs[1..];
      var x := At(input, idxs[0]);
      var out' := Cons(Many(out), One(x));
      assert SubViewImpl(input, out, idxs) == SubViewImpl(input, out', rest);
      SubViewImplSelects(input, out', rest);
      SelectedFirst(input, idxs);
      Associate(out, x, Selected(input, rest));
    }
  }

  /** (out + [x]) + tail == out + ([x] + tail). */
  lemma Associate<T>(out: seq<T>, x: T, tail: seq<T>)
    ensures Cons(Many(out), One(x)) + tail == out + ([x] + tail)
  {
  }

  /** The selection starts with the type at the first index. */
  lemma SelectedFirst<T>(input: seq<T>, idxs: seq<nat>)
    requires idxs != [] && IndexesBelow(idxs, |input|)
    ensures Selected(input, idxs) == [input[idxs[0]]] + Selected(input, idxs[1..])
  {
  }

  /** SubView<Sequence, index_sequence<I...>>: the types at the indexes, in their order. */
  function SubView<T>(s: seq<T>, idxs: seq<nat>): (r: seq<T>)
    requires IndexesBelow(idxs, |s|)
    ensures |r| == |idxs| && forall k :: 0 <= k < |idxs| ==> r[k] == s[idxs[k]]
  {
    SubViewImplSelects(s, [], idxs);
    SubViewImpl(s, [], idxs)
  }

  /** std::make_index_sequence<N>: 0, 1, ..., N - 1. */
  function IndexSequence(n: nat): (r: seq<nat>)
    ensures |r| == n && forall k :: 0 <= k < n ==> r[k] == k
  {
    seq(n, k => k)
  }

  /** OffsetIndexSequence<N, index_sequence<I...>>: index_sequence<(I + N)...>. */
  function OffsetIndexSequence(n: nat, idxs: seq<nat>): (r: seq<nat>)
    ensures |r| == |idxs| && forall k :: 0 <= k < |idxs| ==> r[k] == idxs[k] + n
  {
    seq(|idxs|, k requires 0 <= k < |idxs| => idxs[k] + n)
  }

  /** The indexes lo, lo + 1, ..., lo + n - 1, built as Replace builds them. */
  lemma RangeIndexes(lo: nat, n: nat)
    ensures var idxs := OffsetIndexSequence(lo, IndexSequence(n));
      |idxs| == n && forall k :: 0 <= k < n ==> idxs[k] == lo + k
  {
  }

  /** A sub-view by lo, lo + 1, ..., lo + n - 1 is the slice s[lo..lo + n]. */
  lemma SubViewIsSlice<T>(s: seq<T>, idxs: seq<nat>, lo: nat, n: nat)
    requires lo + n <= |s| && |idxs| == n && forall k :: 0 <= k < n ==> idxs[k] == lo + k
    ensures IndexesBelow(idxs, |s|) && SubView(s, idxs) == s[lo..lo + n]
  {
    var r := SubView(s, idxs);
    forall k | 0 <= k < n
      ensures r[k] == s[lo + k]
    {
      assert r[k] == s[idxs[k]];
    }
    assert r == s[lo..lo + n];
  }

  /** A sub-view by consecutive indexes is a slice. */
  lemma SubViewOfRange<T>(s: seq<T>, lo: nat, n: nat)
    requires lo + n <= |s|
    ensures var idxs := OffsetIndexSequence(lo, IndexSequence(n));
      IndexesBelow(idxs, |s|) && SubView(s, idxs) == s[lo..lo + n]
  {
    RangeIndexes(lo, n);
    SubViewIsSlice(s, OffsetIndexSequence(lo, IndexSequence(n)), lo, n);
  }

  /** A sub-view by 0, 1, ..., n - 1 is the prefix of length n. */
  lemma SubViewOfPrefix<T>(s: seq<T>, n: nat)
    requires n <= |s|
    ensures IndexesBelow(IndexSequence(n), |s|) && SubView(s, IndexSequence(n)) == s[..n]
  {
    SubViewIsSlice(s, IndexSequence(n), 0, n);
  }

  /** The indexes after I of a sequence of length n, in order. */
  function AfterIndexes(n: nat, i: nat): (r: seq<nat>)
    requires i < n
    ensures IndexesBelow(r, n)
  {
    RangeIndexes(i + 1, n - i - 1);
    OffsetIndexSequence(i + 1, IndexSequence(n - i - 1))
  }

  /**
   * Replace<Sequence, I, NewT> for I > 0: the sub-view before I, then NewT
   * consed onto the sub-view after I.
   */
  function ReplaceGeneral<T>(s: seq<T>, i: nat, t: T): seq<T>
    requires i < SizeOf(s)
  {
    Cons(Many(SubView(s, IndexSequence(i))), Many(Cons(One(t), Many(SubView(s, AfterIndexes(|s|, i))))))
  }

  /**
   * Replace<Sequence, I, NewT>: the specialisation for I = 0 conses NewT onto
   * the Tail, and takes the empty sequence too (its Tail is empty); any other
   * I must be below SizeOf.
   */
  function Replace<T>(s: seq<T>, i: nat, t: T): seq<T>
    requires i == 0 || i < SizeOf(s)
  {
    if i == 0 then Cons(One(t), Many(Tail(s))) else ReplaceGeneral(s, i, t)
  }

  /** Replace puts t at index I and keeps every other type. */
  lemma ReplaceIsUpdate<T>(s: seq<T>, i: nat, t: T)
    requires i < |s|
    ensures Replace(s, i, t) == s[..i] + [t] + s[i + 1..]
    ensures Replace(s, i, t) == s[i := t]
  {
    if i > 0 {
      ReplaceGeneralIsUpdate(s, i, t);
    } else {
      assert s[..0] + [t] + s[1..] == [t] + s[1..];
    }
    SpliceIsUpdate(s, i, t);
  }

  /** Replacing index 0 of the empty sequence gives the one-type sequence [t]. */
  lemma ReplaceEmptyAtZero<T>(t: T)
    ensures Replace([], 0, t) == [t]
  {
    assert Tail<T>([]) == [];
  }

  /** Every index Replace accepts: an update inside s, or [t] for the empty sequence at 0. */
  lemma {:induction false} ReplaceSpec<T>(s: seq<T>, i: nat, t: T)
    requires i == 0 || i < |s|
    ensures Replace(s, i, t) == if i < |s| then s[i := t] else [t]
    ensures |Replace(s, i, t)| == if s == [] then 1 else |s|
  {
    if i < |s| {
      ReplaceIsUpdate(s, i, t);
    } else {
      ReplaceEmptyAtZero(t);
    }
  }

  /** Putting t between s[..i] and s[i + 1..] updates s at i. */
  lemma SpliceIsUpdate<T>(s: seq<T>, i: nat, t: T)
    requires i < |s|
    ensures s[..i] + [t] + s[i + 1..] == s[i := t]
  {
  }

  /** The general formula gives s[..I] + [t] + s[I + 1..] for every I, 0 included. */
  lemma ReplaceGeneralIsUpdate<T>(s: seq<T>, i: nat, t: T)
    requires i < |s|
    ensures ReplaceGeneral(s, i, t) == s[..i] + [t] + s[i + 1..]
  {
    var before := SubView(s, IndexSequence(i));
    var after := SubView(s, AfterIndexes(|s|, i));
    calc {
      ReplaceGeneral(s, i, t);
      Cons(Many(before), Many(Cons(One(t), Many(after))));
      { ConsAround(before, t, after); }
      before + [t] + after;
      { SubViewOfPrefix(s, i); SubViewAfter(s, i); }
      s[..i] + [t] + s[i + 1..];
    }
  }

  /** The sub-view by the indexes after I is the suffix after I. */
  lemma SubViewAfter<T>(s: seq<T>, i: nat)
    requires i < |s|
    ensures SubView(s, AfterIndexes(|s|, i)) == s[i + 1..]
  {
    SubViewOfRange(s, i + 1, |s| - i - 1);
  }

  /** Consing t onto after and then appending that to before lays out before, t, after. */
  lemma ConsAround<T>(before: seq<T>, t: T, after: seq<T>)
    ensures Cons(Many(before), Many(Cons(One(t), Many(after)))) == before + [t] + after
  {
    assert before + ([t] + after) == before + [t] + after;
  }

  /** The I = 0 specialisation agrees with the general formula. */
  lemma ReplaceAtZeroAgrees<T>(s: seq<T>, t: T)
    requires s != []
    ensures Replace(s, 0, t) == ReplaceGeneral(s, 0, t)
  {
    ReplaceGeneralIsUpdate(s, 0, t);
  }
}
