/** Boolean-mask row selection, the `df[df[col] == v]` idiom of pandas:
    the rows for which the mask holds, in their original order. */
module Mask {

  /** The elements of `s` on which `keep` holds, in the order of `s`. */
  function Select<T>(s: seq<T>, keep: T -> bool): (r: seq<T>)
    ensures |r| <= |s|
    ensures forall x :: x in r ==> x in s && keep(x)
    ensures forall i :: 0 <= i < |s| && keep(s[i]) ==> s[i] in r
  {
    if s == [] then []
    else
      var init := Select(s[..|s| - 1], keep);
      assert forall i :: 0 <= i < |s| - 1 ==> s[..|s| - 1][i] == s[i];
      if keep(s[|s| - 1]) then init + [s[|s| - 1]] else init
  }

  /** The positions of `s` on which `keep` holds, in increasing order. */
  function Kept<T>(s: seq<T>, keep: T -> bool): (idx: seq<nat>)
  {
    if s == [] then []
    else Kept(s[..|s| - 1], keep) + (if keep(s[|s| - 1]) then [|s| - 1] else [])
  }

  /** The selection is exactly the subsequence of `s` at the positions where
      the mask holds: strictly increasing positions, every matching position
      present, every element taken unchanged from its position. */
  lemma SelectIsKeptPositions<T>(s: seq<T>, keep: T -> bool)
    ensures |Kept(s, keep)| == |Select(s, keep)|
    ensures forall k :: 0 <= k < |Kept(s, keep)| ==>
              Kept(s, keep)[k] < |s| && Select(s, keep)[k] == s[Kept(s, keep)[k]]
    ensures forall k, l :: 0 <= k < l < |Kept(s, keep)| ==> Kept(s, keep)[k] < Kept(s, keep)[l]
    ensures forall i :: 0 <= i < |s| ==> (i in Kept(s, keep) <==> keep(s[i]))
  {
    KeptPositions(s, keep);
    SelectAtKept(s, keep);
  }

  /** The kept positions are in range, strictly increasing, and exactly the
      positions where the mask holds. */
  lemma {:induction false} KeptPositions<T>(s: seq<T>, keep: T -> bool)
    ensures forall k :: 0 <= k < |Kept(s, keep)| ==> Kept(s, keep)[k] < |s|
    ensures forall k, l :: 0 <= k < l < |Kept(s, keep)| ==> Kept(s, keep)[k] < Kept(s, keep)[l]
    ensures forall i :: 0 <= i < |s| ==> (i in Kept(s, keep) <==> keep(s[i]))
  {
    if s != [] {
      var init := s[..|s| - 1];
      KeptPositions(init, keep);
      assert forall i :: 0 <= i < |init| ==> init[i] == s[i];
    }
  }

  /** The k-th selected element is the element at the k-th kept position. */
  lemma {:induction false} SelectAtKept<T>(s: seq<T>, keep: T -> bool)
    ensures |Kept(s, keep)| == |Select(s, keep)|
    ensures forall k :: 0 <= k < |Kept(s, keep)| ==> Kept(s, keep)[k] < |s| && Select(s, keep)[k] == s[Kept(s, keep)[k]]
  {
    if s != [] {
      var init := s[..|s| - 1];
      SelectAtKept(init, keep);
      assert forall i :: 0 <= i < |init| ==> init[i] == s[i];
    }
  }

  /** Each value keeps its multiplicity when the mask holds of it and
      disappears otherwise. */
  lemma {:induction false} SelectCount<T>(s: seq<T>, keep: T -> bool, x: T)
    ensures multiset(Select(s, keep))[x] == if keep(x) then multiset(s)[x] else 0
  {
    if s != [] {
      var init := s[..|s| - 1];
      assert s == init + [s[|s| - 1]];
      SelectCount(init, keep, x);
    }
  }

  /** A mask that holds everywhere selects everything. */
  lemma {:induction false} SelectAll<T>(s: seq<T>, keep: T -> bool)
    requires forall x :: x in s ==> keep(x)
    ensures Select(s, keep) == s
  {
    if s != [] {
      var init := s[..|s| - 1];
      assert s == init + [s[|s| - 1]];
      SelectAll(init, keep);
    }
  }

  /** Applying two masks one after the other selects by their conjunction. */
  lemma {:induction false} SelectThenSelect<T>(s: seq<T>, p: T -> bool, q: T -> bool, both: T -> bool)
    requires forall x :: both(x) == (p(x) && q(x))
    ensures Select(Select(s, p), q) == Select(s, both)
  {
    if s != [] {
      var init, last := s[..|s| - 1], s[|s| - 1];
      SelectThenSelect(init, p, q, both);
      var a := Select(init, p);
      if p(last) {
        assert (a + [last])[..|a|] == a;
      }
    }
  }

  /** Selecting again with the same mask changes nothing. */
  lemma SelectIdempotent<T>(s: seq<T>, keep: T -> bool)
    ensures Select(Select(s, keep), keep) == Select(s, keep)
  {
    SelectAll(Select(s, keep), keep);
  }
}
