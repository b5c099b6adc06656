/** The pandas Series operations the reports rely on: `mode()`,
    `value_counts()`, `min()` and `max()`. A value's number of occurrences
    in a column `s` is `multiset(s)[v]`. */
module Series {

  /** `m` occurs in `s` at least as often as any other value. */
  ghost predicate IsMode<T(!new)>(s: seq<T>, m: T) {
    m in s && forall y :: multiset(s)[y] <= multiset(s)[m]
  }

  /** A candidate that occurs in `s` at least as often as every other
      candidate; on a tie the earliest candidate wins. */
  function MostFrequent<T(==,!new)>(s: seq<T>, candidates: seq<T>): (m: T)
    requires |candidates| > 0
    ensures m in candidates
    ensures forall c :: c in candidates ==> multiset(s)[c] <= multiset(s)[m]
    decreases |candidates|
  {
    if |candidates| == 1 then candidates[0]
    else
      var rest := MostFrequent(s, candidates[1..]);
      if multiset(s)[rest] <= multiset(s)[candidates[0]] then candidates[0] else rest
  }

  /** `mode()[0]`: a most frequent value of a non-empty column. */
  function Mode<T(==,!new)>(s: seq<T>): (m: T)
    requires |s| > 0
    ensures IsMode(s, m)
  {
    var m := MostFrequent(s, s);
    assert forall y :: y !in s ==> multiset(s)[y] == 0;
    m
  }

  /** When one value occurs strictly more often than every other, it is the mode. */
  lemma ModeOfDominant<T(!new)>(s: seq<T>, m: T)
    requires m in s
    requires forall y :: y != m ==> multiset(s)[y] < multiset(s)[m]
    ensures Mode(s) == m
  {
  }

  /** The distinct values of `s`, in order of first occurrence. */
  function Distinct<T(==,!new)>(s: seq<T>): (d: seq<T>)
    ensures forall x :: x in d <==> x in s
    ensures forall x :: multiset(d)[x] <= 1
  {
    if s == [] then []
    else
      var init, last := s[..|s| - 1], s[|s| - 1];
      assert s == init + [last];
      var d := Distinct(init);
      if last in init then d else d + [last]
  }

  /** Each value of `values` paired with its number of occurrences in `s`. */
  function Tally<T(==,!new)>(s: seq<T>, values: seq<T>): (counts: seq<(T, nat)>)
    ensures Keys(counts) == values
  {
    if values == [] then []
    else
      var last := values[|values| - 1];
      var init := Tally(s, values[..|values| - 1]);
      assert Keys(init + [(last, multiset(s)[last])]) == values;
      init + [(last, multiset(s)[last])]
  }

  /** The values of a tally, in order. */
  function Keys<T>(counts: seq<(T, nat)>): seq<T> {
    seq(|counts|, i requires 0 <= i < |counts| => counts[i].0)
  }

  /** The sum of the counts of a tally. */
  function Total<T>(counts: seq<(T, nat)>): nat {
    if counts == [] then 0 else Total(counts[..|counts| - 1]) + counts[|counts| - 1].1
  }

  /** `value_counts()`: every distinct value of `s` exactly once, with the
      number of times it occurs; the counts add up to the length of the column. */
  function ValueCounts<T(==,!new)>(s: seq<T>): (counts: seq<(T, nat)>)
    ensures forall i :: 0 <= i < |counts| ==> 0 < counts[i].1 == multiset(s)[counts[i].0]
    ensures forall x :: x in Keys(counts) <==> x in s
    ensures forall x :: multiset(Keys(counts))[x] <= 1
    ensures Total(counts) == |s|
  {
    ValueCountsFacts(s);
    Tally(s, Distinct(s))
  }

  /** The facts `ValueCounts` promises: true positive counts, every value
      of the column listed once, and counts that add up to its length. */
  lemma ValueCountsFacts<T(!new)>(s: seq<T>)
    ensures var counts := Tally(s, Distinct(s));
            forall i :: 0 <= i < |counts| ==> 0 < counts[i].1 == multiset(s)[counts[i].0]
    ensures Total(Tally(s, Distinct(s))) == |s|
  {
    var d := Distinct(s);
    var counts := Tally(s, d);
    assert Keys(counts) == d;
    TallyCounts(s, d);
    TotalValueCounts(s);
    DistinctOccur(s);
    assert forall i :: 0 <= i < |counts| ==> counts[i].0 == Keys(counts)[i];
  }

  /** Every distinct value of `s` occurs in `s` at least once. */
  lemma DistinctOccur<T(!new)>(s: seq<T>)
    ensures forall i :: 0 <= i < |Distinct(s)| ==> multiset(s)[Distinct(s)[i]] > 0
  {
    var d := Distinct(s);
    forall i | 0 <= i < |d| ensures multiset(s)[d[i]] > 0 {
      assert d[i] in d;
    }
  }

  /** Every entry of a tally holds the number of occurrences of its value. */
  lemma {:induction false} TallyCounts<T(!new)>(s: seq<T>, values: seq<T>)
    ensures forall i :: 0 <= i < |values| ==> Tally(s, values)[i].1 == multiset(s)[values[i]]
  {
    if values != [] {
      TallyCounts(s, values[..|values| - 1]);
    }
  }

  /** Adding one element to the column adds, to a tally, the number of times
      that element is listed among the tallied values. */
  lemma {:induction false} TallyGrow<T(!new)>(p: seq<T>, x: T, values: seq<T>)
    ensures Total(Tally(p + [x], values)) == Total(Tally(p, values)) + multiset(values)[x]
  {
    if values != [] {
      var init, last := values[..|values| - 1], values[|values| - 1];
      assert values == init + [last];
      TallyGrow(p, x, init);
      var t := Tally(p + [x], values);
      assert t[..|t| - 1] == Tally(p + [x], init);
      var u := Tally(p, values);
      assert u[..|u| - 1] == Tally(p, init);
    }
  }

  /** The counts of the distinct values of `s` add up to `|s|`. */
  lemma {:induction false} TotalValueCounts<T(!new)>(s: seq<T>)
    ensures Total(Tally(s, Distinct(s))) == |s|
  {
    if s != [] {
      var p, x := s[..|s| - 1], s[|s| - 1];
      assert s == p + [x];
      TotalValueCounts(p);
      var d := Distinct(p);
      TallyGrow(p, x, d);
      if x in p {
        assert x in d;
        assert multiset(d)[x] == 1;
      } else {
        assert x !in d;
        var t := Tally(s, d + [x]);
        assert t[..|t| - 1] == Tally(s, d);
      }
    }
  }

  /** `min()` of a non-empty numeric column. */
  function Min(s: seq<int>): (m: int)
    requires |s| > 0
    ensures m in s && forall x :: x in s ==> m <= x
  {
    if |s| == 1 then s[0]
    else
      var rest := Min(s[1..]);
      assert forall x :: x in s ==> x == s[0] || x in s[1..];
      if s[0] <= rest then s[0] else rest
  }

  /** `max()` of a non-empty numeric column. */
  function Max(s: seq<int>): (m: int)
    requires |s| > 0
    ensures m in s && forall x :: x in s ==> x <= m
  {
    if |s| == 1 then s[0]
    else
      var rest := Max(s[1..]);
      assert forall x :: x in s ==> x == s[0] || x in s[1..];
      if rest <= s[0] then s[0] else rest
  }
}
