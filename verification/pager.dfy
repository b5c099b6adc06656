/** `raw_data`: while the user answers "yes", show the next five rows of
    the city's unfiltered file. The keyboard is replaced by the sequence of
    answers the user types; the loop also ends when that sequence runs out. */
module Pager {
  import Prompts

  function MinNat(a: nat, b: nat): nat {
    if a <= b then a else b
  }

  /** `df.loc[first:last]` on a table with the default row labels 0, 1, ...:
      the rows labelled `first` to `last`, both included, as far as the table
      reaches. */
  function Rows<T>(rows: seq<T>, first: nat, last: nat): (r: seq<T>)
    ensures |r| <= |rows|
  {
    var lo := MinNat(first, |rows|);
    var hi := MinNat(last + 1, |rows|);
    if lo <= hi then rows[lo..hi] else []
  }

  /** The n-th window the pager shows, counting from 0: rows 5n to 5n+4. */
  function Window<T>(rows: seq<T>, n: nat): seq<T> {
    Rows(rows, 5 * n, 5 * n + 4)
  }

  /** Whether an answer, stripped and lower-cased, is "yes". */
  predicate IsYes(answer: string) {
    Prompts.Normalize(answer) == "yes"
  }

  /** The number of answers at the front of `answers` that read "yes". */
  function YesRun(answers: seq<string>): nat {
    if answers == [] || !IsYes(answers[0]) then 0
    else 1 + YesRun(answers[1..])
  }

  /** All rows shown, one window after the other. */
  function Flatten<T>(windows: seq<seq<T>>): seq<T> {
    if windows == [] then [] else Flatten(windows[..|windows| - 1]) + windows[|windows| - 1]
  }

  /** `raw_data`. The n-th "yes" (counting from 0) shows rows 5n to 5n+4;
      the first answer that is not "yes" ends the pager. Returns the windows
      shown and the number of answers read. */
  method RawData<T>(rows: seq<T>, answers: seq<string>) returns (shown: seq<seq<T>>, used: nat)
    ensures |shown| == YesRun(answers)
    ensures forall n :: 0 <= n < |shown| ==> shown[n] == Window(rows, n)
    ensures used == if |shown| < |answers| then |shown| + 1 else |answers|
    ensures Flatten(shown) == rows[..MinNat(5 * |shown|, |rows|)]
  {
    var count := 0;
    var start, end := 0, 0;
    var stopped := false;
    var i := 0;
    shown := [];
    while i < |answers|
      invariant 0 <= i <= |answers| && |shown| == i && !stopped
      invariant forall k :: 0 <= k < i ==> IsYes(answers[k])
      invariant count == if i == 0 then 0 else 1
      invariant i > 0 ==> start == 5 * i && end == start + 4
      invariant forall n :: 0 <= n < i ==> shown[n] == Window(rows, n)
    {
      var showData := Prompts.Normalize(answers[i]);
      if showData == "yes" && count == 0 {
        assert IsYes(answers[i]) && Rows(rows, 0, 4) == Window(rows, i);
        shown := shown + [Rows(rows, 0, 4)];
        count := 1;
        start := 5;
        end := 9;
      } else if showData == "yes" && count > 0 {
        assert IsYes(answers[i]) && Rows(rows, start, end) == Window(rows, i);
        shown := shown + [Rows(rows, start, end)];
        start := end + 1;
        end := start + 4;
      } else {
        stopped := true;
        break;
      }
      i := i + 1;
    }
    used := if stopped then i + 1 else i;
    YesRunStops(answers, i);
    WindowsTile(rows, shown);
  }

  /** When the first `i` answers read "yes" and the next one does not (or
      there is none), exactly `i` windows are shown. */
  lemma {:induction false} YesRunStops(answers: seq<string>, i: nat)
    requires i <= |answers|
    requires forall k :: 0 <= k < i ==> IsYes(answers[k])
    requires i == |answers| || !IsYes(answers[i])
    ensures YesRun(answers) == i
  {
    if i > 0 {
      YesRunStops(answers[1..], i - 1);
    }
  }

  /** Consecutive windows are contiguous and do not overlap: together, the
      first n windows are exactly the first 5n rows (or the whole table). */
  lemma {:induction false} WindowsTile<T>(rows: seq<T>, windows: seq<seq<T>>)
    requires forall n :: 0 <= n < |windows| ==> windows[n] == Window(rows, n)
    ensures Flatten(windows) == rows[..MinNat(5 * |windows|, |rows|)]
  {
    if windows != [] {
      var k := |windows| - 1;
      WindowsTile(rows, windows[..k]);
      assert windows[k] == rows[MinNat(5 * k, |rows|)..MinNat(5 * k + 5, |rows|)];
      assert rows[..MinNat(5 * k, |rows|)] + rows[MinNat(5 * k, |rows|)..MinNat(5 * k + 5, |rows|)]
          == rows[..MinNat(5 * k + 5, |rows|)];
    }
  }

  /** The pager does not stop at the end of the file: a window that starts
      past the last row is empty, and one that starts inside the table holds
      between one and five rows. */
  lemma WindowSize<T>(rows: seq<T>, n: nat)
    ensures 5 * n >= |rows| ==> Window(rows, n) == []
    ensures 5 * n < |rows| ==> 1 <= |Window(rows, n)| <= 5 && Window(rows, n)[0] == rows[5 * n]
  {
  }
}
