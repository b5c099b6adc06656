/** `get_filters`: each answer is stripped of surrounding whitespace and
    lower-cased, and the prompt repeats until the answer is one of a fixed
    list. The keyboard is replaced by the sequence of answers the user types;
    when that sequence runs out before an answer is accepted there is no
    choice. */
module Prompts {
  import opened Wrappers
  import Loading

  const Cities: seq<string> := ["chicago", "new york city", "washington"]
  const MonthOptions: seq<string> := ["january", "february", "march", "april", "may", "june", "all"]
  const DayOptions: seq<string> :=
    ["monday", "tuesday", "wednesday", "thursday", "friday", "saturday", "sunday", "all"]

  /** Python's `str.isspace`. */
  predicate IsSpace(c: char) {
    || c == ' ' || '\t' <= c <= '\r' || '\U{1c}' <= c <= '\U{1f}'
    || c == '\U{85}' || c == '\U{a0}' || c == '\U{1680}' || '\U{2000}' <= c <= '\U{200a}'
    || c == '\U{2028}' || c == '\U{2029}' || c == '\U{202f}' || c == '\U{205f}' || c == '\U{3000}'
  }

  predicate IsUpper(c: char) {
    'A' <= c <= 'Z'
  }

  /** The first position at or after `i` that does not hold whitespace, or
      the end of `s`. */
  function SkipLeading(s: string, i: nat): (lo: nat)
    requires i <= |s|
    ensures i <= lo <= |s|
    ensures forall k :: i <= k < lo ==> IsSpace(s[k])
    ensures lo == |s| || !IsSpace(s[lo])
    decreases |s| - i
  {
    if i == |s| || !IsSpace(s[i]) then i else SkipLeading(s, i + 1)
  }

  /** The position just after the last character of `s[lo..j]` that is not
      whitespace, or `lo`. */
  function SkipTrailing(s: string, lo: nat, j: nat): (hi: nat)
    requires lo <= j <= |s|
    ensures lo <= hi <= j
    ensures forall k :: hi <= k < j ==> IsSpace(s[k])
    ensures hi == lo || !IsSpace(s[hi - 1])
  {
    if j == lo || !IsSpace(s[j - 1]) then j else SkipTrailing(s, lo, j - 1)
  }

  /** `str.strip()`: `s` without its leading and trailing whitespace. */
  function Strip(s: string): string {
    var lo := SkipLeading(s, 0);
    s[lo..SkipTrailing(s, lo, |s|)]
  }

  /** What `Strip` keeps is one contiguous piece of `s` that neither starts
      nor ends with whitespace, and everything it removes is whitespace. */
  lemma StripKeepsMiddle(s: string) returns (lo: nat)
    ensures StrippedAt(s, Strip(s), lo)
    ensures Strip(s) == [] || (!IsSpace(Strip(s)[0]) && !IsSpace(Strip(s)[|Strip(s)| - 1]))
  {
    lo := SkipLeading(s, 0);
  }

  /** `r` is the part of `s` that starts at `lo`, and everything of `s`
      around it is whitespace. */
  predicate StrippedAt(s: string, r: string, lo: nat) {
    && lo + |r| <= |s|
    && r == s[lo..lo + |r|]
    && (forall i :: 0 <= i < lo ==> IsSpace(s[i]))
    && (forall i :: lo + |r| <= i < |s| ==> IsSpace(s[i]))
  }

  function LowerChar(c: char): char {
    if IsUpper(c) then (c as int - 'A' as int + 'a' as int) as char else c
  }

  /** `str.lower()` on the letters A to Z. */
  function Lower(s: string): string {
    seq(|s|, i requires 0 <= i < |s| => LowerChar(s[i]))
  }

  /** Lower-casing keeps the length, turns each capital into its own small
      letter, leaves no capital letter, changes nothing but capital letters
      and keeps whitespace where it was. */
  lemma LowerFacts(s: string)
    ensures |Lower(s)| == |s|
    ensures forall i :: 0 <= i < |s| && IsUpper(s[i]) ==> Lower(s)[i] as int == s[i] as int + 32
    ensures forall i :: 0 <= i < |s| ==> !IsUpper(Lower(s)[i])
    ensures forall i :: 0 <= i < |s| && !IsUpper(s[i]) ==> Lower(s)[i] == s[i]
    ensures forall i :: 0 <= i < |s| ==> (IsSpace(Lower(s)[i]) <==> IsSpace(s[i]))
  {
  }

  /** What the program compares: `answer.strip().lower()`. */
  function Normalize(answer: string): string {
    Lower(Strip(answer))
  }

  /** The validator: an answer is accepted when its stripped, lower-cased
      form is one of `options`. */
  predicate Accepted(answer: string, options: seq<string>) {
    Normalize(answer) in options
  }

  /** Every answer as the program compares it. */
  function NormalizeAll(answers: seq<string>): (n: seq<string>)
    ensures |n| == |answers|
  {
    seq(|answers|, i requires 0 <= i < |answers| => Normalize(answers[i]))
  }

  /** The position of the first of `xs` that is one of `options`, if any. */
  function FirstIn(xs: seq<string>, options: seq<string>): (r: Option<nat>)
    ensures r.Some? ==> r.value < |xs| && xs[r.value] in options
    ensures r.Some? ==> forall j :: 0 <= j < r.value ==> xs[j] !in options
    ensures r.None? ==> forall j :: 0 <= j < |xs| ==> xs[j] !in options
  {
    if xs == [] then None
    else if xs[0] in options then Some(0)
    else match FirstIn(xs[1..], options)
      case None => None
      case Some(k) => Some(k + 1)
  }

  /** One validated prompt: read an answer, and read again while its
      normalised form is not one of `options`. Returns the first accepted
      normalised answer and how many answers were read. */
  method Ask(answers: seq<string>, options: seq<string>) returns (choice: Option<string>, used: nat)
    ensures used <= |answers|
    ensures match FirstIn(NormalizeAll(answers), options)
            case Some(k) => used == k + 1 && choice == Some(Normalize(answers[k]))
            case None => used == |answers| && choice == None
  {
    ghost var normalized := NormalizeAll(answers);
    if answers == [] {
      return None, 0;
    }
    var answer := Normalize(answers[0]);
    used := 1;
    while answer !in options
      invariant 1 <= used <= |answers|
      invariant answer == normalized[used - 1]
      invariant forall j :: 0 <= j < used - 1 ==> normalized[j] !in options
      decreases |answers| - used
    {
      if used == |answers| {
        FirstInNone(normalized, options);
        return None, used;
      }
      answer := Normalize(answers[used]);
      used := used + 1;
    }
    FirstInSome(normalized, options, used - 1);
    choice := Some(answer);
  }

  /** A position whose answer is accepted, with no accepted answer before
      it, is the one `FirstIn` finds. */
  lemma FirstInSome(xs: seq<string>, options: seq<string>, k: nat)
    requires k < |xs| && xs[k] in options
    requires forall j :: 0 <= j < k ==> xs[j] !in options
    ensures FirstIn(xs, options) == Some(k)
  {
  }

  /** With no accepted answer, `FirstIn` finds nothing. */
  lemma FirstInNone(xs: seq<string>, options: seq<string>)
    requires forall j :: 0 <= j < |xs| ==> xs[j] !in options
    ensures FirstIn(xs, options) == None
  {
  }

  /** The answer a prompt settles on is the first accepted one: position
      `k` is found exactly when answer `k` is accepted and no earlier one is. */
  lemma FirstAcceptedAnswer(answers: seq<string>, options: seq<string>, k: nat)
    requires k < |answers|
    ensures FirstIn(NormalizeAll(answers), options) == Some(k) <==>
            Accepted(answers[k], options) && forall j :: 0 <= j < k ==> !Accepted(answers[j], options)
  {
    var n := NormalizeAll(answers);
    assert forall j :: 0 <= j < |answers| ==> (n[j] in options <==> Accepted(answers[j], options));
    if n[k] in options && forall j :: 0 <= j < k ==> n[j] !in options {
      FirstInSome(n, options, k);
    }
  }

  /** Case and surrounding whitespace do not matter: " Chicago\n" is
      accepted as the city "chicago". */
  lemma PaddedCityAccepted()
    ensures Normalize(" Chicago\n") == "chicago"
    ensures Accepted(" Chicago\n", Cities)
  {
    NormalizeIgnoresPadding(" ", "Chicago", "\n");
    assert " " + "Chicago" + "\n" == " Chicago\n";
    assert Lower("Chicago") == "chicago";
  }

  /** Only A to Z are lower-cased: an answer spelled with the Kelvin sign
      U+212A, which Python's `str.lower` turns into 'k', is not accepted. */
  lemma KelvinSignNotLowered()
    ensures !Accepted("new yor\U{212A} city", Cities)
  {
    var x := "new yor\U{212A} city";
    NormalizeIgnoresPadding([], x, []);
    assert [] + x + [] == x;
    assert Lower(x)[7] == '\U{212A}';
  }

  /** The choices `get_filters` returns. */
  datatype Filters = Filters(city: string, month: string, day: string)

  /** City, month and day, asked in that order from one stream of answers;
      each prompt starts after the answer that settled the previous one. */
  function Chosen(answers: seq<string>): (r: Option<Filters>) {
    match FirstIn(NormalizeAll(answers), Cities)
    case None => None
    case Some(i) =>
      var rest := answers[i + 1..];
      match FirstIn(NormalizeAll(rest), MonthOptions)
      case None => None
      case Some(j) =>
        var last := rest[j + 1..];
        match FirstIn(NormalizeAll(last), DayOptions)
        case None => None
        case Some(k) => Some(Filters(Normalize(answers[i]), Normalize(rest[j]), Normalize(last[k])))
  }

  /** How many answers `get_filters` reads: up to and including the
      accepted day, or every answer when a prompt runs out of them. */
  function AnswersRead(answers: seq<string>): nat {
    match FirstIn(NormalizeAll(answers), Cities)
    case None => |answers|
    case Some(i) =>
      var rest := answers[i + 1..];
      match FirstIn(NormalizeAll(rest), MonthOptions)
      case None => |answers|
      case Some(j) =>
        var last := rest[j + 1..];
        match FirstIn(NormalizeAll(last), DayOptions)
        case None => |answers|
        case Some(k) => i + j + k + 3
  }

  /** `get_filters`. */
  method GetFilters(answers: seq<string>) returns (filters: Option<Filters>, used: nat)
    ensures used <= |answers|
    ensures filters == Chosen(answers)
    ensures used == AnswersRead(answers)
  {
    var city, n1 := Ask(answers, Cities);
    if city.None? {
      return None, n1;
    }
    var rest := answers[n1..];
    var month, n2 := Ask(rest, MonthOptions);
    if month.None? {
      return None, n1 + n2;
    }
    var last := rest[n2..];
    var day, n3 := Ask(last, DayOptions);
    if day.None? {
      return None, n1 + n2 + n3;
    }
    filters := Some(Filters(city.value, month.value, day.value));
    used := n1 + n2 + n3;
  }

  /** Whatever `get_filters` returns is a valid call of `load_data`: a known
      city, and month and day filters that `load_data` understands. */
  lemma ChosenIsValid(answers: seq<string>)
    ensures Chosen(answers).Some? ==>
              var f := Chosen(answers).value;
              f.city in Cities && Loading.MonthChoice(f.month) && Loading.DayChoice(f.day)
  {
  }

  /** Skipping leading whitespace from `i` stops at `stop` when everything
      from `i` up to `stop` is whitespace and `s[stop]` is not. */
  lemma {:induction false} SkipLeadingPadding(s: string, i: nat, stop: nat)
    requires i <= stop < |s| && !IsSpace(s[stop])
    requires forall k :: i <= k < stop ==> IsSpace(s[k])
    ensures SkipLeading(s, i) == stop
    decreases stop - i
  {
    if i < stop {
      SkipLeadingPadding(s, i + 1, stop);
    }
  }

  /** Skipping trailing whitespace back from `j` stops at `stop` when
      everything from `stop` up to `j` is whitespace and `s[stop - 1]` is not. */
  lemma {:induction false} SkipTrailingPadding(s: string, lo: nat, j: nat, stop: nat)
    requires lo < stop <= j <= |s| && !IsSpace(s[stop - 1])
    requires forall k :: stop <= k < j ==> IsSpace(s[k])
    ensures SkipTrailing(s, lo, j) == stop
    decreases j - stop
  {
    if stop < j {
      SkipTrailingPadding(s, lo, j - 1, stop);
    }
  }

  /** Surrounding whitespace is ignored: an answer padded with whitespace is
      normalised like the unpadded answer. */
  lemma NormalizeIgnoresPadding(pre: string, x: string, post: string)
    requires forall i :: 0 <= i < |pre| ==> IsSpace(pre[i])
    requires forall i :: 0 <= i < |post| ==> IsSpace(post[i])
    requires x == [] || (!IsSpace(x[0]) && !IsSpace(x[|x| - 1]))
    ensures Normalize(pre + x + post) == Lower(x)
  {
    var s := pre + x + post;
    if x != [] {
      SkipLeadingPadding(s, 0, |pre|);
      SkipTrailingPadding(s, |pre|, |s|, |pre| + |x|);
      assert s[|pre|..|pre| + |x|] == x;
    } else {
      assert forall k :: 0 <= k < |s| ==> IsSpace(s[k]);
    }
  }

  /** Normalising twice is normalising once. */
  lemma NormalizeIdempotent(answer: string)
    ensures Normalize(Normalize(answer)) == Normalize(answer)
  {
  }

  /** The month answers `get_filters` accepts are exactly the month filters
      `load_data` understands, and likewise for days. */
  lemma OptionsMatchLoader(s: string)
    ensures s in MonthOptions <==> Loading.MonthChoice(s)
    ensures s in DayOptions <==> Loading.DayChoice(s)
  {
  }
}
