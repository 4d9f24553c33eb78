/** What the line penalty counts, said of the modules of a line rather than of its runs. */
module FinderPlaces {
  import opened Zigzag
  import opened ModuleCount
  import opened Penalty

  // ----- finder-like patterns on the modules -----

  /** The modules from lo up to hi exist and have colour b. */
  ghost predicate Stretch(s: seq<bool>, lo: int, hi: int, b: bool) {
    0 <= lo <= hi <= |s| && forall j | lo <= j < hi :: s[j] == b
  }

  /** From place i: black n, white n, black 3n, white n, black n, with so much white before and after. */
  ghost predicate FinderAt(s: seq<bool>, i: nat, n: nat, before: nat, after: nat) {
    && n >= 1
    && Stretch(s, i - before, i, false)
    && Stretch(s, i, i + n, true)
    && Stretch(s, i + n, i + 2 * n, false)
    && Stretch(s, i + 2 * n, i + 5 * n, true)
    && Stretch(s, i + 5 * n, i + 6 * n, false)
    && Stretch(s, i + 6 * n, i + 7 * n, true)
    && Stretch(s, i + 7 * n, i + 7 * n + after, false)
  }

  /** A pattern of some width n at place i, with four units of white on the chosen side and one on the other. */
  ghost predicate FinderLike(s: seq<bool>, i: nat, wideBefore: bool) {
    exists n: nat :: FinderAt(s, i, n, if wideBefore then 4 * n else n, if wideBefore then n else 4 * n)
  }

  /** The places of a line where a pattern with its wide side there starts. */
  ghost function FinderStarts(s: seq<bool>, wideBefore: bool): set<nat> {
    set i: nat | 0 <= i < |s| && FinderLike(s, i, wideBefore)
  }

  ghost function SidesAt(s: seq<bool>, i: nat): nat {
    (if FinderLike(s, i, true) then 1 else 0) + (if FinderLike(s, i, false) then 1 else 0)
  }

  ghost function SidesBefore(s: seq<bool>, n: nat): nat {
    if n == 0 then 0 else SidesBefore(s, n - 1) + SidesAt(s, n - 1)
  }

  ghost function StartsBelow(s: seq<bool>, wideBefore: bool, n: nat): set<nat> {
    set i: nat | 0 <= i < n && FinderLike(s, i, wideBefore)
  }

  lemma OneMore(a: set<nat>, b: set<nat>, n: nat, more: bool)
    requires n !in a && forall i: nat :: i in b <==> i in a || (more && i == n)
    ensures |b| == |a| + (if more then 1 else 0)
  {
    if more { assert b == a + {n}; } else { assert b == a; }
  }

  lemma StartsStep(s: seq<bool>, wideBefore: bool, n: nat)
    ensures |StartsBelow(s, wideBefore, n + 1)| ==
            |StartsBelow(s, wideBefore, n)| + (if FinderLike(s, n, wideBefore) then 1 else 0)
  {
    hide FinderLike;
    OneMore(StartsBelow(s, wideBefore, n), StartsBelow(s, wideBefore, n + 1), n, FinderLike(s, n, wideBefore));
  }

  lemma {:induction false} SidesCounted(s: seq<bool>, n: nat)
    ensures SidesBefore(s, n) == |StartsBelow(s, true, n)| + |StartsBelow(s, false, n)|
  {
    hide FinderLike;
    if n == 0 {
      assert StartsBelow(s, true, 0) == {} && StartsBelow(s, false, 0) == {};
    } else {
      SidesCounted(s, n - 1);
      StartsStep(s, true, n - 1);
      StartsStep(s, false, n - 1);
    }
  }

  // ----- runs as stretches of the line -----

  /** Where run k starts. */
  function Start(r: seq<nat>, k: nat): nat
    requires k <= |r|
  {
    if k == 0 then 0 else Start(r, k - 1) + r[k - 1]
  }

  /** r holds the lengths of the maximal runs of s, the first one white. */
  ghost predicate Runs(s: seq<bool>, r: seq<nat>) {
    && Start(r, |r|) == |s|
    && forall k | 0 <= k < |r| :: r[k] > 0 && Stretch(s, Start(r, k), Start(r, k + 1), k % 2 == 1)
  }

  lemma {:induction false} StartPrefix(r: seq<nat>, t: seq<nat>, k: nat)
    requires k <= |r| && k <= |t| && r[..k] == t[..k]
    ensures Start(r, k) == Start(t, k)
  {
    if k > 0 {
      assert r[k - 1] == r[..k][k - 1] == t[..k][k - 1] == t[k - 1];
      assert r[..k - 1] == r[..k][..k - 1] == t[..k][..k - 1] == t[..k - 1];
      StartPrefix(r, t, k - 1);
    }
  }

  lemma StartFacts(r: seq<nat>)
    ensures Start(r, 0) == 0
    ensures r != [] ==> Start(r, |r|) == Start(r, |r| - 1) + r[|r| - 1]
  {
  }

  /** One more module of the other colour starts a new run. */
  lemma RunsAppend(s: seq<bool>, r: seq<nat>, b: bool)
    requires Runs(s, r) && b == (|r| % 2 == 1)
    ensures Runs(s + [b], r + [1])
  {
    hide Start;
    var t := r + [1];
    StartFacts(t);
    forall k | 0 <= k <= |r| ensures Start(t, k) == Start(r, k) {
      assert t[..k] == r[..k];
      StartPrefix(t, r, k);
    }
    forall k | 0 <= k < |r| ensures t[k] > 0 && Stretch(s + [b], Start(t, k), Start(t, k + 1), k % 2 == 1) {
      assert r[k] > 0 && Stretch(s, Start(r, k), Start(r, k + 1), k % 2 == 1);
    }
  }

  /** One more module of the colour of the last run lengthens it. */
  lemma RunsLengthen(s: seq<bool>, r: seq<nat>, b: bool)
    requires Runs(s, r) && r != [] && b == (|r| % 2 == 0)
    ensures Runs(s + [b], r[..|r| - 1] + [Last(r) + 1])
  {
    hide Start;
    var m := |r| - 1;
    var t := r[..m] + [Last(r) + 1];
    StartFacts(t);
    StartFacts(r);
    forall k | 0 <= k <= m ensures Start(t, k) == Start(r, k) {
      assert t[..k] == r[..k];
      StartPrefix(t, r, k);
    }
    forall k | 0 <= k < |t| ensures t[k] > 0 && Stretch(s + [b], Start(t, k), Start(t, k + 1), k % 2 == 1) {
      assert r[k] > 0 && Stretch(s, Start(r, k), Start(r, k + 1), k % 2 == 1);
    }
  }

  lemma RunsEmpty()
    ensures Runs([], []) && RunLengths([]) == []
  {
  }

  /** The run lengths of a line that starts white are the lengths of its maximal stretches. */
  lemma {:induction false} RunLengthsAreRuns(s: seq<bool>)
    requires s != [] ==> !s[0]
    ensures Runs(s, RunLengths(s))
    ensures s != [] ==> Last(s) == (|RunLengths(s)| % 2 == 0)
  {
    hide RunLengths, Runs;
    if s == [] {
      RunsEmpty();
    } else {
      var (init, b) := (s[..|s| - 1], Last(s));
      assert s == init + [b];
      RunLengthsAreRuns(init);
      RunsExtend(init, b);
      var r := RunLengths(init);
      if init == [] {
        RunsEmpty();
        RunsAppend(init, r, b);
      } else if Last(init) == b {
        RunsLengthen(init, r, b);
      } else {
        RunsAppend(init, r, b);
      }
    }
  }

  // ----- from stretches back to run lengths -----

  lemma RunStretch(s: seq<bool>, r: seq<nat>, k: nat)
    requires Runs(s, r) && k < |r|
    ensures r[k] > 0 && Start(r, k + 1) == Start(r, k) + r[k] <= |s|
    ensures Stretch(s, Start(r, k), Start(r, k) + r[k], k % 2 == 1)
  {
    assert Stretch(s, Start(r, k), Start(r, k + 1), k % 2 == 1);
  }

  lemma StartBlack(s: seq<bool>, r: seq<nat>, k: nat)
    requires Runs(s, r) && k < |r|
    ensures Start(r, k) < |s| && s[Start(r, k)] == (k % 2 == 1)
  {
    RunStretch(s, r, k);
  }

  lemma RunEnds(s: seq<bool>, r: seq<nat>, k: nat)
    requires Runs(s, r) && k < |r|
    ensures Start(r, k + 1) < |s| <==> k + 1 < |r|
  {
    if k + 1 < |r| { RunStretch(s, r, k + 1); }
  }

  /** A stretch from the start of a run is no longer than the run. */
  lemma StretchInRun(s: seq<bool>, r: seq<nat>, k: nat, n: nat)
    requires Runs(s, r) && k < |r| && n >= 1 && Stretch(s, Start(r, k), Start(r, k) + n, k % 2 == 1)
    ensures r[k] >= n
  {
    hide Start, Runs;
    RunStretch(s, r, k);
    if r[k] < n {
      RunEnds(s, r, k);
      StartBlack(s, r, k + 1);
    }
  }

  /** A stretch from the start of a run with the other colour after it is the run. */
  lemma StretchIsRun(s: seq<bool>, r: seq<nat>, k: nat, n: nat, b: bool)
    requires Runs(s, r) && k < |r| && n >= 1 && b == (k % 2 == 1)
    requires Stretch(s, Start(r, k), Start(r, k) + n, b) && Start(r, k) + n < |s| && s[Start(r, k) + n] != b
    ensures r[k] == n && k + 1 < |r| && Start(r, k + 1) == Start(r, k) + n
  {
    hide Start, Runs;
    StretchInRun(s, r, k, n);
    RunStretch(s, r, k);
    RunEnds(s, r, k);
  }

  lemma StartZero(r: seq<nat>)
    ensures Start(r, 0) == 0
  {
  }

  lemma RunLast(s: seq<bool>, r: seq<nat>, k: nat)
    requires Runs(s, r) && k < |r|
    ensures 0 < Start(r, k + 1) <= |s| && s[Start(r, k + 1) - 1] == (k % 2 == 1)
  {
    RunStretch(s, r, k);
  }

  /** A stretch up to the start of a run is no longer than the run before. */
  lemma StretchBefore(s: seq<bool>, r: seq<nat>, k: nat, n: nat)
    requires Runs(s, r) && 0 < k < |r| && n >= 1
    requires Stretch(s, Start(r, k) - n, Start(r, k), (k - 1) % 2 == 1)
    ensures r[k - 1] >= n
  {
    hide Start, Runs;
    RunStretch(s, r, k - 1);
    if r[k - 1] < n {
      StartZero(r);
      if k >= 2 { RunLast(s, r, k - 2); }
    }
  }

  // ----- patterns and runs -----

  /** Run k opens a pattern of width n with so much white around it. */
  ghost predicate PatternRuns(r: seq<nat>, k: nat, n: nat, before: nat, after: nat) {
    && 0 < k < |r| - 5 && k % 2 == 1
    && r[k] == n && r[k + 1] == n && r[k + 2] == 3 * n && r[k + 3] == n && r[k + 4] == n
    && r[k - 1] >= before && r[k + 5] >= after
  }

  /** A pattern that starts where a run starts is made of runs. */
  lemma PatternToRuns(s: seq<bool>, r: seq<nat>, k: nat, n: nat, before: nat, after: nat)
    requires Runs(s, r) && k < |r| && before >= 1 && after >= 1
    requires FinderAt(s, Start(r, k), n, before, after)
    ensures PatternRuns(r, k, n, before, after)
  {
    hide Start, Runs;
    StartBlack(s, r, k);
    StretchBefore(s, r, k, before);
    StretchIsRun(s, r, k, n, true);
    StretchIsRun(s, r, k + 1, n, false);
    StretchIsRun(s, r, k + 2, 3 * n, true);
    StretchIsRun(s, r, k + 3, n, false);
    StretchIsRun(s, r, k + 4, n, true);
    StretchInRun(s, r, k + 5, after);
  }

  lemma SubStretch(s: seq<bool>, lo: int, hi: int, a: int, b: int, colour: bool)
    requires Stretch(s, lo, hi, colour) && lo <= a <= b <= hi
    ensures Stretch(s, a, b, colour)
  {
  }

  lemma RunsToPattern(s: seq<bool>, r: seq<nat>, k: nat, n: nat, before: nat, after: nat)
    requires Runs(s, r) && n >= 1 && PatternRuns(r, k, n, before, after)
    ensures FinderAt(s, Start(r, k), n, before, after)
  {
    hide Start, Runs, Stretch;
    RunStretch(s, r, k - 1);
    RunStretch(s, r, k);
    RunStretch(s, r, k + 1);
    RunStretch(s, r, k + 2);
    RunStretch(s, r, k + 3);
    RunStretch(s, r, k + 4);
    RunStretch(s, r, k + 5);
    SubStretch(s, Start(r, k - 1), Start(r, k), Start(r, k) - before, Start(r, k), false);
    SubStretch(s, Start(r, k + 5), Start(r, k + 5) + r[k + 5], Start(r, k + 5), Start(r, k + 5) + after, false);
  }

  lemma WidthPositive(s: seq<bool>, i: nat, n: nat, before: nat, after: nat)
    requires FinderAt(s, i, n, before, after)
    ensures n >= 1 && i < |s| && s[i] && (before >= 1 ==> 0 < i && !s[i - 1])
  {
  }

  lemma LikeAtStart(s: seq<bool>, r: seq<nat>, k: nat, wideBefore: bool)
    requires Runs(s, r) && k < |r|
    ensures FinderLike(s, Start(r, k), wideBefore) <==>
            k % 2 == 1 && FinderCore(r, k + 5) && var n := r[k + 4];
            r[k - 1] >= (if wideBefore then 4 * n else n) && r[k + 5] >= (if wideBefore then n else 4 * n)
  {
    hide Start, Runs, FinderAt;
    if FinderLike(s, Start(r, k), wideBefore) {
      var n: nat :| FinderAt(s, Start(r, k), n, if wideBefore then 4 * n else n, if wideBefore then n else 4 * n);
      WidthPositive(s, Start(r, k), n, if wideBefore then 4 * n else n, if wideBefore then n else 4 * n);
      PatternToRuns(s, r, k, n, if wideBefore then 4 * n else n, if wideBefore then n else 4 * n);
    }
    if k % 2 == 1 && FinderCore(r, k + 5) {
      var n := r[k + 4];
      if r[k - 1] >= (if wideBefore then 4 * n else n) && r[k + 5] >= (if wideBefore then n else 4 * n) {
        RunsToPattern(s, r, k, n, if wideBefore then 4 * n else n, if wideBefore then n else 4 * n);
      }
    }
  }

  lemma SidesAtStart(s: seq<bool>, r: seq<nat>, k: nat)
    requires Runs(s, r) && k < |r|
    ensures SidesAt(s, Start(r, k)) == if k % 2 == 1 then FindersAt(r, k + 5) else 0
  {
    hide Start, Runs, FinderLike;
    LikeAtStart(s, r, k, true);
    LikeAtStart(s, r, k, false);
  }

  lemma NotLike(s: seq<bool>, i: nat, wideBefore: bool)
    requires 0 < i < |s| && s[i - 1] == s[i]
    ensures !FinderLike(s, i, wideBefore)
  {
    hide FinderAt;
    if FinderLike(s, i, wideBefore) {
      var n: nat :| FinderAt(s, i, n, if wideBefore then 4 * n else n, if wideBefore then n else 4 * n);
      WidthPositive(s, i, n, if wideBefore then 4 * n else n, if wideBefore then n else 4 * n);
    }
  }

  /** Inside a run no pattern starts. */
  lemma SidesInside(s: seq<bool>, i: nat)
    requires 0 < i < |s| && s[i - 1] == s[i]
    ensures SidesAt(s, i) == 0
  {
    hide FinderLike;
    NotLike(s, i, true);
    NotLike(s, i, false);
  }

  lemma {:induction false} SidesInRun(s: seq<bool>, r: seq<nat>, k: nat, j: nat)
    requires Runs(s, r) && k < |r| && 1 <= j <= r[k]
    ensures SidesBefore(s, Start(r, k) + j) == SidesBefore(s, Start(r, k)) + SidesAt(s, Start(r, k))
  {
    hide Start, Runs, SidesAt;
    RunStretch(s, r, k);
    if j > 1 {
      SidesInRun(s, r, k, j - 1);
      SidesInside(s, Start(r, k) + j - 1);
    }
  }

  lemma FindersFew(r: seq<nat>)
    ensures Finders(r, 5) == 0
  {
    assert Finders(r, 0) == 0;
    assert Finders(r, 2) == 0;
    assert Finders(r, 4) == 0;
  }

  /** Up to the start of run k the places count what the runs up to k + 4 count. */
  lemma {:induction false} SidesOfRuns(s: seq<bool>, r: seq<nat>, k: nat)
    requires Runs(s, r) && k <= |r|
    ensures SidesBefore(s, Start(r, k)) == Finders(r, k + 5)
  {
    hide Runs, SidesAt, FindersAt;
    if k == 0 {
      FindersFew(r);
    } else {
      SidesOfRuns(s, r, k - 1);
      RunStretch(s, r, k - 1);
      SidesInRun(s, r, k - 1, r[k - 1]);
      SidesAtStart(s, r, k - 1);
    }
  }

  lemma {:induction false} FindersEnd(r: seq<nat>, n: nat)
    ensures Finders(r, |r| + n) == Finders(r, |r|)
  {
    if n > 0 { FindersEnd(r, n - 1); }
  }

  lemma RunsWhole(s: seq<bool>, r: seq<nat>)
    requires Runs(s, r)
    ensures Start(r, |r|) == |s|
  {
  }

  /** The runs of a line that starts white count exactly the places and sides of its finder-like patterns. */
  lemma FindersMeaning(s: seq<bool>)
    requires s != [] ==> !s[0]
    ensures var r := RunLengths(s);
            Finders(r, |r|) == |FinderStarts(s, true)| + |FinderStarts(s, false)|
  {
    hide RunLengths, Runs, FinderLike;
    var r := RunLengths(s);
    RunLengthsAreRuns(s);
    SidesOfRuns(s, r, |r|);
    RunsWhole(s, r);
    FindersEnd(r, 5);
    SidesCounted(s, |s|);
    assert StartsBelow(s, true, |s|) == FinderStarts(s, true);
    assert StartsBelow(s, false, |s|) == FinderStarts(s, false);
  }

  // ----- the run penalty on the modules -----

  /** The n modules that end at i have one colour. */
  ghost predicate Same(s: seq<bool>, i: nat, n: nat) {
    i < |s| && Stretch(s, i + 1 - n, i + 1, s[i])
  }

  /** The places that complete five modules of one colour and not six. */
  ghost function Fifths(s: seq<bool>, n: nat): set<nat> {
    set i: nat | 0 <= i < n && Same(s, i, 5) && !Same(s, i, 6)
  }

  /** The places that complete six modules of one colour or more. */
  ghost function Further(s: seq<bool>, n: nat): set<nat> {
    set i: nat | 0 <= i < n && Same(s, i, 6)
  }

  lemma RunsSome(s: seq<bool>)
    requires s != []
    ensures RunLengths(s) != []
  {
  }

  lemma {:induction false} LastRun(s: seq<bool>, m: nat)
    requires s != [] && m >= 1
    ensures RunLengths(s) != [] && (Last(RunLengths(s)) >= m <==> Same(s, |s| - 1, m))
  {
    hide RunLengths;
    var (init, b) := (s[..|s| - 1], Last(s));
    assert s == init + [b];
    RunsExtend(init, b);
    RunsSome(s);
    if init != [] {
      RunsSome(init);
      RunsPositive(init);
      if m > 1 { LastRun(init, m - 1); }
    } else {
      RunsEmpty();
    }
  }

  lemma RunScoreGrows(s: seq<bool>, n: nat)
    requires n < |s|
    ensures RunScore(RunLengths(s[..n + 1])) == RunScore(RunLengths(s[..n])) +
            (if Same(s, n, 6) then 1 else if Same(s, n, 5) then 3 else 0)
  {
    hide RunLengths, RunScore;
    LineStep(s, n);
    if n == 0 {
      LineEmpty(s);
      ScoreOne();
      assert RunLengths(s[..n + 1]) == [1];
    } else {
      var t := s[..n];
      RunsSome(t);
      RunScoreStep(RunLengths(t));
      LastRun(t, 4);
      LastRun(t, 5);
      RunsPositive(t);
    }
  }

  /** Five modules of one colour in a row cost three points, every further one costs one. */
  lemma {:induction false} RunScoreMeaning(s: seq<bool>, n: nat)
    requires n <= |s|
    ensures RunScore(RunLengths(s[..n])) == 3 * |Fifths(s, n)| + |Further(s, n)|
  {
    hide RunLengths, RunScore, Same;
    if n == 0 {
      LineEmpty(s);
      ScoreOne();
      assert Fifths(s, 0) == {} && Further(s, 0) == {};
    } else {
      RunScoreMeaning(s, n - 1);
      OneMore(Fifths(s, n - 1), Fifths(s, n), n - 1, Same(s, n - 1, 5) && !Same(s, n - 1, 6));
      OneMore(Further(s, n - 1), Further(s, n), n - 1, Same(s, n - 1, 6));
      RunScoreGrows(s, n - 1);
    }
  }

  lemma BorderWhite(line: seq<bool>)
    ensures Bordered(line) != [] ==> !Bordered(line)[0]
  {
  }

  /** The penalty of a line, in modules: runs of five and more, and forty for every finder-like pattern and side. */
  lemma LinePenaltyMeaning(line: seq<bool>)
    ensures LinePenalty(line) ==
            3 * |Fifths(line, |line|)| + |Further(line, |line|)| +
            40 * (|FinderStarts(Bordered(line), true)| + |FinderStarts(Bordered(line), false)|)
  {
    hide RunLengths, RunScore, Same, FinderLike, Finders;
    RunScoreMeaning(line, |line|);
    assert line[..|line|] == line;
    BorderWhite(line);
    FindersMeaning(Bordered(line));
  }

  // ----- scores in numbers -----

  lemma NewRun(s: seq<bool>, b: bool, n: nat)
    requires (s == [] || Last(s) != b) && n > 0
    ensures RunLengths(s + Repeat(b, n)) == RunLengths(s) + [n] && Last(s + Repeat(b, n)) == b
  {
    hide RunLengths;
    RunsRepeat(s, b, n);
  }

  lemma FiveStretches(s: seq<bool>)
    ensures s + Repeat(true, 1) + Repeat(false, 1) + Repeat(true, 3) + Repeat(false, 1) + Repeat(true, 1) ==
            s + [true, false, true, true, true, false, true]
  {
  }

  lemma FiveLengths(r: seq<nat>)
    ensures r + [1] + [1] + [3] + [1] + [1] == r + [1, 1, 3, 1, 1]
  {
  }

  /** Runs of 1, 1, 3, 1 and 1 modules after the runs of s. */
  lemma FiveRuns(s: seq<bool>)
    requires s == [] || !Last(s)
    ensures RunLengths(s + [true, false, true, true, true, false, true]) == RunLengths(s) + [1, 1, 3, 1, 1]
  {
    hide RunLengths, Repeat;
    var a := s + Repeat(true, 1);
    var b := a + Repeat(false, 1);
    var c := b + Repeat(true, 3);
    NewRun(s, true, 1);
    NewRun(a, false, 1);
    NewRun(b, true, 3);
    NewRun(c, false, 1);
    NewRun(c + Repeat(false, 1), true, 1);
    FiveStretches(s);
    FiveLengths(RunLengths(s));
  }

  lemma SampleRuns()
    ensures var line := [true, false, true, true, true, false, true];
            && RunLengths(line) == [1, 1, 3, 1, 1]
            && RunLengths(Bordered(line)) == [7, 1, 1, 3, 1, 1, 7]
  {
    hide RunLengths;
    var line := [true, false, true, true, true, false, true];
    ExpandNothing(false);
    FiveRuns([]);
    assert [] + line == line;
    var border := Repeat(false, 7);
    RunsRepeat([], false, 7);
    assert [] + border == border;
    FiveRuns(border);
    RunsRepeat(border + line, false, 7);
  }

  lemma SampleScores()
    ensures RunScore([1, 1, 3, 1, 1]) == 0 && Finders([7, 1, 1, 3, 1, 1, 7], 7) == 2
  {
    assert RunScore([1, 1, 3]) == 0 by { assert [1, 1, 3][..2] == [1, 1] && [1, 1][..1] == [1]; }
    assert [1, 1, 3, 1, 1][..4] == [1, 1, 3, 1] && [1, 1, 3, 1][..3] == [1, 1, 3];
    FindersFew([7, 1, 1, 3, 1, 1, 7]);
  }

  /** The smallest finder-like line costs two times forty points. */
  lemma FinderLineScore()
    ensures LinePenalty([true, false, true, true, true, false, true]) == 80
  {
    hide RunLengths, RunScore, Finders, Bordered;
    SampleRuns();
    SampleScores();
  }

  lemma WhiteRuns(n: nat)
    requires n > 0
    ensures RunLengths(Repeat(false, n)) == [n]
  {
    hide RunLengths;
    RunsRepeat([], false, n);
    RunsEmpty();
    assert [] + Repeat(false, n) == Repeat(false, n);
  }

  lemma WhiteLine(n: nat)
    requires n >= 5
    ensures LinePenalty(Repeat(false, n)) == n - 2
  {
    hide RunLengths;
    WhiteRuns(n);
    WhiteRuns(3 * n);
    assert Bordered(Repeat(false, n)) == Repeat(false, 3 * n);
    assert RunScore([n]) == n - 2 by { assert [n][..0] == []; }
    assert Finders([3 * n], 1) == 0;
  }

  lemma {:induction false} WhiteLines(g: Grid, size: nat, n: nat)
    requires Square(g, size) && size >= 5 && n <= size
    requires forall x, y | 0 <= x < size && 0 <= y < size :: !g[y][x]
    ensures RowsPenalty(g, n) == n * (size - 2) && ColumnsPenalty(g, size, n) == n * (size - 2)
  {
    hide LinePenalty;
    if n > 0 {
      WhiteLines(g, size, n - 1);
      WhiteLine(size);
      assert g[n - 1] == Repeat(false, size);
      assert ColumnOf(g, n - 1, size) == Repeat(false, size);
    }
  }

  lemma WhiteImbalance(total: nat)
    requires total > 0
    ensures Imbalance(0, total) == 9
  {
    assert (11 * total - 1) / total == 10;
  }

  /** What an all-white symbol costs: its lines, its blocks at three points each, and nine steps of imbalance. */
  lemma WhiteScore(g: Grid, size: nat)
    requires Square(g, size) && size >= 5
    requires forall x, y | 0 <= x < size && 0 <= y < size :: !g[y][x]
    ensures PenaltyScore(g, size) == 2 * (size * (size - 2)) + 3 * ((size - 1) * (size - 1)) + 90
  {
    hide RowsPenalty, ColumnsPenalty;
    WhiteLines(g, size, size);
    var corners := Range(0, size - 1);
    assert UniformBlocks(g, size) == Prod(corners, corners);
    ProdSize(corners, corners);
    RangeSize(0, size - 1);
    assert BlackCells(g, size) == {};
    WhiteImbalance(size * size);
  }

  /** The weights of the four parts. */
  lemma PenaltyParts(g: Grid, size: nat)
    requires Square(g, size) && size > 0
    ensures PenaltyScore(g, size) ==
            RowsPenalty(g, size) + ColumnsPenalty(g, size, size) +
            3 * |UniformBlocks(g, size)| + 10 * Imbalance(|BlackCells(g, size)|, size * size)
  {
    hide RowsPenalty, ColumnsPenalty, UniformBlocks, BlackCells, Imbalance;
  }
}
