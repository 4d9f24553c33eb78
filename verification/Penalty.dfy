/** The penalty score that ranks masks: run lengths, finder-like patterns, blocks of one colour, balance. */
module Penalty {
  import opened Zigzag
  import opened ModuleCount
  import opened Patterns

  const PENALTY_N1 := 3
  const PENALTY_N2 := 3
  const PENALTY_N3 := 40
  const PENALTY_N4 := 10

  // ----- run lengths -----

  function Last<T>(s: seq<T>): T
    requires s != []
  {
    s[|s| - 1]
  }

  /** The lengths of the maximal runs of one colour, in order. */
  function RunLengths(s: seq<bool>): (r: seq<nat>)
    ensures s == [] <==> r == []
  {
    if |s| == 0 then [] else Lengthened(RunLengths(s[..|s| - 1]), |s| > 1 && s[|s| - 2] == Last(s))
  }

  /** One more module: it lengthens the last run, or starts a new one. */
  function Lengthened(r: seq<nat>, same: bool): (t: seq<nat>)
    requires same ==> r != []
    ensures t != []
  {
    if same then r[..|r| - 1] + [Last(r) + 1] else r + [1]
  }

  function Repeat(b: bool, n: nat): (s: seq<bool>)
    ensures |s| == n
  {
    seq(n, _ => b)
  }

  /** The line whose runs alternate in colour, ending in colour b. */
  function Expand(r: seq<nat>, b: bool): seq<bool> {
    if r == [] then [] else Expand(r[..|r| - 1], !b) + Repeat(b, Last(r))
  }

  lemma {:induction false} RunsPositive(s: seq<bool>)
    ensures forall k | 0 <= k < |RunLengths(s)| :: RunLengths(s)[k] > 0
  {
    hide RunLengths;
    if s != [] {
      RunsPositive(s[..|s| - 1]);
      RunsExtend(s[..|s| - 1], Last(s));
      assert s == s[..|s| - 1] + [Last(s)];
    }
  }

  lemma ExpandAppend(r: seq<nat>, n: nat, b: bool)
    ensures Expand(r + [n], b) == Expand(r, !b) + Repeat(b, n)
  {
    assert (r + [n])[..|r|] == r;
  }

  /** The run lengths describe the line completely. */
  lemma {:induction false} ExpandRuns(s: seq<bool>)
    requires s != []
    ensures Expand(RunLengths(s), Last(s)) == s
  {
    hide RunLengths, Expand;
    var (init, b) := (s[..|s| - 1], Last(s));
    var r := RunLengths(init);
    assert s == init + [b];
    RunsExtend(init, b);
    ExpandAppend(r, 1, b);
    assert Repeat(b, 1) == [b];
    if init == [] {
      ExpandNothing(!b);
    } else {
      ExpandRuns(init);
      if Last(init) == b {
        var front := r[..|r| - 1];
        assert r == front + [Last(r)];
        ExpandAppend(front, Last(r), b);
        ExpandAppend(front, Last(r) + 1, b);
        assert Repeat(b, Last(r) + 1) == Repeat(b, Last(r)) + [b];
      } else {
        assert Last(init) == !b;
      }
    }
  }

  lemma ExpandNothing(b: bool)
    ensures RunLengths([]) == [] && Expand([], b) == []
  {
  }

  lemma RunsExtend(s: seq<bool>, b: bool)
    ensures RunLengths(s + [b]) ==
            var r := RunLengths(s);
            if s != [] && Last(s) == b then r[..|r| - 1] + [Last(r) + 1] else r + [1]
  {
    hide RunLengths;
    RunsLast(s, b);
  }

  lemma RunsLast(s: seq<bool>, b: bool)
    ensures RunLengths(s + [b]) == Lengthened(RunLengths(s), s != [] && Last(s) == b)
  {
    hide Lengthened;
    assert (s + [b])[..|s|] == s;
  }

  lemma {:induction false} RunsRepeat(s: seq<bool>, b: bool, n: nat)
    requires n > 0
    ensures RunLengths(s + Repeat(b, n)) ==
            var r := RunLengths(s);
            if s != [] && Last(s) == b then r[..|r| - 1] + [Last(r) + n] else r + [n]
  {
    hide RunLengths;
    assert Repeat(b, n) == Repeat(b, n - 1) + [b];
    assert s + Repeat(b, n) == s + Repeat(b, n - 1) + [b];
    RunsExtend(s + Repeat(b, n - 1), b);
    if n == 1 {
      assert s + Repeat(b, 0) == s;
    } else {
      RunsRepeat(s, b, n - 1);
      assert Last(s + Repeat(b, n - 1)) == b;
      var r := RunLengths(s);
      if s != [] && Last(s) == b { BumpLast(r[..|r| - 1], Last(r) + n - 1); } else { BumpLast(r, n - 1); }
    }
  }

  lemma BumpLast(front: seq<nat>, n: nat)
    ensures var q := front + [n]; q[..|q| - 1] + [Last(q) + 1] == front + [n + 1]
  {
  }

  // ----- the score of runs -----

  function RunScore(r: seq<nat>): nat {
    if r == [] then 0 else RunScore(r[..|r| - 1]) + (if Last(r) >= 5 then Last(r) - 2 else 0)
  }

  // ----- finder-like patterns -----

  /** The line with a white border of its own length on both sides. */
  function Bordered(line: seq<bool>): seq<bool> {
    Repeat(false, |line|) + line + Repeat(false, |line|)
  }

  /** Runs k-6 to k have proportions 1:1:3:1:1 between white runs of which one is four units wide. */
  predicate FinderCore(r: seq<nat>, k: nat) {
    && 6 <= k < |r|
    && var n := r[k - 1];
    && n > 0 && r[k - 2] == n && r[k - 3] == 3 * n && r[k - 4] == n && r[k - 5] == n
  }

  function FindersAt(r: seq<nat>, k: nat): nat {
    if !FinderCore(r, k) then 0 else
      var n := r[k - 1];
      (if r[k] >= 4 * n && r[k - 6] >= n then 1 else 0) + (if r[k - 6] >= 4 * n && r[k] >= n then 1 else 0)
  }

  /** All finder-like patterns that end at one of the first k runs; white runs have even index. */
  function Finders(r: seq<nat>, k: nat): nat {
    if k == 0 then 0 else Finders(r, k - 1) + (if k % 2 == 1 then FindersAt(r, k - 1) else 0)
  }

  lemma {:induction false} FindersPrefix(r: seq<nat>, s: seq<nat>, k: nat)
    requires k <= |r| && k <= |s| && r[..k] == s[..k]
    ensures Finders(r, k) == Finders(s, k)
  {
    if k > 0 {
      assert forall i | 0 <= i < k :: r[i] == r[..k][i] == s[..k][i] == s[i];
      assert r[..k - 1] == s[..k - 1];
      FindersPrefix(r, s, k - 1);
    }
  }

  /** The penalty of one row or column. */
  function LinePenalty(line: seq<bool>): nat {
    var r := RunLengths(Bordered(line));
    RunScore(RunLengths(line)) + Finders(r, |r|) * PENALTY_N3
  }

  // ----- the rolling history -----

  /** The last seven runs, most recent first, zero where there are fewer. */
  function Recent(r: seq<nat>): (h: seq<nat>)
    ensures |h| == 7
  {
    seq(7, k => if 0 <= k < |r| then r[|r| - 1 - k] else 0)
  }

  function AddHistory(size: nat, currentRunLength: nat, history: seq<nat>): (h: seq<nat>)
    requires |history| == 7
    ensures |h| == 7
  {
    [currentRunLength + (if history[0] == 0 then size else 0)] + history[..6]
  }

  /** The count the encoder takes from the history. */
  function CountPatterns(history: seq<nat>): nat
    requires |history| == 7
  {
    var n := history[1];
    var core := n > 0 && history[2] == n && history[3] == n * 3 && history[4] == n && history[5] == n;
    (if core && history[0] >= n * 4 && history[6] >= n then 1 else 0) +
    (if core && history[6] >= n * 4 && history[0] >= n then 1 else 0)
  }

  lemma CountRecent(r: seq<nat>)
    requires r != []
    ensures CountPatterns(Recent(r)) == FindersAt(r, |r| - 1)
  {
  }

  lemma RecentAppend(r: seq<nat>, n: nat)
    ensures Recent(r + [n]) == [n] + Recent(r)[..6]
  {
  }

  /** The runs of the left border and the first x modules. */
  function SeenRuns(line: seq<bool>, x: nat): seq<nat>
    requires x <= |line|
  {
    RunLengths(Repeat(false, |line|) + line[..x])
  }

  /** What the loop over a line has recorded after x modules. */
  ghost predicate Tracks(line: seq<bool>, x: nat, runColor: bool, run: nat, history: seq<nat>)
    requires x <= |line|
  {
    var r := SeenRuns(line, x);
    && r != []
    && history == Recent(r[..|r| - 1])
    && Last(r) == run + (if |r| == 1 then |line| else 0)
    && (runColor <==> |r| % 2 == 0)
    && (if x == 0 then run == 0 && !runColor else run == Last(RunLengths(line[..x])) && runColor == line[x - 1])
  }

  lemma SeenStep(line: seq<bool>, x: nat)
    requires x < |line|
    ensures var prev := if x == 0 then false else line[x - 1];
            var r := SeenRuns(line, x);
            r != [] && SeenRuns(line, x + 1) == if prev == line[x] then r[..|r| - 1] + [Last(r) + 1] else r + [1]
  {
    hide RunLengths;
    var s := Repeat(false, |line|) + line[..x];
    assert Repeat(false, |line|) + line[..x + 1] == s + [line[x]];
    RunsExtend(s, line[x]);
  }

  lemma LineStep(line: seq<bool>, x: nat)
    requires x < |line|
    ensures RunLengths(line[..x + 1]) ==
            var r := RunLengths(line[..x]);
            if x > 0 && line[x - 1] == line[x] then r[..|r| - 1] + [Last(r) + 1] else r + [1]
  {
    hide RunLengths;
    assert line[..x + 1] == line[..x] + [line[x]];
    RunsExtend(line[..x], line[x]);
  }

  lemma TracksStart(line: seq<bool>)
    requires line != []
    ensures Tracks(line, 0, false, 0, [0, 0, 0, 0, 0, 0, 0])
    ensures |SeenRuns(line, 0)| == 1
  {
    RunsRepeat([], false, |line|);
    assert [] + Repeat(false, |line|) == Repeat(false, |line|) + line[..0];
    assert SeenRuns(line, 0) == [|line|];
  }

  lemma TracksSame(line: seq<bool>, x: nat, runColor: bool, run: nat, history: seq<nat>)
    requires x < |line| && Tracks(line, x, runColor, run, history) && line[x] == runColor
    ensures Tracks(line, x + 1, runColor, run + 1, history)
    ensures var r := SeenRuns(line, x); SeenRuns(line, x + 1) == r[..|r| - 1] + [Last(r) + 1]
  {
    hide RunLengths, SeenRuns, Recent;
    SeenStep(line, x);
    LineStep(line, x);
    assert SeenRuns(line, x + 1)[..|SeenRuns(line, x)| - 1] == SeenRuns(line, x)[..|SeenRuns(line, x)| - 1];
    if x == 0 { LineEmpty(line); }
  }

  lemma LineEmpty(line: seq<bool>)
    ensures RunLengths(line[..0]) == []
  {
  }

  /** A finished run enters the history with the border added to the first one. */
  lemma HistoryPush(line: seq<bool>, x: nat, runColor: bool, run: nat, history: seq<nat>)
    requires line != [] && x <= |line| && Tracks(line, x, runColor, run, history)
    ensures AddHistory(|line|, run, history) == Recent(SeenRuns(line, x))
  {
    var r := SeenRuns(line, x);
    RunsPositive(Repeat(false, |line|) + line[..x]);
    assert forall k | 0 <= k < |r| :: r[k] > 0;
    hide RunLengths, SeenRuns;
    RecentAppend(r[..|r| - 1], Last(r));
    assert r == r[..|r| - 1] + [Last(r)];
  }

  lemma TracksChange(line: seq<bool>, x: nat, runColor: bool, run: nat, history: seq<nat>)
    requires x < |line| && Tracks(line, x, runColor, run, history) && line[x] != runColor
    ensures Tracks(line, x + 1, line[x], 1, AddHistory(|line|, run, history))
    ensures SeenRuns(line, x + 1) == SeenRuns(line, x) + [1]
  {
    hide RunLengths, SeenRuns, Recent, AddHistory;
    HistoryPush(line, x, runColor, run, history);
    if x == 0 { LineEmpty(line); }
    SeenStep(line, x);
    LineStep(line, x);
    assert SeenRuns(line, x + 1)[..|SeenRuns(line, x)|] == SeenRuns(line, x);
  }

  lemma RunScoreStep(r: seq<nat>)
    requires r != []
    ensures RunScore(r[..|r| - 1] + [Last(r) + 1]) ==
            RunScore(r) + (if Last(r) + 1 == 5 then PENALTY_N1 else if Last(r) + 1 > 5 then 1 else 0)
    ensures RunScore(r + [1]) == RunScore(r)
  {
    assert (r[..|r| - 1] + [Last(r) + 1])[..|r| - 1] == r[..|r| - 1];
    assert (r + [1])[..|r|] == r;
  }

  /** The runs of the bordered line are those of the left border and the line, closed by the right border. */
  lemma SeenAll(line: seq<bool>)
    requires line != []
    ensures var r := SeenRuns(line, |line|);
            && r != []
            && RunLengths(Bordered(line)) == if Last(line) then r + [|line|] else r[..|r| - 1] + [Last(r) + |line|]
  {
    hide RunLengths;
    assert line[..|line|] == line;
    RunsRepeat(Repeat(false, |line|) + line, false, |line|);
  }

  /** The end of a line: the pending run and the right border enter the history. */
  function TerminateHistory(size: nat, runColor: bool, run: nat, history: seq<nat>): (h: seq<nat>)
    requires |history| == 7
    ensures |h| == 7
  {
    if runColor then AddHistory(size, size, AddHistory(size, run, history))
    else AddHistory(size, run + size, history)
  }

  lemma HistoryEnd(line: seq<bool>, runColor: bool, run: nat, history: seq<nat>)
    requires line != [] && Tracks(line, |line|, runColor, run, history)
    ensures TerminateHistory(|line|, runColor, run, history) == Recent(RunLengths(Bordered(line)))
    ensures var r := SeenRuns(line, |line|);
            RunLengths(Bordered(line)) == if runColor then r + [|line|] else r[..|r| - 1] + [Last(r) + |line|]
  {
    hide RunLengths, SeenRuns, Bordered;
    var r := SeenRuns(line, |line|);
    SeenAll(line);
    SeenPositive(line);
    HistoryPush(line, |line|, runColor, run, history);
    if runColor {
      RecentAppend(r, |line|);
    } else {
      RecentAppend(r[..|r| - 1], Last(r) + |line|);
    }
  }

  lemma SeenPositive(line: seq<bool>)
    ensures forall k | 0 <= k < |SeenRuns(line, |line|)| :: SeenRuns(line, |line|)[k] > 0
  {
    hide RunLengths;
    RunsPositive(Repeat(false, |line|) + line[..|line|]);
  }

  /** One run cannot be longer than the bordered line. */
  lemma {:induction false} RunBound(s: seq<bool>)
    ensures forall k | 0 <= k < |RunLengths(s)| :: RunLengths(s)[k] <= |s|
    ensures |RunLengths(s)| <= |s|
  {
    if s != [] { RunBound(s[..|s| - 1]); }
  }

  /** The count over the finished runs when a white run ends, and when a black one does. */
  lemma FindersPush(r: seq<nat>, n: nat)
    requires r != []
    ensures Finders(r + [n], |r|) == Finders(r, |r| - 1) + (if |r| % 2 == 1 then CountPatterns(Recent(r)) else 0)
  {
    hide Recent;
    assert (r + [n])[..|r|] == r;
    FindersPrefix(r + [n], r, |r|);
    CountRecent(r);
  }

  /** The loop over one row or column. */
  method LineScore(line: seq<bool>) returns (result: nat)
    requires line != []
    ensures result == LinePenalty(line)
  {
    hide RunLengths, SeenRuns, Recent, Finders, RunScore, Tracks, CountPatterns, Bordered;
    var size := |line|;
    var runColor := false;
    var run: nat := 0;
    var history: seq<nat> := [0, 0, 0, 0, 0, 0, 0];
    result := 0;
    ghost var finders := 0;
    ScoreStart(line);
    for x := 0 to size
      invariant |history| == 7 && Tracks(line, x, runColor, run, history)
      invariant SeenRuns(line, x) != [] && finders == Finders(SeenRuns(line, x), |SeenRuns(line, x)| - 1)
      invariant result == RunScore(RunLengths(line[..x])) + finders * PENALTY_N3
    {
      if line[x] == runColor {
        ScoreSame(line, x, runColor, run, history);
        run := run + 1;
        if run == 5 {
          result := result + PENALTY_N1;
        } else if run > 5 {
          result := result + 1;
        }
      } else {
        ScoreChange(line, x, runColor, run, history);
        history := AddHistory(size, run, history);
        if !runColor {
          assert history[1] <= size * 3;  // the range check of the pattern count cannot fail
          finders := finders + CountPatterns(history);
          result := result + CountPatterns(history) * PENALTY_N3;
        }
        runColor := line[x];
        run := 1;
      }
    }
    ScoreEnd(line, runColor, run, history);
    history := TerminateHistory(size, runColor, run, history);
    assert history[1] <= size * 3;
    result := result + CountPatterns(history) * PENALTY_N3;
  }

  lemma ScoreStart(line: seq<bool>)
    requires line != []
    ensures Tracks(line, 0, false, 0, [0, 0, 0, 0, 0, 0, 0])
    ensures SeenRuns(line, 0) != [] && Finders(SeenRuns(line, 0), |SeenRuns(line, 0)| - 1) == 0
    ensures RunScore(RunLengths(line[..0])) == 0
  {
    TracksStart(line);
  }

  lemma ScoreSame(line: seq<bool>, x: nat, runColor: bool, run: nat, history: seq<nat>)
    requires x < |line| && Tracks(line, x, runColor, run, history) && line[x] == runColor
    ensures Tracks(line, x + 1, runColor, run + 1, history)
    ensures SeenRuns(line, x) != [] && SeenRuns(line, x + 1) != []
    ensures Finders(SeenRuns(line, x + 1), |SeenRuns(line, x + 1)| - 1) ==
            Finders(SeenRuns(line, x), |SeenRuns(line, x)| - 1)
    ensures RunScore(RunLengths(line[..x + 1])) == RunScore(RunLengths(line[..x])) +
            (if run + 1 == 5 then PENALTY_N1 else if run + 1 > 5 then 1 else 0)
  {
    hide RunLengths, SeenRuns, Recent, Finders, RunScore;
    TracksSame(line, x, runColor, run, history);
    var (r, s) := (SeenRuns(line, x), SeenRuns(line, x + 1));
    FindersPrefix(s, r, |r| - 1);
    LineStep(line, x);
    if x == 0 {
      LineEmpty(line);
      ScoreOne();
      assert RunLengths(line[..x + 1]) == [1];
    } else {
      RunScoreStep(RunLengths(line[..x]));
    }
  }

  lemma ScoreOne()
    ensures RunScore([]) == 0 && RunScore([1]) == 0
  {
  }

  lemma ScoreChange(line: seq<bool>, x: nat, runColor: bool, run: nat, history: seq<nat>)
    requires x < |line| && Tracks(line, x, runColor, run, history) && line[x] != runColor
    requires |history| == 7
    ensures var h := AddHistory(|line|, run, history);
            && Tracks(line, x + 1, line[x], 1, h)
            && SeenRuns(line, x) != [] && SeenRuns(line, x + 1) != []
            && h[1] <= 3 * |line|
            && Finders(SeenRuns(line, x + 1), |SeenRuns(line, x + 1)| - 1) ==
               Finders(SeenRuns(line, x), |SeenRuns(line, x)| - 1) + (if runColor then 0 else CountPatterns(h))
    ensures RunScore(RunLengths(line[..x + 1])) == RunScore(RunLengths(line[..x]))
  {
    hide RunLengths, SeenRuns, Recent, Finders, RunScore, CountPatterns, AddHistory;
    TracksChange(line, x, runColor, run, history);
    HistoryPush(line, x, runColor, run, history);
    var r := SeenRuns(line, x);
    FindersPush(r, 1);
    SeenBound(line, x);
    LineStep(line, x);
    if x == 0 {
      LineEmpty(line);
      ScoreOne();
      assert RunLengths(line[..x + 1]) == [1];
    } else {
      RunScoreStep(RunLengths(line[..x]));
    }
  }

  lemma SeenBound(line: seq<bool>, x: nat)
    requires x <= |line|
    ensures Recent(SeenRuns(line, x))[1] <= 3 * |line|
  {
    hide RunLengths;
    RunBound(Repeat(false, |line|) + line[..x]);
  }

  lemma ScoreEnd(line: seq<bool>, runColor: bool, run: nat, history: seq<nat>)
    requires line != [] && |history| == 7 && Tracks(line, |line|, runColor, run, history)
    ensures var h := TerminateHistory(|line|, runColor, run, history);
            var r := SeenRuns(line, |line|);
            && h[1] <= 3 * |line| && r != []
            && LinePenalty(line) ==
               RunScore(RunLengths(line[..|line|])) + (Finders(r, |r| - 1) + CountPatterns(h)) * PENALTY_N3
  {
    hide RunLengths, SeenRuns, Recent, Finders, RunScore, CountPatterns, AddHistory, Bordered;
    HistoryEnd(line, runColor, run, history);
    assert line[..|line|] == line;
    var (r, all) := (SeenRuns(line, |line|), RunLengths(Bordered(line)));
    BorderedBound(line);
    assert all != [];
    FindersPush(all, 0);
    FindersPrefix(all + [0], all, |all|);
    if runColor {
      FindersPush(r, |line|);
    } else {
      FindersPrefix(all, r, |r| - 1);
    }
  }

  lemma BorderedBound(line: seq<bool>)
    ensures Recent(RunLengths(Bordered(line)))[1] <= 3 * |line|
  {
    hide RunLengths;
    RunBound(Bordered(line));
  }

  // ----- the whole grid -----

  function ColumnOf(g: Grid, x: nat, size: nat): (s: seq<bool>)
    requires Square(g, size) && x < size
    ensures |s| == size
  {
    seq(size, y requires 0 <= y < size => g[y][x])
  }

  function RowsPenalty(g: Grid, n: nat): nat
    requires n <= |g|
  {
    if n == 0 then 0 else RowsPenalty(g, n - 1) + LinePenalty(g[n - 1])
  }

  function ColumnsPenalty(g: Grid, size: nat, n: nat): nat
    requires Square(g, size) && n <= size
  {
    if n == 0 then 0 else ColumnsPenalty(g, size, n - 1) + LinePenalty(ColumnOf(g, n - 1, size))
  }

  /** The two by two square with its top left corner at (x, y) has one colour. */
  predicate UniformBlock(g: Grid, size: nat, x: nat, y: nat)
    requires Square(g, size) && x + 1 < size && y + 1 < size
  {
    g[y][x] == g[y][x + 1] == g[y + 1][x] == g[y + 1][x + 1]
  }

  /** The corners of all uniform blocks. */
  function UniformBlocks(g: Grid, size: nat): set<Cell>
    requires Square(g, size)
  {
    set x, y | 0 <= x < size - 1 && 0 <= y < size - 1 && UniformBlock(g, size, x, y) :: Cell(x, y)
  }

  /** All black modules. */
  function BlackCells(g: Grid, size: nat): set<Cell>
    requires Square(g, size)
  {
    set x, y | 0 <= x < size && 0 <= y < size && g[y][x] :: Cell(x, y)
  }

  function Imbalance(black: nat, total: nat): int
    requires total > 0
  {
    (Abs(black * 20 - total * 10) + total - 1) / total - 1
  }

  function PenaltyScore(g: Grid, size: nat): int
    requires Square(g, size) && size > 0
  {
    RowsPenalty(g, size) + ColumnsPenalty(g, size, size) +
    |UniformBlocks(g, size)| * PENALTY_N2 + Imbalance(|BlackCells(g, size)|, size * size) * PENALTY_N4
  }

  /**
    On an odd number of modules the imbalance is the smallest k >= 0 for which the share of black modules
    lies between 45 - 5k and 55 + 5k percent.
   */
  lemma ImbalanceSmallest(black: nat, total: nat)
    requires total % 2 == 1
    ensures var k := Imbalance(black, total);
            && k >= 0
            && (45 + -5 * k) * total <= 100 * black <= (55 + 5 * k) * total
            && (k > 0 ==> !((50 + -5 * k) * total <= 100 * black <= (50 + 5 * k) * total))
  {
    var d := Abs(black * 20 - total * 10);
    var k := Imbalance(black, total);
    Ceiling(d, total);
    Percent(45, -5, k, total); Percent(55, 5, k, total); Percent(50, -5, k, total); Percent(50, 5, k, total);
  }

  lemma Percent(a: int, b: int, k: int, total: int)
    ensures (a + b * k) * total == a * total + b * (k * total)
  {
  }

  lemma Ceiling(d: nat, t: nat)
    requires d > 0 && t > 0
    ensures var k := (d + t - 1) / t - 1; k >= 0 && k * t < d <= k * t + t
  {
    var q := (d + t - 1) / t;
    assert d + t - 1 == q * t + (d + t - 1) % t;
    assert q * t > 0;
    assert (q - 1) * t == q * t - t;
  }

  // ----- the scoring loops -----

  /** The corners of uniform blocks in the first y rows, and in row y left of column x. */
  function BlocksBefore(g: Grid, size: nat, y: nat, x: nat): set<Cell>
    requires Square(g, size)
  {
    set a, b |
      0 <= a < size - 1 && 0 <= b < size - 1 && (b < y || (b == y && a < x)) && UniformBlock(g, size, a, b) ::
      Cell(a, b)
  }

  lemma BlocksStep(g: Grid, size: nat, y: nat, x: nat)
    requires Square(g, size) && x + 1 < size && y + 1 < size
    ensures |BlocksBefore(g, size, y, x + 1)| ==
            |BlocksBefore(g, size, y, x)| + (if UniformBlock(g, size, x, y) then 1 else 0)
  {
    var (s, t) := (BlocksBefore(g, size, y, x), BlocksBefore(g, size, y, x + 1));
    if UniformBlock(g, size, x, y) {
      assert t == s + {Cell(x, y)};
    } else {
      assert t == s;
    }
  }

  method CountBlocks(g: Grid, size: nat) returns (n: nat)
    requires Square(g, size)
    ensures n == |UniformBlocks(g, size)|
  {
    n := 0;
    var rows := if size == 0 then 0 else size - 1;
    assert BlocksBefore(g, size, 0, 0) == {};
    for y := 0 to rows
      invariant n == |BlocksBefore(g, size, y, 0)|
    {
      for x := 0 to rows
        invariant n == |BlocksBefore(g, size, y, x)|
      {
        BlocksStep(g, size, y, x);
        var color := g[y][x];
        if color == g[y][x + 1] && color == g[y + 1][x] && color == g[y + 1][x + 1] {
          n := n + 1;
        }
      }
      assert BlocksBefore(g, size, y, rows) == BlocksBefore(g, size, y + 1, 0);
    }
    assert BlocksBefore(g, size, rows, 0) == UniformBlocks(g, size);
  }

  /** The black modules in the first y rows, and in row y left of column x. */
  function BlackBefore(g: Grid, size: nat, y: nat, x: nat): set<Cell>
    requires Square(g, size)
  {
    set a, b | 0 <= a < size && 0 <= b < size && (b < y || (b == y && a < x)) && g[b][a] :: Cell(a, b)
  }

  lemma BlackStep(g: Grid, size: nat, y: nat, x: nat)
    requires Square(g, size) && x < size && y < size
    ensures |BlackBefore(g, size, y, x + 1)| == |BlackBefore(g, size, y, x)| + (if g[y][x] then 1 else 0)
  {
    var (s, t) := (BlackBefore(g, size, y, x), BlackBefore(g, size, y, x + 1));
    if g[y][x] {
      assert t == s + {Cell(x, y)};
    } else {
      assert t == s;
    }
  }

  method CountBlack(g: Grid, size: nat) returns (black: nat)
    requires Square(g, size)
    ensures black == |BlackCells(g, size)|
  {
    black := 0;
    assert BlackBefore(g, size, 0, 0) == {};
    for y := 0 to |g|
      invariant black == |BlackBefore(g, size, y, 0)|
    {
      for x := 0 to |g[y]|
        invariant black == |BlackBefore(g, size, y, x)|
      {
        BlackStep(g, size, y, x);
        if g[y][x] {
          black := black + 1;
        }
      }
      assert BlackBefore(g, size, y, size) == BlackBefore(g, size, y + 1, 0);
    }
    assert BlackBefore(g, size, size, 0) == BlackCells(g, size);
  }

  method GetPenaltyScore(g: Grid, size: nat) returns (result: int)
    requires Square(g, size) && size > 0
    ensures result == PenaltyScore(g, size)
  {
    hide LinePenalty, UniformBlocks, BlackCells;
    result := 0;
    for y := 0 to size
      invariant result == RowsPenalty(g, y)
    {
      var score := LineScore(g[y]);
      result := result + score;
    }
    ghost var rows := result;
    for x := 0 to size
      invariant result == rows + ColumnsPenalty(g, size, x)
    {
      var score := LineScore(ColumnOf(g, x, size));
      result := result + score;
    }
    var blocks := CountBlocks(g, size);
    result := result + blocks * PENALTY_N2;
    var black := CountBlack(g, size);
    var total := size * size;
    var k := (Abs(black * 20 - total * 10) + total - 1) / total - 1;
    result := result + k * PENALTY_N4;
  }

  // ----- the score fits a long -----

  lemma {:induction false} RunScoreBound(s: seq<bool>)
    ensures RunScore(RunLengths(s)) <= 3 * |s|
  {
    hide RunLengths, RunScore;
    if s == [] {
      LineEmpty(s);
      ScoreOne();
    } else {
      var (init, b) := (s[..|s| - 1], Last(s));
      assert s == init + [b];
      RunScoreBound(init);
      RunsExtend(init, b);
      if init == [] {
        ScoreOne();
        LineEmpty(s);
        assert RunLengths(s) == [1];
      } else {
        RunScoreStep(RunLengths(init));
      }
    }
  }

  lemma {:induction false} FindersBound(r: seq<nat>, k: nat)
    ensures Finders(r, k) <= 2 * k
  {
    if k > 0 { FindersBound(r, k - 1); }
  }

  lemma LineBound(line: seq<bool>)
    ensures LinePenalty(line) <= 243 * |line|
  {
    hide RunLengths, RunScore, Finders;
    var r := RunLengths(Bordered(line));
    RunScoreBound(line);
    FindersBound(r, |r|);
    RunBound(Bordered(line));
  }

  lemma {:induction false} RowsBound(g: Grid, size: nat, n: nat)
    requires Square(g, size) && n <= size
    ensures RowsPenalty(g, n) <= 243 * (n * size)
    ensures ColumnsPenalty(g, size, n) <= 243 * (n * size)
  {
    hide LinePenalty;
    if n > 0 {
      RowsBound(g, size, n - 1);
      LineBound(g[n - 1]);
      LineBound(ColumnOf(g, n - 1, size));
      assert n * size == (n - 1) * size + size;
    }
  }

  lemma {:induction false} SubsetSize<T>(a: set<T>, b: set<T>)
    requires a <= b
    ensures |a| <= |b|
  {
    assert b == a + (b - a);
  }

  lemma CellsBound(s: set<Cell>, size: nat)
    requires forall c | c in s :: Inside(c, size)
    ensures |s| <= size * size
  {
    var all := Prod(Range(0, size), Range(0, size));
    forall c: Cell | c in s ensures c in all { InProd(c, Range(0, size), Range(0, size)); }
    SubsetSize(s, all);
    RangeSize(0, size);
    ProdSize(Range(0, size), Range(0, size));
  }

  lemma ImbalanceBound(black: nat, total: nat)
    requires black <= total && total > 0
    ensures Imbalance(black, total) <= 10
  {
    hide Imbalance;
    var (d, k) := (Abs(black * 20 - total * 10), Imbalance(black, total));
    ImbalanceCeiling(black, total);
    if k > 10 { Monotone(10, k, total); }
  }

  lemma ImbalanceCeiling(black: nat, total: nat)
    requires total > 0
    ensures var d := Abs(black * 20 - total * 10);
            var k := Imbalance(black, total);
            if d == 0 then k == -1 else k * total < d
  {
    var d := Abs(black * 20 - total * 10);
    if d > 0 {
      Ceiling(d, total);
    } else {
      assert (total - 1) / total == 0;
    }
  }

  lemma Monotone(a: nat, b: nat, n: nat)
    requires a <= b
    ensures a * n <= b * n
  {
  }

  /** The least value LONG_MAX can have. */
  const LONG_MAX := 0x7FFF_FFFF

  lemma PenaltyFits(g: Grid, size: nat)
    requires Square(g, size) && 0 < size <= 177
    ensures PenaltyScore(g, size) < LONG_MAX
  {
    hide RowsPenalty, ColumnsPenalty, UniformBlock, Imbalance;
    RowsBound(g, size, size);
    CellsBound(UniformBlocks(g, size), size);
    CellsBound(BlackCells(g, size), size);
    var total := size * size;
    ImbalanceBound(|BlackCells(g, size)|, total);
    Monotone(size, 177, size);
  }
}
