/**
  Whole runs of the event store: any blocks with any hashes, restarts and day changes, against a history that knows no
  store, no file and no cut.
 */
module EventRuns {
  import opened Wrappers
  import opened Events

  /** What happens to the server: a block arrives, the server restarts, or the day is looked at. */
  datatype Step = Arrival(memorial: bool, height: nat, hash: string, timestamp: int) | Reload | Tick(today: string)

  function Next(st: Store, step: Step): Store {
    match step
    case Arrival(memorial, height, hash, timestamp) => Added(st, memorial, height, hash, timestamp)
    case Reload => Load(Save(st))
    case Tick(today) => Ticked(st, today)
  }

  /** The store after a run that starts without a file. */
  function Run(steps: seq<Step>): Store {
    if steps == [] then Load(NoFile) else Next(Run(steps[..|steps| - 1]), steps[|steps| - 1])
  }

  ghost function DateOf(steps: seq<Step>): Option<string> {
    if steps == [] then None
    else if steps[|steps| - 1].Tick? then Some(steps[|steps| - 1].today)
    else DateOf(steps[..|steps| - 1])
  }

  /** A block of the memorial day whose hash can be read. */
  ghost predicate Counts(step: Step) {
    step.Arrival? && step.memorial && VisualRank(step.hash).Some?
  }

  ghost function EventOf(step: Step): Event
    requires Counts(step)
  {
    Event(step.height, VisualRank(step.hash).value, step.hash, step.timestamp)
  }

  ghost function Heights(s: seq<Event>): set<nat> {
    set e | e in s :: e.height
  }

  lemma HeightsSnoc(s: seq<Event>, e: Event)
    ensures Heights(s + [e]) == Heights(s) + {e.height}
  {
    forall h | h in Heights(s) + {e.height} ensures h in Heights(s + [e]) {
      if h == e.height { assert e in s + [e]; }
      else {
        var x :| x in s && x.height == h;
        assert x in s + [e];
      }
    }
  }

  // ----- the history -----

  /** Every addition of the day in order, and the heights that are not added again. */
  datatype History = History(all: seq<Event>, known: set<nat>)

  ghost function NextHistory(h: History, date: Option<string>, step: Step): History {
    match step
    case Arrival(_, height, _, _) =>
      if !Counts(step) || height in h.known then h else History(h.all + [EventOf(step)], h.known + {height})
    case Reload => History(h.all, Heights(Top5(h.all)))
    case Tick(today) => if date == Some(today) then h else History([], {})
  }

  ghost function HistoryOf(steps: seq<Step>): History {
    if steps == [] then History([], {})
    else
      var init := steps[..|steps| - 1];
      NextHistory(HistoryOf(init), DateOf(init), steps[|steps| - 1])
  }

  // ----- what every history satisfies -----

  /** The later of two additions of one height came when the earlier one was out of the five best. */
  ghost predicate OutBefore(s: seq<Event>) {
    forall i, j | 0 <= i < j < |s| && s[i].height == s[j].height :: Beaters(s, i, |s|) >= 5
  }

  ghost predicate Sound(h: History) {
    && OutBefore(h.all)
    && (forall i | 0 <= i < |h.all| && Beaters(h.all, i, |h.all|) < 5 :: h.all[i].height in h.known)
    && h.known <= Heights(h.all)
    && forall i | 0 <= i < |h.all| :: VisualRank(h.all[i].hash) == Some(h.all[i].rank)
  }

  lemma SoundAdd(h: History, e: Event)
    requires Sound(h) && e.height !in h.known && VisualRank(e.hash) == Some(e.rank)
    ensures Sound(History(h.all + [e], h.known + {e.height}))
  {
    hide Beaters, VisualRank, Heights;
    var all := h.all + [e];
    HeightsSnoc(h.all, e);
    forall i | 0 <= i < |h.all| ensures Beaters(all, i, |all|) >= Beaters(h.all, i, |h.all|) {
      MoreBeaters(h.all, e, i);
    }
  }

  lemma SoundReload(h: History)
    requires Sound(h)
    ensures Sound(History(h.all, Heights(Top5(h.all))))
  {
    hide Beaters, VisualRank, Top5;
    var top := Top5(h.all);
    forall i | 0 <= i < |h.all| && Beaters(h.all, i, |h.all|) < 5 ensures h.all[i].height in Heights(top) {
      TopStanding(h.all, i);
      assert h.all[i] in top;
    }
    forall x | x in Heights(top) ensures x in Heights(h.all) {
      var e :| e in top && e.height == x;
      TopMembers(h.all, e);
    }
  }

  lemma {:induction false} HistorySound(steps: seq<Step>)
    ensures Sound(HistoryOf(steps))
  {
    hide Beaters, VisualRank, Top5, Sound;
    if steps == [] {
      SoundNothing();
    } else {
      var (init, last) := (steps[..|steps| - 1], steps[|steps| - 1]);
      HistorySound(init);
      var h := HistoryOf(init);
      SoundNothing();
      match last
      case Arrival(_, _, _, _) =>
        if Counts(last) && last.height !in h.known { SoundAdd(h, EventOf(last)); }
      case Reload => SoundReload(h);
      case Tick(_) =>
    }
  }

  lemma SoundNothing()
    ensures Sound(History([], {}))
  {
  }

  // ----- the store against the history -----

  /** The index of the last event with a height. */
  ghost function LatestIndex(s: seq<Event>, height: nat): (r: Option<nat>)
    ensures r.Some? ==> r.value < |s| && s[r.value].height == height
    ensures r.Some? ==> forall i | r.value < i < |s| :: s[i].height != height
    ensures r.None? ==> forall i | 0 <= i < |s| :: s[i].height != height
  {
    if s == [] then None
    else if s[|s| - 1].height == height then Some(|s| - 1)
    else LatestIndex(s[..|s| - 1], height)
  }

  /** The store remembers a height by the last event that was added with it. */
  ghost predicate Latest(s: seq<Event>, e: Event) {
    var j := LatestIndex(s, e.height);
    j.Some? && s[j.value] == e
  }

  ghost predicate Agrees(st: Store, h: History) {
    && st.events == Top5(h.all)
    && st.byHeight.Keys == h.known
    && st.total == |h.all|
    && forall x | x in st.byHeight :: st.byHeight[x].height == x && Latest(h.all, st.byHeight[x])
  }

  /** One of the five best is the last event added with its height, and stands where its beaters put it. */
  lemma TopLatest(s: seq<Event>, k: nat)
    requires OutBefore(s) && k < |Top5(s)|
    ensures var j := LatestIndex(s, Top5(s)[k].height);
            j.Some? && s[j.value] == Top5(s)[k] && Beaters(s, j.value, |s|) == k
  {
    hide Beaters, StableSort, LatestIndex;
    var i := Holder(s, k);
    TopStanding(s, i);
    var j := LatestIndex(s, s[i].height).value;
    assert i <= j;
  }

  lemma LatestSnoc(s: seq<Event>, e: Event, x: Event)
    requires Latest(s, x) && x.height != e.height
    ensures Latest(s + [e], x)
  {
    assert (s + [e])[..|s|] == s;
  }

  lemma AddAgrees(st: Store, h: History, step: Step)
    requires Agrees(st, h) && Counts(step) && step.height !in h.known
    ensures Agrees(Next(st, step), History(h.all + [EventOf(step)], h.known + {step.height}))
  {
    hide StableSort, VisualRank, Top5, Latest;
    var (e, next) := (EventOf(step), Next(st, step));
    OnlineStep(h.all, e);
    forall x | x in next.byHeight ensures Latest(h.all + [e], next.byHeight[x]) {
      if x == e.height { LatestLast(h.all, e); } else { LatestSnoc(h.all, e, st.byHeight[x]); }
    }
  }

  lemma LatestLast(s: seq<Event>, e: Event)
    ensures Latest(s + [e], e)
  {
  }

  lemma ReloadAgrees(st: Store, h: History)
    requires Agrees(st, h) && Sound(h)
    ensures Agrees(Load(Save(st)), History(h.all, Heights(Top5(h.all))))
  {
    hide Top5, ByHeight, Beaters, LatestIndex, VisualRank;
    var (events, next) := (st.events, Load(Save(st)));
    ByHeightMeaning(events);
    forall x | x in next.byHeight ensures Latest(h.all, next.byHeight[x]) && x in Heights(events) {
      var k :| 0 <= k < |events| && events[k] == next.byHeight[x];
      TopLatest(h.all, k);
    }
    assert next.byHeight.Keys == Heights(events);
  }

  lemma {:induction false} RunDate(steps: seq<Step>)
    ensures Run(steps).date == DateOf(steps)
  {
    hide StableSort, VisualRank, ByHeight;
    if steps != [] { RunDate(steps[..|steps| - 1]); }
  }

  /**
    After every run the events are the five best of all additions, the heights remembered are those of the history,
    each with the last event added for it, and the counter is the number of additions.
   */
  lemma {:induction false} RunAgrees(steps: seq<Step>)
    ensures Agrees(Run(steps), HistoryOf(steps))
  {
    hide StableSort, VisualRank, ByHeight, Agrees, Sound, Top5;
    NothingAgrees(None);
    if steps != [] {
      var (init, last) := (steps[..|steps| - 1], steps[|steps| - 1]);
      RunAgrees(init);
      HistorySound(init);
      RunDate(init);
      StepAgrees(Run(init), HistoryOf(init), last);
    }
  }

  lemma NothingAgrees(date: Option<string>)
    ensures Agrees(Store(date, [], map[], 0), History([], {}))
  {
  }

  lemma StepAgrees(st: Store, h: History, step: Step)
    requires Agrees(st, h) && Sound(h)
    ensures Agrees(Next(st, step), NextHistory(h, st.date, step))
  {
    hide StableSort, VisualRank, ByHeight, Top5, Sound, Latest, Heights;
    match step
    case Arrival(_, _, _, _) => if Counts(step) && step.height !in h.known { AddAgrees(st, h, step); }
    case Reload => ReloadAgrees(st, h);
    case Tick(today) => NothingAgrees(Some(today));
  }

  // ----- what is reported about a block -----

  /**
    After every run a height is reported if and only if the history knows it; then with the last event added for it, and
    as a visual event if and only if fewer than five additions beat that one, at the place their number gives.
   */
  lemma CheckAfterRun(steps: seq<Step>, height: nat)
    ensures var (h, r) := (HistoryOf(steps), Check(Run(steps), height));
            && (r.Known? <==> height in h.known)
            && (r.Known? ==>
                var j := LatestIndex(h.all, height);
                && j.Some? && r.hash == h.all[j.value].hash && r.rank == h.all[j.value].rank
                && var above := Beaters(h.all, j.value, |h.all|);
                   r.position == if above < 5 then Some(above + 1) else None)
  {
    hide StableSort, VisualRank, Run, HistoryOf, Beaters, Top5, LatestIndex, Heights;
    var (st, h) := (Run(steps), HistoryOf(steps));
    RunAgrees(steps);
    HistorySound(steps);
    if height in h.known {
      PlaceOfLatest(h.all, LatestIndex(h.all, height).value);
    }
  }

  /** The first place of a height among the five best is that of the last event added with it. */
  lemma PlaceOfLatest(s: seq<Event>, j: nat)
    requires OutBefore(s) && j < |s| && LatestIndex(s, s[j].height) == Some(j)
    ensures var above := Beaters(s, j, |s|);
            PositionOf(Top5(s), s[j].height) == if above < 5 then Some(above + 1) else None
  {
    hide StableSort, Beaters, Top5, LatestIndex, PositionOf;
    var (top, above) := (Top5(s), Beaters(s, j, |s|));
    forall k | 0 <= k < |top| && top[k].height == s[j].height ensures k == above && above < 5 {
      TopLatest(s, k);
      TopLength(s);
    }
    if above < 5 { TopStanding(s, j); }
  }

  lemma TopLength(s: seq<Event>)
    ensures |Top5(s)| == if |s| <= 5 then |s| else 5
  {
    hide StableSort;
  }

  // ----- the blocks of the day, each once -----

  ghost function NextFirsts(first: seq<Event>, date: Option<string>, step: Step): seq<Event> {
    match step
    case Arrival(_, height, _, _) =>
      if !Counts(step) || height in Heights(first) then first else first + [EventOf(step)]
    case Reload => first
    case Tick(today) => if date == Some(today) then first else []
  }

  /** The first arrival of every height of the day, in order. */
  ghost function FirstArrivals(steps: seq<Step>): seq<Event> {
    if steps == [] then []
    else
      var init := steps[..|steps| - 1];
      NextFirsts(FirstArrivals(init), DateOf(init), steps[|steps| - 1])
  }

  /** The events whose height did not occur before. */
  ghost function Firsts(s: seq<Event>): seq<Event> {
    if s == [] then []
    else
      var (init, e) := (s[..|s| - 1], s[|s| - 1]);
      if e.height in Heights(init) then Firsts(init) else Firsts(init) + [e]
  }

  lemma FirstsSnoc(s: seq<Event>, e: Event)
    ensures Firsts(s + [e]) == if e.height in Heights(s) then Firsts(s) else Firsts(s) + [e]
  {
    hide Heights;
    assert (s + [e])[..|s|] == s;
  }

  lemma {:induction false} FirstsHeights(s: seq<Event>)
    ensures Heights(Firsts(s)) == Heights(s)
  {
    hide Heights;
    if s == [] {
      assert Firsts(s) == s;
    } else {
      var (init, e) := (s[..|s| - 1], s[|s| - 1]);
      FirstsHeights(init);
      HeightsSnoc(init, e);
      HeightsSnoc(Firsts(init), e);
      assert s == init + [e];
    }
  }

  lemma FirstsStep(h: History, date: Option<string>, step: Step)
    requires Sound(h)
    ensures NextFirsts(Firsts(h.all), date, step) == Firsts(NextHistory(h, date, step).all)
  {
    hide VisualRank, Heights, Top5, Beaters, Firsts;
    FirstsHeights(h.all);
    NoFirsts([]);
    if Counts(step) { FirstsSnoc(h.all, EventOf(step)); }
  }

  /** The first arrivals are the additions of new heights. */
  lemma {:induction false} FirstsOfHistory(steps: seq<Step>)
    ensures FirstArrivals(steps) == Firsts(HistoryOf(steps).all)
  {
    hide Firsts, NextFirsts, NextHistory, Sound;
    if steps == [] {
      NoFirsts([]);
    } else {
      var init := steps[..|steps| - 1];
      FirstsOfHistory(init);
      HistorySound(init);
      FirstsStep(HistoryOf(init), DateOf(init), steps[|steps| - 1]);
    }
  }

  /** Where the current day starts in a run. */
  ghost function DayStart(steps: seq<Step>): (k: nat)
    ensures k <= |steps|
  {
    if steps == [] then 0
    else
      var (init, last) := (steps[..|steps| - 1], steps[|steps| - 1]);
      if last.Tick? && DateOf(init) != Some(last.today) then |steps| else DayStart(init)
  }

  /** Without a restart every addition is a first arrival, whatever the hashes. */
  lemma {:induction false} WithoutReload(steps: seq<Step>)
    requires forall k | DayStart(steps) <= k < |steps| :: !steps[k].Reload?
    ensures HistoryOf(steps).all == FirstArrivals(steps)
    ensures HistoryOf(steps).known == Heights(FirstArrivals(steps))
  {
    hide VisualRank, Heights, Top5;
    if steps == [] {
      NoHeights();
    } else {
      var (init, last) := (steps[..|steps| - 1], steps[|steps| - 1]);
      NoHeights();
      if DayStart(steps) < |steps| {
        WithoutReload(init);
        if Counts(last) { HeightsSnoc(FirstArrivals(init), EventOf(last)); }
      }
    }
  }

  /** So the store then holds the five best first arrivals, their heights and their number. */
  lemma RunWithoutReload(steps: seq<Step>)
    requires forall k | DayStart(steps) <= k < |steps| :: !steps[k].Reload?
    ensures Run(steps).events == Top5(FirstArrivals(steps))
    ensures Run(steps).byHeight.Keys == Heights(FirstArrivals(steps))
    ensures Run(steps).total == |FirstArrivals(steps)|
  {
    hide Run, HistoryOf, FirstArrivals, Top5, Heights, Latest;
    RunAgrees(steps);
    WithoutReload(steps);
  }

  lemma NoHeights()
    ensures Heights([]) == {}
  {
  }

  // ----- heights that are added again -----

  /** A block of this height was read since the last restart, or since the day began. */
  ghost predicate ArrivedSince(steps: seq<Step>, height: nat) {
    steps != [] &&
    var (init, last) := (steps[..|steps| - 1], steps[|steps| - 1]);
    match last
    case Arrival(_, _, _, _) => (Counts(last) && last.height == height) || ArrivedSince(init, height)
    case Reload => false
    case Tick(today) => DateOf(init) == Some(today) && ArrivedSince(init, height)
  }

  /** The five best at the last restart of the day. */
  ghost function BestAtRestart(steps: seq<Step>): seq<Event> {
    if steps == [] then []
    else
      var (init, last) := (steps[..|steps| - 1], steps[|steps| - 1]);
      match last
      case Arrival(_, _, _, _) => BestAtRestart(init)
      case Reload => Top5(HistoryOf(init).all)
      case Tick(today) => if DateOf(init) == Some(today) then BestAtRestart(init) else []
  }

  /** What is remembered: the blocks read since the last restart, and the five best at that restart. */
  lemma {:induction false} KnownExactly(steps: seq<Step>, height: nat)
    ensures height in Run(steps).byHeight <==> height in HistoryOf(steps).known
    ensures height in HistoryOf(steps).known <==> ArrivedSince(steps, height) || height in Heights(BestAtRestart(steps))
  {
    hide VisualRank, Heights, Top5, Run, StableSort, Latest;
    RunAgrees(steps);
    NoHeights();
    if steps != [] { KnownExactly(steps[..|steps| - 1], height); }
  }

  /** A height of the day that was not read since the last restart and was not among the five best then. */
  ghost predicate Readmitted(steps: seq<Step>, step: Step) {
    && Counts(step) && step.height in Heights(FirstArrivals(steps))
    && !ArrivedSince(steps, step.height) && step.height !in Heights(BestAtRestart(steps))
  }

  /** How often that happened today. */
  ghost function Readmissions(steps: seq<Step>): nat {
    if steps == [] then 0
    else
      var (init, last) := (steps[..|steps| - 1], steps[|steps| - 1]);
      if last.Tick? && DateOf(init) != Some(last.today) then 0
      else Readmissions(init) + if Readmitted(init, last) then 1 else 0
  }

  lemma {:induction false} ReadmissionsCounted(steps: seq<Step>)
    ensures |HistoryOf(steps).all| == |FirstArrivals(steps)| + Readmissions(steps)
  {
    hide VisualRank, Heights, Top5, ArrivedSince, BestAtRestart, Run, Beaters;
    if steps != [] {
      var (init, last) := (steps[..|steps| - 1], steps[|steps| - 1]);
      ReadmissionsCounted(init);
      if last.Arrival? {
        HistorySound(init);
        FirstsOfHistory(init);
        FirstsHeights(HistoryOf(init).all);
        KnownExactly(init, last.height);
      }
    }
  }

  lemma {:induction false} ReadmissionsNone(steps: seq<Step>)
    ensures Readmissions(steps) == 0 <==> forall k | DayStart(steps) <= k < |steps| :: !Readmitted(steps[..k], steps[k])
  {
    hide Readmitted, DateOf;
    if steps != [] {
      var n := |steps| - 1;
      var init := steps[..n];
      ReadmissionsNone(init);
      assert forall k | 0 <= k < n :: init[..k] == steps[..k] && init[k] == steps[k];
    }
  }

  /**
    The counter exceeds the number of blocks of the day by the number of readmissions, so it is right if and only if
    there was none since the day began.
   */
  lemma TotalExactly(steps: seq<Step>)
    ensures Run(steps).total == |FirstArrivals(steps)| + Readmissions(steps)
    ensures Run(steps).total == |FirstArrivals(steps)| <==>
            forall k | DayStart(steps) <= k < |steps| :: !Readmitted(steps[..k], steps[k])
  {
    hide Readmitted, Run, HistoryOf, FirstArrivals, Readmissions, Latest, Top5;
    RunAgrees(steps);
    ReadmissionsCounted(steps);
    ReadmissionsNone(steps);
  }

  lemma RunSnoc(steps: seq<Step>, step: Step)
    ensures Run(steps + [step]) == Next(Run(steps), step)
    ensures HistoryOf(steps + [step]) == NextHistory(HistoryOf(steps), DateOf(steps), step)
    ensures FirstArrivals(steps + [step]) == NextFirsts(FirstArrivals(steps), DateOf(steps), step)
  {
    hide Next, NextHistory, NextFirsts;
    assert (steps + [step])[..|steps|] == steps;
  }

  /** After a restart every height outside the five best is counted once more, with whatever hash it arrives. */
  lemma ReloadMiscounts(steps: seq<Step>, step: Step)
    requires Counts(step) && step.height in Heights(FirstArrivals(steps)) && step.height !in Heights(Run(steps).events)
    ensures var again := steps + [Reload] + [step];
            FirstArrivals(again) == FirstArrivals(steps) && Run(again).total == Run(steps).total + 1
  {
    hide StableSort, VisualRank, ByHeight, Top5, Latest, Heights;
    RunAgrees(steps);
    RunAgrees(steps + [Reload]);
    RunSnoc(steps, Reload);
    RunSnoc(steps + [Reload], step);
  }

  // ----- when the events are the five best of the first arrivals -----

  ghost predicate Repeated(s: seq<Event>, j: nat)
    requires j < |s|
  {
    s[j].height in Heights(s[..j])
  }

  lemma {:induction false} FirstsPrefix(s: seq<Event>, n: nat)
    requires n <= |s|
    ensures Firsts(s[..n]) <= Firsts(s)
  {
    hide Heights;
    if n < |s| {
      FirstsPrefix(s[..|s| - 1], n);
      assert s[..|s| - 1][..n] == s[..n];
    } else {
      assert s[..n] == s;
    }
  }

  lemma FirstsGrow(s: seq<Event>, n: nat)
    requires n < |s|
    ensures Firsts(s[..n + 1]) == if Repeated(s, n) then Firsts(s[..n]) else Firsts(s[..n]) + [s[n]]
  {
    hide Heights, Firsts;
    FirstsSnoc(s[..n], s[n]);
    assert s[..n + 1] == s[..n] + [s[n]];
  }

  /** Where a first arrival stands among the first arrivals. */
  lemma FirstAt(s: seq<Event>, j: nat)
    requires j < |s| && !Repeated(s, j)
    ensures |Firsts(s[..j])| < |Firsts(s)| && Firsts(s)[|Firsts(s[..j])|] == s[j]
  {
    hide Firsts, Repeated;
    FirstsGrow(s, j);
    FirstsPrefix(s, j + 1);
  }

  lemma FirstsOrder(s: seq<Event>, i: nat, j: nat)
    requires i < j < |s| && !Repeated(s, i)
    ensures |Firsts(s[..i])| < |Firsts(s[..j])|
  {
    hide Firsts, Repeated;
    FirstsGrow(s, i);
    FirstsPrefix(s[..j], i + 1);
    assert s[..j][..i + 1] == s[..i + 1];
  }

  /** The beaters of event j that are first arrivals. */
  ghost function FirstBeaters(s: seq<Event>, j: nat, n: nat): nat
    requires j < |s| && n <= |s|
  {
    if n == 0 then 0
    else FirstBeaters(s, j, n - 1) + if Beats(s, n - 1, j) && !Repeated(s, n - 1) then 1 else 0
  }

  lemma {:induction false} FirstBeatersMeaning(s: seq<Event>, j: nat, n: nat)
    requires j < |s| && n <= |s| && !Repeated(s, j)
    ensures |Firsts(s[..j])| < |Firsts(s)| && |Firsts(s[..n])| <= |Firsts(s)|
    ensures Beaters(Firsts(s), |Firsts(s[..j])|, |Firsts(s[..n])|) == FirstBeaters(s, j, n)
  {
    hide Firsts, Repeated;
    FirstAt(s, j);
    FirstsPrefix(s, n);
    if n > 0 {
      FirstBeatersMeaning(s, j, n - 1);
      FirstsGrow(s, n - 1);
      if !Repeated(s, n - 1) {
        FirstAt(s, n - 1);
        if n - 1 < j { FirstsOrder(s, n - 1, j); } else if j < n - 1 { FirstsOrder(s, j, n - 1); }
      }
    } else {
      NoFirsts(s);
    }
  }

  lemma NoFirsts(s: seq<Event>)
    ensures Firsts(s[..0]) == []
  {
  }

  /** No repeated height is among the five best. */
  ghost predicate RepeatsLow(s: seq<Event>) {
    forall j | 0 <= j < |s| && Repeated(s, j) :: Beaters(s, j, |s|) >= 5
  }

  lemma {:induction false} BeatersFirst(s: seq<Event>, j: nat, n: nat)
    requires j < |s| && n <= |s| && RepeatsLow(s) && Beaters(s, j, |s|) < 5
    ensures FirstBeaters(s, j, n) == Beaters(s, j, n)
  {
    hide Repeated;
    if n > 0 {
      BeatersFirst(s, j, n - 1);
      if Beats(s, n - 1, j) { FewerBeaters(s, n - 1, j, |s|); }
    }
  }

  lemma TopIsFirst(s: seq<Event>, k: nat)
    requires RepeatsLow(s) && k < |Top5(s)|
    ensures k < |Firsts(s)| && StableSort(Firsts(s))[k] == Top5(s)[k]
  {
    hide Repeated, Firsts, StableSort, Beaters, FirstBeaters;
    var j := Holder(s, k);
    TopStanding(s, j);
    BeatersFirst(s, j, |s|);
    FirstBeatersMeaning(s, j, |s|);
    FirstAt(s, j);
    assert s[..|s|] == s;
    Standing(Firsts(s), |Firsts(s[..j])|);
  }

  lemma {:induction false} FirstsShorter(s: seq<Event>)
    ensures |Firsts(s)| <= |s|
  {
    hide Heights;
    if s != [] { FirstsShorter(s[..|s| - 1]); }
  }

  lemma TopOfFirsts(s: seq<Event>)
    requires RepeatsLow(s)
    ensures Top5(s) == Top5(Firsts(s))
  {
    hide RepeatsLow, Firsts, StableSort;
    FirstsShorter(s);
    forall k | 0 <= k < |Top5(s)| ensures k < |Firsts(s)| && StableSort(Firsts(s))[k] == Top5(s)[k] {
      TopIsFirst(s, k);
    }
    if s != [] { TopIsFirst(s, |Top5(s)| - 1); }
  }

  lemma {:induction false} FirstsMember(s: seq<Event>, x: Event) returns (i: nat)
    requires x in Firsts(s)
    ensures i < |s| && s[i] == x && !Repeated(s, i)
  {
    hide Heights;
    var n := |s| - 1;
    if x in Firsts(s[..n]) {
      i := FirstsMember(s[..n], x);
      assert s[..n][..i] == s[..i];
    } else {
      i := n;
    }
  }

  lemma RepeatAfter(s: seq<Event>, i: nat, j: nat)
    requires i < j < |s| && s[i].height == s[j].height
    ensures Repeated(s, j)
  {
    assert s[..j][i] in s[..j];
  }

  /** A repeated height among the five best cannot be mistaken for its first arrival. */
  lemma RepeatShows(s: seq<Event>, j: nat)
    requires OutBefore(s) && j < |s| && Repeated(s, j) && Beaters(s, j, |s|) < 5
    ensures Top5(s) != Top5(Firsts(s))
  {
    hide Repeated, Firsts, StableSort, Beaters, Top5;
    if Top5(s) == Top5(Firsts(s)) {
      TopStanding(s, j);
      TopMembers(Firsts(s), s[j]);
      var i := FirstsMember(s, s[j]);
      if j < i { RepeatAfter(s, j, i); }
      FewerBeaters(s, i, j, |s|);
      assert false;
    }
  }

  /**
    After every run the events are the five best of the first arrivals if and only if no height that was added again is
    among the five best of all additions.
   */
  lemma EventsExactly(steps: seq<Step>)
    ensures Run(steps).events == Top5(FirstArrivals(steps)) <==> RepeatsLow(HistoryOf(steps).all)
  {
    hide Repeated, Firsts, StableSort, Beaters, Top5, Run, HistoryOf, FirstArrivals, VisualRank, Latest, Heights;
    var all := HistoryOf(steps).all;
    RunAgrees(steps);
    HistorySound(steps);
    FirstsOfHistory(steps);
    if RepeatsLow(all) {
      TopOfFirsts(all);
    } else {
      var j :| 0 <= j < |all| && Repeated(all, j) && Beaters(all, j, |all|) < 5;
      RepeatShows(all, j);
    }
  }

  /** A sixth event leaves the five best alone if and only if it ranks no higher than the fifth. */
  lemma SixthExactly(s: seq<Event>, e: Event)
    requires |s| >= 5
    ensures |Top5(s)| == 5 && (Top5(s + [e]) == Top5(s) <==> e.rank <= Top5(s)[4].rank)
  {
    hide StableSort, Insert, AtLeast;
    var top := Top5(s);
    SortMeaning(s, 0);
    OnlineStep(s, e);
    SortSnoc(top, e);
    SortSorted(top);
    if e.rank <= top[4].rank {
      InsertLast(top, e);
    } else {
      InsertPlace(top, e);
      AtLeastIndex(top, e.rank, 4);
      if AtLeast(top, e.rank) < 5 { AtLeastIndex(top, e.rank, AtLeast(top, e.rank)); }
    }
  }

  /** A height that is not remembered has five additions before it. */
  lemma ForgottenMany(h: History, height: nat)
    requires Sound(h) && height in Heights(h.all) && height !in h.known
    ensures |h.all| >= 5
  {
    hide Beaters, VisualRank, StableSort;
    var e :| e in h.all && e.height == height;
    var i :| 0 <= i < |h.all| && h.all[i] == e;
    Standing(h.all, i);
  }

  lemma ReadmittedAdds(steps: seq<Step>, step: Step)
    requires Readmitted(steps, step)
    ensures |HistoryOf(steps).all| >= 5
    ensures HistoryOf(steps + [step]).all == HistoryOf(steps).all + [EventOf(step)]
    ensures FirstArrivals(steps + [step]) == FirstArrivals(steps)
  {
    hide VisualRank, Heights, Top5, ArrivedSince, BestAtRestart, Run, HistoryOf, FirstArrivals, Sound;
    HistorySound(steps);
    FirstsOfHistory(steps);
    FirstsHeights(HistoryOf(steps).all);
    KnownExactly(steps, step.height);
    ForgottenMany(HistoryOf(steps), step.height);
    RunSnoc(steps, step);
  }

  /**
    A readmission keeps the events those of the first arrivals if and only if it ranks no higher than the fifth then.
   */
  lemma ReadmissionExactly(steps: seq<Step>, step: Step)
    requires Readmitted(steps, step) && Run(steps).events == Top5(FirstArrivals(steps))
    ensures |Run(steps).events| == 5
    ensures Run(steps + [step]).events == Top5(FirstArrivals(steps + [step])) <==>
            EventOf(step).rank <= Run(steps).events[4].rank
  {
    hide VisualRank, Top5, ArrivedSince, BestAtRestart, Heights, Run, HistoryOf, FirstArrivals, Latest;
    RunAgrees(steps);
    RunAgrees(steps + [step]);
    ReadmittedAdds(steps, step);
    SixthExactly(HistoryOf(steps).all, EventOf(step));
  }

  ghost predicate RanksLow(st: Store, step: Step) {
    Counts(step) && |st.events| == 5 && EventOf(step).rank <= st.events[4].rank
  }

  /** So it is enough that every readmission of the day ranks no higher than the fifth event then. */
  lemma {:induction false} LowReadmissions(steps: seq<Step>)
    requires forall k | DayStart(steps) <= k < |steps| && Readmitted(steps[..k], steps[k]) ::
             RanksLow(Run(steps[..k]), steps[k])
    ensures Run(steps).events == Top5(FirstArrivals(steps))
  {
    hide VisualRank, Top5, Readmitted, RanksLow, Run, DateOf, FirstArrivals;
    if steps == [] {
      NothingRun();
    } else {
      var n := |steps| - 1;
      var (init, last) := (steps[..n], steps[n]);
      assert steps == init + [last];
      if DayStart(steps) == |steps| && last.Tick? && DateOf(init) != Some(last.today) {
        NewDay(init, last);
      } else {
        assert forall k | 0 <= k < n :: init[..k] == steps[..k] && init[k] == steps[k];
        LowReadmissions(init);
        assert Readmitted(steps[..n], steps[n]) ==> RanksLow(Run(steps[..n]), steps[n]);
        KeepsFirsts(init, last);
      }
    }
  }

  lemma NothingRun()
    ensures Run([]).events == Top5(FirstArrivals([]))
  {
  }

  lemma NewDay(steps: seq<Step>, step: Step)
    requires step.Tick? && DateOf(steps) != Some(step.today)
    ensures Run(steps + [step]).events == Top5(FirstArrivals(steps + [step]))
  {
    hide Run, FirstArrivals;
    RunSnoc(steps, step);
    RunDate(steps);
  }

  lemma KeepsFirsts(steps: seq<Step>, step: Step)
    requires Run(steps).events == Top5(FirstArrivals(steps))
    requires step.Tick? ==> DateOf(steps) == Some(step.today)
    requires Readmitted(steps, step) ==> RanksLow(Run(steps), step)
    ensures Run(steps + [step]).events == Top5(FirstArrivals(steps + [step]))
  {
    hide VisualRank, Top5, StableSort, Run, HistoryOf, FirstArrivals, ArrivedSince, BestAtRestart, Heights, Latest;
    hide Beaters;
    if Readmitted(steps, step) {
      ReadmissionExactly(steps, step);
    } else {
      RunSnoc(steps, step);
      RunDate(steps);
      RunAgrees(steps);
      HistorySound(steps);
      FirstsOfHistory(steps);
      FirstsHeights(HistoryOf(steps).all);
      if Counts(step) {
        KnownExactly(steps, step.height);
        OnlineStep(FirstArrivals(steps), EventOf(step));
      }
    }
  }

  /** After every run, restarting and receiving any block that was added before, with its hash, changes no event. */
  lemma ReAddUnchanged(steps: seq<Step>, i: nat, memorial: bool, timestamp: int)
    requires i < |HistoryOf(steps).all|
    ensures var e := HistoryOf(steps).all[i];
            Run(steps + [Reload] + [Arrival(memorial, e.height, e.hash, timestamp)]).events == Run(steps).events
  {
    hide VisualRank, Top5, StableSort, Run, HistoryOf, Beaters, Latest;
    var h := HistoryOf(steps);
    var step := Arrival(memorial, h.all[i].height, h.all[i].hash, timestamp);
    RunAgrees(steps);
    RunAgrees(steps + [Reload]);
    RunAgrees(steps + [Reload] + [step]);
    RunSnoc(steps, Reload);
    RunSnoc(steps + [Reload], step);
    HistorySound(steps);
    if Counts(step) && h.all[i].height !in Heights(Top5(h.all)) {
      OnlineStep(h.all, EventOf(step));
      PushedOut(h.all, h.all[i], EventOf(step));
    }
  }

  // ----- which hash is reported -----

  /** The hash of the last event added with a height, if it is remembered. */
  ghost function Reported(h: History, height: nat): Option<string> {
    var j := LatestIndex(h.all, height);
    if height in h.known && j.Some? then Some(h.all[j.value].hash) else None
  }

  lemma ReportedCheck(steps: seq<Step>, height: nat)
    ensures var r := Check(Run(steps), height);
            Reported(HistoryOf(steps), height) == if r.Known? then Some(r.hash) else None
  {
    hide Run, HistoryOf, Beaters, LatestIndex;
    CheckAfterRun(steps, height);
  }

  /** A block's hash is taken over: it is added, or it is the one that is remembered. */
  ghost predicate Carried(h: History, step: Step)
    requires step.Arrival? && step.memorial
  {
    if step.height in h.known then Reported(h, step.height) == Some(step.hash) else Counts(step)
  }

  /** After a block arrives its hash is reported if and only if it was taken over: an earlier hash is never replaced. */
  lemma ArrivalReported(h: History, date: Option<string>, step: Step)
    requires step.Arrival? && step.memorial
    ensures Reported(NextHistory(h, date, step), step.height) == Some(step.hash) <==> Carried(h, step)
  {
    hide VisualRank;
  }

  lemma TopKnown(h: History)
    requires Sound(h)
    ensures Heights(Top5(h.all)) <= h.known
  {
    hide Beaters, VisualRank, Top5, StableSort;
    var top := Top5(h.all);
    forall x | x in Heights(top) ensures x in h.known {
      var e :| e in top && e.height == x;
      var k :| 0 <= k < |top| && top[k] == e;
      TopLength(h.all);
      var i := Holder(h.all, k);
      TopStanding(h.all, i);
    }
  }

  /** Steps that bring no block of a height leave its reported hash alone, as long as it is remembered. */
  lemma ReportKept(h: History, date: Option<string>, step: Step, height: nat)
    requires Sound(h) && (step.Arrival? && step.memorial ==> step.height != height)
    requires step.Tick? ==> date == Some(step.today)
    requires height in NextHistory(h, date, step).known
    ensures height in h.known && Reported(NextHistory(h, date, step), height) == Reported(h, height)
  {
    hide VisualRank, Top5, Sound, Heights;
    if step.Reload? { TopKnown(h); }
    if Counts(step) { assert (h.all + [EventOf(step)])[..|h.all|] == h.all; }
  }

  lemma {:induction false} ReportedExactly(steps: seq<Step>, i: nat)
    requires DayStart(steps) <= i < |steps| && steps[i].Arrival? && steps[i].memorial
    requires forall k | i < k < |steps| && steps[k].Arrival? && steps[k].memorial :: steps[k].height != steps[i].height
    requires steps[i].height in HistoryOf(steps).known
    ensures Reported(HistoryOf(steps), steps[i].height) == Some(steps[i].hash) <==>
            Carried(HistoryOf(steps[..i]), steps[i])
  {
    hide VisualRank, Top5, Sound, Reported, Carried, NextHistory;
    var n := |steps| - 1;
    var (init, last) := (steps[..n], steps[n]);
    if i == n {
      ArrivalReported(HistoryOf(init), DateOf(init), last);
    } else {
      HistorySound(init);
      ReportKept(HistoryOf(init), DateOf(init), last, steps[i].height);
      ReportedExactly(init, i);
      assert init[..i] == steps[..i];
    }
  }

  /**
    The hash that is reported is the one that arrived last if and only if that arrival was taken over: the height was
    not remembered and the hash could be read, or it was the hash remembered already.
   */
  lemma LatestReported(steps: seq<Step>, i: nat)
    requires DayStart(steps) <= i < |steps| && steps[i].Arrival? && steps[i].memorial
    requires forall k | i < k < |steps| && steps[k].Arrival? && steps[k].memorial :: steps[k].height != steps[i].height
    ensures var r := Check(Run(steps), steps[i].height);
            && (r.Known? <==> steps[i].height in HistoryOf(steps).known)
            && (r.Known? ==> (r.hash == steps[i].hash <==> Carried(HistoryOf(steps[..i]), steps[i])))
  {
    hide Run, HistoryOf, Beaters, LatestIndex, Carried, Reported;
    var height := steps[i].height;
    CheckAfterRun(steps, height);
    ReportedCheck(steps, height);
    if height in HistoryOf(steps).known { ReportedExactly(steps, i); }
  }

  /** Two blocks of one height: the store keeps the first and goes on reporting its hash. */
  lemma StaleHash(height: nat, timestamp: int, later: int)
    ensures var r := Check(Run([Arrival(true, height, "1", timestamp), Arrival(true, height, "2", later)]), height);
            r.Known? && r.hash == "1"
  {
    var (a, b) := (Arrival(true, height, "1", timestamp), Arrival(true, height, "2", later));
    assert Take("1", 16) == "1" && HexValue("1") == Some(1);
    hide StableSort, VisualRank;
    RunSnoc([], a);
    RunSnoc([a], b);
    assert [] + [a] == [a] && [a] + [b] == [a, b];
  }

  // ----- a chain that does not change -----

  ghost predicate OnChain(steps: seq<Step>, chain: nat -> string) {
    forall k | 0 <= k < |steps| && steps[k].Arrival? :: steps[k].hash == chain(steps[k].height)
  }

  lemma {:induction false} ChainHistory(steps: seq<Step>, chain: nat -> string, i: nat)
    requires OnChain(steps, chain) && i < |HistoryOf(steps).all|
    ensures HistoryOf(steps).all[i].hash == chain(HistoryOf(steps).all[i].height)
  {
    hide VisualRank, Top5;
    var init := steps[..|steps| - 1];
    if i < |HistoryOf(init).all| { ChainHistory(init, chain, i); }
  }

  /** When every height keeps its hash, the events are always the five best of the first arrivals. */
  lemma ChainEvents(steps: seq<Step>, chain: nat -> string)
    requires OnChain(steps, chain)
    ensures Run(steps).events == Top5(FirstArrivals(steps))
  {
    hide VisualRank, Top5, StableSort, Beaters, HistoryOf, Run, FirstArrivals, OnChain;
    var all := HistoryOf(steps).all;
    HistorySound(steps);
    forall j | 0 <= j < |all| && Repeated(all, j) ensures Beaters(all, j, |all|) >= 5 {
      var e :| e in all[..j] && e.height == all[j].height;
      var i :| 0 <= i < j && all[i] == e;
      ChainHistory(steps, chain, i);
      ChainHistory(steps, chain, j);
      FewerBeaters(all, i, j, |all|);
    }
    EventsExactly(steps);
  }

  lemma {:induction false} FirstsDistinct(s: seq<Event>, i: nat, j: nat)
    requires i < j < |Firsts(s)|
    ensures Firsts(s)[i].height != Firsts(s)[j].height
  {
    hide Heights;
    var init := s[..|s| - 1];
    if j < |Firsts(init)| {
      FirstsDistinct(init, i, j);
    } else {
      FirstsHeights(init);
      InHeights(Firsts(init), i);
    }
  }

  lemma InHeights(s: seq<Event>, i: nat)
    requires i < |s|
    ensures s[i].height in Heights(s)
  {
  }

  /** Then a block is reported with its hash, and as an event exactly when fewer than five blocks of the day beat it. */
  lemma ChainCheck(steps: seq<Step>, chain: nat -> string, j: nat)
    requires OnChain(steps, chain) && j < |FirstArrivals(steps)|
    ensures var first := FirstArrivals(steps);
            var (above, r) := (Beaters(first, j, |first|), Check(Run(steps), first[j].height));
            && (r.Known? <==> first[j].height in HistoryOf(steps).known)
            && (above < 5 ==> r.Known?)
            && (r.Known? ==> r.hash == chain(first[j].height))
            && (r.Known? ==> r.position == if above < 5 then Some(above + 1) else None)
  {
    hide VisualRank, Top5, StableSort, Beaters, HistoryOf, Run, FirstArrivals, OnChain, LatestIndex, Sound, Heights;
    hide Latest;
    var (first, h) := (FirstArrivals(steps), HistoryOf(steps));
    FirstsOfHistory(steps);
    forall i, k | 0 <= i < k < |first| ensures first[i].height != first[k].height { FirstsDistinct(h.all, i, k); }
    ChainEvents(steps, chain);
    PlaceOfLatest(first, j);
    CheckAfterRun(steps, first[j].height);
    RunAgrees(steps);
    HistorySound(steps);
    TopKnown(h);
    if Beaters(first, j, |first|) < 5 {
      TopStanding(first, j);
      InHeights(Top5(first), Beaters(first, j, |first|));
    }
    if first[j].height in h.known { ChainHistory(steps, chain, LatestIndex(h.all, first[j].height).value); }
  }
}
