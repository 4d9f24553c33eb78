/** The event store of the block explorer: an online list of the five best blocks of the memorial day. */
module Events {
  import opened Wrappers

  datatype Event = Event(height: nat, rank: nat, hash: string, timestamp: int)

  // ----- the visual rank -----

  function Digit(c: char): (r: Option<nat>)
    ensures r.Some? ==> r.value < 16
  {
    if '0' <= c <= '9' then Some((c - '0') as nat)
    else if 'a' <= c <= 'f' then Some((c - 'a') as nat + 10)
    else if 'A' <= c <= 'F' then Some((c - 'A') as nat + 10)
    else None
  }

  /** The value of a run of hexadecimal digits; None for anything else. */
  function HexValue(s: string): Option<nat> {
    if s == [] then None
    else
      var d :- Digit(s[|s| - 1]);
      if |s| == 1 then Some(d) else
      var high :- HexValue(s[..|s| - 1]);
      Some(16 * high + d)
  }

  /**
    The rank of a block: the number its first sixteen hash digits stand for, modulo 100; None when they are not
    digits.
   */
  function VisualRank(hash: string): (r: Option<nat>)
    ensures r.Some? ==> r.value < 100
  {
    var h :- HexValue(Take(hash, 16));
    Some(h % 100)
  }

  function HexDigit(d: nat): char
    requires d < 16
  {
    "0123456789abcdef"[d]
  }

  /** n as len hexadecimal digits. */
  function Hex(n: nat, len: nat): (s: string)
    ensures |s| == len
  {
    if len == 0 then [] else Hex(n / 16, len - 1) + [HexDigit(n % 16)]
  }

  function Pow16(k: nat): nat {
    if k == 0 then 1 else 16 * Pow16(k - 1)
  }

  lemma {:induction false} HexRoundTrip(n: nat, len: nat)
    requires len > 0 && n < Pow16(len)
    ensures HexValue(Hex(n, len)) == Some(n)
  {
    hide Digit, HexDigit;
    DigitRead(n % 16);
    if len > 1 {
      HexRoundTrip(n / 16, len - 1);
      assert Hex(n, len)[..len - 1] == Hex(n / 16, len - 1);
    } else {
      assert Pow16(1) == 16;
    }
  }

  lemma DigitRead(d: nat)
    requires d < 16
    ensures Digit(HexDigit(d)) == Some(d)
  {
  }

  /** Capital letters are digits as well. */
  lemma CapitalDigits(d: nat)
    requires 10 <= d < 16
    ensures Digit("ABCDEF"[d - 10]) == Some(d) && Digit("abcdef"[d - 10]) == Some(d)
  {
  }

  /** A hash that starts with a number in sixteen digits has that number, modulo 100, as its rank. */
  lemma RankOfHash(n: nat, tail: string)
    requires n < Pow16(16)
    ensures VisualRank(Hex(n, 16) + tail) == Some(n % 100)
  {
    hide HexValue, Hex, Pow16;
    HexRoundTrip(n, 16);
    assert Take(Hex(n, 16) + tail, 16) == Hex(n, 16);
  }

  // ----- the stable sort -----

  function Take<T>(s: seq<T>, n: nat): (r: seq<T>)
    ensures |r| == if |s| <= n then |s| else n
    ensures forall i | 0 <= i < |r| :: r[i] == s[i]
  {
    if |s| <= n then s else s[..n]
  }

  /** e goes behind everything that ranks at least as high. */
  function Insert(s: seq<Event>, e: Event): (r: seq<Event>)
    ensures |r| == |s| + 1
  {
    if s == [] || s[0].rank < e.rank then [e] + s else [s[0]] + Insert(s[1..], e)
  }

  function StableSort(s: seq<Event>): (r: seq<Event>)
    ensures |r| == |s|
  {
    if s == [] then [] else Insert(StableSort(s[..|s| - 1]), s[|s| - 1])
  }

  ghost predicate Descending(s: seq<Event>) {
    forall i, j | 0 <= i < j < |s| :: s[i].rank >= s[j].rank
  }

  /** The events of one rank, in order. */
  ghost function OfRank(s: seq<Event>, rank: nat): seq<Event> {
    if s == [] then []
    else if s[0].rank == rank then [s[0]] + OfRank(s[1..], rank)
    else OfRank(s[1..], rank)
  }

  /** Every rank has the same events in the same order. */
  ghost predicate SameRanks(s: seq<Event>, t: seq<Event>) {
    forall rank :: OfRank(s, rank) == OfRank(t, rank)
  }

  lemma {:induction false} InsertDescends(s: seq<Event>, e: Event)
    requires Descending(s)
    ensures Descending(Insert(s, e))
    ensures forall x | x in Insert(s, e) :: x in s || x == e
  {
    if s != [] && s[0].rank >= e.rank {
      InsertDescends(s[1..], e);
      var r := Insert(s[1..], e);
      forall i | 0 <= i < |r| ensures s[0].rank >= r[i].rank {
        assert r[i] in r;
        assert r[i] in s[1..] ==> exists k | 1 <= k < |s| :: s[k] == r[i];
      }
    }
  }

  lemma {:induction false} InsertOfRank(s: seq<Event>, e: Event, rank: nat)
    requires Descending(s)
    ensures OfRank(Insert(s, e), rank) == OfRank(s, rank) + if e.rank == rank then [e] else []
  {
    if s == [] || s[0].rank < e.rank {
      assert ([e] + s)[1..] == s;
      if e.rank == rank { NoneOfRank(s, rank); }
    } else {
      InsertOfRank(s[1..], e, rank);
      assert ([s[0]] + Insert(s[1..], e))[1..] == Insert(s[1..], e);
    }
  }

  lemma {:induction false} NoneOfRank(s: seq<Event>, rank: nat)
    requires forall i | 0 <= i < |s| :: s[i].rank != rank
    ensures OfRank(s, rank) == []
  {
    if s != [] { NoneOfRank(s[1..], rank); }
  }

  lemma {:induction false} OfRankSnoc(s: seq<Event>, e: Event, rank: nat)
    ensures OfRank(s + [e], rank) == OfRank(s, rank) + if e.rank == rank then [e] else []
  {
    if s != [] {
      OfRankSnoc(s[1..], e, rank);
      assert (s + [e])[1..] == s[1..] + [e];
    }
  }

  /** Sorting orders by descending rank and keeps equal ranks in the order they came. */
  lemma {:induction false} SortMeaning(s: seq<Event>, rank: nat)
    ensures Descending(StableSort(s))
    ensures OfRank(StableSort(s), rank) == OfRank(s, rank)
  {
    hide Insert, OfRank;
    if s != [] {
      var (init, e) := (s[..|s| - 1], s[|s| - 1]);
      SortMeaning(init, rank);
      InsertDescends(StableSort(init), e);
      InsertOfRank(StableSort(init), e, rank);
      OfRankSnoc(init, e, rank);
      assert init + [e] == s;
    } else {
      assert StableSort(s) == s;
    }
  }

  lemma OfRankHead(s: seq<Event>)
    requires s != []
    ensures OfRank(s, s[0].rank) != [] && OfRank(s, s[0].rank)[0] == s[0]
  {
  }

  /** ... and nothing else does. */
  lemma {:induction false} SortUnique(s: seq<Event>, t: seq<Event>)
    requires Descending(s) && Descending(t) && SameRanks(s, t)
    ensures s == t
  {
    if s == [] || t == [] {
      if s != [] { OfRankHead(s); }
      if t != [] { OfRankHead(t); }
    } else {
      HeadRank(s, t);
      HeadRank(t, s);
      OfRankHead(s);
      OfRankHead(t);
      forall rank: nat ensures OfRank(s[1..], rank) == OfRank(t[1..], rank) {
        TailOfRank(s, t, rank);
      }
      SortUnique(s[1..], t[1..]);
    }
  }

  lemma HeadRank(s: seq<Event>, t: seq<Event>)
    requires s != [] && t != [] && Descending(t) && OfRank(s, s[0].rank) == OfRank(t, s[0].rank)
    ensures t[0].rank >= s[0].rank
  {
    hide OfRank;
    OfRankHead(s);
    if t[0].rank < s[0].rank { NoneOfRank(t, s[0].rank); }
  }

  lemma TailOfRank(s: seq<Event>, t: seq<Event>, rank: nat)
    requires s != [] && t != [] && s[0] == t[0] && OfRank(s, rank) == OfRank(t, rank)
    ensures OfRank(s[1..], rank) == OfRank(t[1..], rank)
  {
    if s[0].rank == rank {
      assert OfRank(s, rank)[1..] == OfRank(s[1..], rank);
      assert OfRank(t, rank)[1..] == OfRank(t[1..], rank);
    }
  }

  /** The stable sort is exactly the descending sequence that keeps the order inside every rank. */
  lemma SortExactly(s: seq<Event>, t: seq<Event>)
    ensures t == StableSort(s) <==> Descending(t) && SameRanks(t, s)
  {
    hide StableSort, Descending;
    if t == StableSort(s) {
      SortMeaning(s, 0);
      forall rank: nat ensures OfRank(t, rank) == OfRank(s, rank) {
        SortMeaning(s, rank);
      }
    } else if Descending(t) && SameRanks(t, s) {
      SortMeaning(s, 0);
      forall rank: nat ensures OfRank(t, rank) == OfRank(StableSort(s), rank) {
        SortMeaning(s, rank);
      }
      SortUnique(t, StableSort(s));
    }
  }

  method SortDescending(s: seq<Event>) returns (r: seq<Event>)
    ensures r == StableSort(s)
  {
    r := [];
    for i := 0 to |s|
      invariant r == StableSort(s[..i])
    {
      assert s[..i + 1][..i] == s[..i];
      r := InsertBehind(r, s[i]);
    }
    assert s[..|s|] == s;
  }

  lemma {:induction false} InsertAt(s: seq<Event>, k: nat, e: Event)
    requires k <= |s| && forall j | 0 <= j < k :: s[j].rank >= e.rank
    requires k < |s| ==> s[k].rank < e.rank
    ensures Insert(s, e) == s[..k] + [e] + s[k..]
  {
    if k > 0 {
      InsertAt(s[1..], k - 1, e);
      assert s[..k] == [s[0]] + s[1..][..k - 1] && s[k..] == s[1..][k - 1..];
    }
  }

  method InsertBehind(s: seq<Event>, e: Event) returns (r: seq<Event>)
    ensures r == Insert(s, e)
  {
    hide Insert;
    var k := 0;
    while k < |s| && s[k].rank >= e.rank
      invariant k <= |s| && forall j | 0 <= j < k :: s[j].rank >= e.rank
    {
      k := k + 1;
    }
    InsertAt(s, k, e);
    r := s[..k] + [e] + s[k..];
  }

  // ----- truncating between insertions loses nothing -----

  function Top5(s: seq<Event>): seq<Event> {
    Take(StableSort(s), 5)
  }

  lemma {:induction false} InsertTaken(s: seq<Event>, e: Event, n: nat)
    requires Descending(s)
    ensures Take(Insert(Take(s, n), e), n) == Take(Insert(s, e), n)
  {
    if s != [] && s[0].rank >= e.rank && n > 0 {
      InsertTaken(s[1..], e, n - 1);
      assert Take(s, n)[1..] == Take(s[1..], n - 1);
      TakeCons(s[0], Insert(s[1..], e), n);
      TakeCons(s[0], Insert(Take(s[1..], n - 1), e), n);
    }
  }

  lemma TakeCons<T>(x: T, s: seq<T>, n: nat)
    requires n > 0
    ensures Take([x] + s, n) == [x] + Take(s, n - 1)
  {
  }

  lemma {:induction false} InsertLast(s: seq<Event>, e: Event)
    requires forall i | 0 <= i < |s| :: s[i].rank >= e.rank
    ensures Insert(s, e) == s + [e]
  {
    if s != [] { InsertLast(s[1..], e); }
  }

  lemma {:induction false} SortSorted(s: seq<Event>)
    requires Descending(s)
    ensures StableSort(s) == s
  {
    hide Insert;
    if s != [] {
      SortSorted(s[..|s| - 1]);
      InsertLast(s[..|s| - 1], s[|s| - 1]);
    }
  }

  lemma SortSnoc(s: seq<Event>, e: Event)
    ensures StableSort(s + [e]) == Insert(StableSort(s), e)
  {
    assert (s + [e])[..|s|] == s;
  }

  /** Sorting the kept five with one more event and cutting gives the five of the whole history. */
  lemma OnlineStep(s: seq<Event>, e: Event)
    ensures Take(StableSort(Top5(s) + [e]), 5) == Top5(s + [e])
  {
    hide StableSort, Insert;
    SortMeaning(s, 0);
    var top := Top5(s);
    assert Descending(top);
    SortSnoc(top, e);
    SortSorted(top);
    SortSnoc(s, e);
    InsertTaken(StableSort(s), e, 5);
  }

  lemma {:induction false} InsertMembers(s: seq<Event>, e: Event, x: Event)
    ensures x in Insert(s, e) <==> x in s || x == e
  {
    if s != [] && s[0].rank >= e.rank { InsertMembers(s[1..], e, x); }
  }

  lemma {:induction false} SortMembers(s: seq<Event>, x: Event)
    ensures x in StableSort(s) <==> x in s
  {
    hide Insert;
    if s != [] {
      SortMembers(s[..|s| - 1], x);
      InsertMembers(StableSort(s[..|s| - 1]), s[|s| - 1], x);
      assert s == s[..|s| - 1] + [s[|s| - 1]];
    }
  }

  lemma TopMembers(seen: seq<Event>, x: Event)
    requires x in Top5(seen)
    ensures x in seen
  {
    hide StableSort;
    SortMembers(seen, x);
  }

  /** A block that ranks like one already pushed out does not come back. */
  lemma PushedOut(s: seq<Event>, was: Event, e: Event)
    requires was in s && was !in Top5(s) && e.rank == was.rank
    ensures Take(StableSort(Top5(s) + [e]), 5) == Top5(s)
  {
    hide StableSort, Insert;
    SortMembers(s, was);
    SortMeaning(s, 0);
    var (all, top) := (StableSort(s), Top5(s));
    var k :| 0 <= k < |all| && all[k] == was;
    assert forall i | 0 <= i < |top| :: top[i] in top && top[i] == all[i];
    SortSnoc(top, e);
    SortSorted(top);
    InsertLast(top, e);
  }

  // ----- where a block stands -----

  /** Event i ranks higher than event j, or came earlier with the same rank. */
  ghost predicate Beats(s: seq<Event>, i: nat, j: nat)
    requires i < |s| && j < |s|
  {
    s[i].rank > s[j].rank || (s[i].rank == s[j].rank && i < j)
  }

  /** How many of the first n events beat event j. */
  ghost function Beaters(s: seq<Event>, j: nat, n: nat): nat
    requires j < |s| && n <= |s|
  {
    if n == 0 then 0
    else Beaters(s, j, n - 1) + if Beats(s, n - 1, j) then 1 else 0
  }

  ghost function AtLeast(s: seq<Event>, rank: nat): nat {
    if s == [] then 0 else (if s[0].rank >= rank then 1 else 0) + AtLeast(s[1..], rank)
  }

  lemma {:induction false} AtLeastSnoc(s: seq<Event>, e: Event, rank: nat)
    ensures AtLeast(s + [e], rank) == AtLeast(s, rank) + if e.rank >= rank then 1 else 0
  {
    if s != [] {
      AtLeastSnoc(s[1..], e, rank);
      assert (s + [e])[1..] == s[1..] + [e];
    }
  }

  lemma {:induction false} AtLeastInserted(s: seq<Event>, e: Event, rank: nat)
    ensures AtLeast(Insert(s, e), rank) == AtLeast(s, rank) + if e.rank >= rank then 1 else 0
  {
    if s == [] || s[0].rank < e.rank {
      assert ([e] + s)[1..] == s;
    } else {
      AtLeastInserted(s[1..], e, rank);
      assert ([s[0]] + Insert(s[1..], e))[1..] == Insert(s[1..], e);
    }
  }

  lemma {:induction false} AtLeastSorted(s: seq<Event>, rank: nat)
    ensures AtLeast(StableSort(s), rank) == AtLeast(s, rank)
  {
    hide Insert, AtLeast;
    if s != [] {
      var (init, e) := (s[..|s| - 1], s[|s| - 1]);
      AtLeastSorted(init, rank);
      AtLeastInserted(StableSort(init), e, rank);
      AtLeastSnoc(init, e, rank);
      assert init + [e] == s;
    } else {
      assert StableSort(s) == s;
    }
  }

  /** The beaters of the newest event are the older ones that rank at least as high. */
  lemma {:induction false} NewestBeaters(s: seq<Event>, n: nat)
    requires n < |s|
    ensures Beaters(s, |s| - 1, n) == AtLeast(s[..n], s[|s| - 1].rank)
  {
    hide AtLeast;
    if n > 0 {
      NewestBeaters(s, n - 1);
      AtLeastSnoc(s[..n - 1], s[n - 1], s[|s| - 1].rank);
      assert s[..n - 1] + [s[n - 1]] == s[..n];
    } else {
      NoneAtLeast(s[|s| - 1].rank);
      assert s[..0] == [];
    }
  }

  lemma NoneAtLeast(rank: nat)
    ensures AtLeast([], rank) == 0
  {
  }

  lemma {:induction false} SameBeaters(s: seq<Event>, t: seq<Event>, j: nat, n: nat)
    requires s <= t && j < |s| && n <= |s|
    ensures Beaters(s, j, n) == Beaters(t, j, n)
  {
    if n > 0 { SameBeaters(s, t, j, n - 1); }
  }

  lemma {:induction false} InsertPlace(s: seq<Event>, e: Event)
    requires Descending(s)
    ensures AtLeast(s, e.rank) <= |s| && Insert(s, e)[AtLeast(s, e.rank)] == e
  {
    if s == [] {
    } else if s[0].rank < e.rank {
      NoneReach(s, e.rank);
    } else {
      InsertPlace(s[1..], e);
    }
  }

  lemma {:induction false} NoneReach(s: seq<Event>, rank: nat)
    requires forall i | 0 <= i < |s| :: s[i].rank < rank
    ensures AtLeast(s, rank) == 0
  {
    if s != [] { NoneReach(s[1..], rank); }
  }

  lemma {:induction false} InsertShift(s: seq<Event>, e: Event, k: nat)
    requires Descending(s) && k < |s|
    ensures Insert(s, e)[if s[k].rank >= e.rank then k else k + 1] == s[k]
  {
    if s[0].rank >= e.rank && k > 0 { InsertShift(s[1..], e, k - 1); }
  }

  /** The sort puts every event at the place given by the number of events that beat it. */
  lemma {:induction false} Standing(s: seq<Event>, j: nat)
    requires j < |s|
    ensures Beaters(s, j, |s|) < |s| && StableSort(s)[Beaters(s, j, |s|)] == s[j]
  {
    hide Insert, AtLeast;
    var n := |s| - 1;
    var (init, e) := (s[..n], s[n]);
    SortMeaning(init, 0);
    if j == n {
      NewestBeaters(s, n);
      AtLeastSorted(init, e.rank);
      InsertPlace(StableSort(init), e);
    } else {
      Standing(init, j);
      SameBeaters(init, s, j, n);
      InsertShift(StableSort(init), e, Beaters(init, j, n));
    }
  }

  lemma {:induction false} AtLeastIndex(s: seq<Event>, rank: nat, k: nat)
    requires Descending(s) && k < |s|
    ensures s[k].rank >= rank <==> k < AtLeast(s, rank)
  {
    if s[0].rank < rank {
      NoneReach(s, rank);
    } else if k > 0 {
      AtLeastIndex(s[1..], rank, k - 1);
    }
  }

  /** Every place of the sort belongs to some event. */
  lemma {:induction false} Holder(s: seq<Event>, k: nat) returns (j: nat)
    requires k < |s|
    ensures j < |s| && Beaters(s, j, |s|) == k
  {
    hide Insert, AtLeast, StableSort;
    var n := |s| - 1;
    var (init, e) := (s[..n], s[n]);
    var (sorted, p) := (StableSort(init), AtLeast(init, e.rank));
    SortMeaning(init, 0);
    NewestBeaters(s, n);
    AtLeastSorted(init, e.rank);
    InsertPlace(sorted, e);
    if k == p {
      j := n;
    } else {
      var k0 := if k < p then k else k - 1;
      j := Holder(init, k0);
      Standing(init, j);
      SameBeaters(init, s, j, n);
      AtLeastIndex(sorted, e.rank, k0);
    }
  }

  /** Whoever beats an event has fewer beaters. */
  lemma {:induction false} FewerBeaters(s: seq<Event>, i: nat, j: nat, n: nat)
    requires i < |s| && j < |s| && n <= |s| && Beats(s, i, j)
    ensures Beaters(s, i, n) + (if i < n then 1 else 0) <= Beaters(s, j, n)
  {
    if n > 0 { FewerBeaters(s, i, j, n - 1); }
  }

  lemma MoreBeaters(s: seq<Event>, e: Event, i: nat)
    requires i < |s|
    ensures Beaters(s + [e], i, |s| + 1) >= Beaters(s, i, |s|)
  {
    SameBeaters(s, s + [e], i, |s|);
  }

  /** The five best are the events with fewer than five beaters, each at its place. */
  lemma TopStanding(s: seq<Event>, j: nat)
    requires j < |s| && Beaters(s, j, |s|) < 5
    ensures Beaters(s, j, |s|) < |Top5(s)| && Top5(s)[Beaters(s, j, |s|)] == s[j]
  {
    hide StableSort, Beaters;
    Standing(s, j);
  }

  // ----- the store -----

  datatype Store = Store(date: Option<string>, events: seq<Event>, byHeight: map<nat, Event>, total: nat)

  /** What the store writes to its file. */
  datatype Saved = Saved(date: Option<string>, events: seq<Event>, total: nat)

  function ByHeight(events: seq<Event>): map<nat, Event> {
    if events == [] then map[]
    else ByHeight(events[..|events| - 1])[events[|events| - 1].height := events[|events| - 1]]
  }

  /** The file: absent, not a JSON object, an object whose events cannot be indexed by height, or as it was saved. */
  datatype OnDisk = NoFile | Garbled | BadEvents(date: Option<string>, total: nat) | Good(saved: Saved)

  /** A file that cannot be used leaves no events; date and counter survive when only the events are bad. */
  function Load(file: OnDisk): Store {
    match file
    case NoFile => Store(None, [], map[], 0)
    case Garbled => Store(None, [], map[], 0)
    case BadEvents(date, total) => Store(date, [], map[], total)
    case Good(f) => Store(f.date, f.events, ByHeight(f.events), f.total)
  }

  function Save(st: Store): OnDisk {
    Good(Saved(st.date, st.events, st.total))
  }

  lemma {:induction false} ByHeightMeaning(events: seq<Event>)
    ensures forall i | 0 <= i < |events| :: events[i].height in ByHeight(events)
    ensures forall h | h in ByHeight(events) :: ByHeight(events)[h] in events && ByHeight(events)[h].height == h
  {
    if events != [] { ByHeightMeaning(events[..|events| - 1]); }
  }

  function Added(st: Store, memorial: bool, height: nat, hash: string, timestamp: int): Store {
    if !memorial || height in st.byHeight || VisualRank(hash).None? then st
    else
      var e := Event(height, VisualRank(hash).value, hash, timestamp);
      Store(st.date, Take(StableSort(st.events + [e]), 5), st.byHeight[height := e], st.total + 1)
  }

  function Ticked(st: Store, today: string): Store {
    if st.date == Some(today) then st else Store(Some(today), [], map[], 0)
  }

  datatype Checked = Unknown | Known(hash: string, rank: nat, position: Option<nat>)

  /** The first place, counted from one, of a height among the events. */
  function PositionOf(events: seq<Event>, height: nat): (r: Option<nat>)
    ensures r.Some? ==> 1 <= r.value <= |events| && events[r.value - 1].height == height
    ensures r.Some? ==> forall i | 0 <= i < r.value - 1 :: events[i].height != height
    ensures r.None? ==> forall i | 0 <= i < |events| :: events[i].height != height
  {
    if events == [] then None
    else
      var r := PositionOf(events[..|events| - 1], height);
      if r.Some? then r
      else if events[|events| - 1].height == height then Some(|events|)
      else None
  }

  function Check(st: Store, height: nat): Checked {
    if height !in st.byHeight then Unknown
    else Known(st.byHeight[height].hash, st.byHeight[height].rank, PositionOf(st.events, height))
  }

  class EventStore {
    var date: Option<string>
    var events: seq<Event>
    var byHeight: map<nat, Event>
    var totalBlocks: nat
    var file: OnDisk

    function State(): Store
      reads this
    {
      Store(date, events, byHeight, totalBlocks)
    }

    /** Loading the file now would give this store, except for the heights that are not among the events. */
    ghost predicate InSync()
      reads this
    {
      Load(file) == Load(Save(State()))
    }

    constructor (onDisk: OnDisk)
      ensures State() == Load(onDisk) && file == onDisk && InSync()
    {
      date, events, byHeight, totalBlocks, file := None, [], map[], 0, onDisk;
      new;
      match onDisk
      case NoFile =>
      case Garbled =>
      case BadEvents(d, n) =>
        date, totalBlocks := d, n;
      case Good(f) =>
        date, events, totalBlocks := f.date, f.events, f.total;
        for i := 0 to |events|
          invariant date == f.date && events == f.events && totalBlocks == f.total
          invariant byHeight == ByHeight(events[..i]) && file == onDisk
        {
          assert events[..i + 1][..i] == events[..i];
          byHeight := byHeight[events[i].height := events[i]];
        }
        assert events[..|events|] == events;
    }

    method ResetIfNewDay(today: string)
      requires InSync()
      modifies this
      ensures State() == Ticked(old(State()), today) && InSync()
    {
      if date != Some(today) {
        date := Some(today);
        events, byHeight, totalBlocks := [], map[], 0;
        file := Save(State());
      }
    }

    method AddBlock(memorial: bool, height: nat, hash: string, timestamp: int)
      requires InSync()
      modifies this
      ensures State() == Added(old(State()), memorial, height, hash, timestamp) && InSync()
    {
      hide VisualRank, StableSort, ByHeight;
      if !memorial { return; }
      if height in byHeight { return; }
      var rank := VisualRank(hash);
      if rank.None? { return; }
      var entry := Event(height, rank.value, hash, timestamp);
      events := events + [entry];
      byHeight := byHeight[height := entry];
      totalBlocks := totalBlocks + 1;
      events := SortDescending(events);
      events := Take(events, 5);
      file := Save(State());
    }

    method CheckBlock(height: nat) returns (r: Checked)
      ensures r == Check(State(), height)
    {
      if height !in byHeight { return Unknown; }
      var entry := byHeight[height];
      var i := 0;
      while i < |events| && events[i].height != height
        invariant i <= |events| && forall k | 0 <= k < i :: events[k].height != height
      {
        i := i + 1;
      }
      return Known(entry.hash, entry.rank, if i < |events| then Some(i + 1) else None);
    }
  }
}
