/** The gigs page: the event list it loads (remote when a backend is
    configured and answers, the built-in list otherwise) and the split of
    that list into upcoming and past shows. */
module Gigs {
  import opened Wrappers
  import opened Config
  import opened Sorting
  import opened IsoDate

  /** An event as the page receives it. `date` is an ISO calendar date;
      `time` is display text and is never parsed. */
  datatype Event = Event(
    id: string,
    title: string,
    venue: string,
    address: string,
    date: string,
    time: string,
    description: Option<string>,
    ticketUrl: Option<string>)

  /** The built-in list shown whenever no remote list is available. */
  const StaticEvents: seq<Event> := [
    Event("1", "Sydney Festival 2025", "Domain Theatre",
      "1 Art Gallery Road, The Domain, Sydney NSW 2000", "2025-08-15", "7:00 PM",
      Some("Join us for an unforgettable evening of South Asian fusion music at Sydney Festival 2025. Experience Eastern Empire's electrifying performance featuring both traditional and contemporary hits."),
      Some("https://www.sydneyfestival.org.au/")),
    Event("2", "Cultural Night at Opera House", "Sydney Opera House - Studio",
      "Bennelong Point, Sydney NSW 2000", "2025-09-20", "8:00 PM",
      Some("An intimate evening celebrating South Asian music and culture. Limited seating available."),
      Some("https://www.sydneyoperahouse.com/")),
    Event("3", "Diwali Festival Performance", "Parramatta Park",
      "Pitt Street & Macquarie Street, Parramatta NSW 2150", "2025-10-25", "6:00 PM",
      Some("Celebrate the festival of lights with Eastern Empire! Free entry, family-friendly event."),
      None),
    Event("4", "New Year's Eve Gala", "The Star Event Centre",
      "80 Pyrmont Street, Pyrmont NSW 2009", "2025-12-31", "9:00 PM",
      Some("Ring in the New Year with Eastern Empire! A spectacular night of music, dance, and celebration. Black tie event with dinner and entertainment."),
      Some("https://www.star.com.au/")),
    Event("5", "Australia Day Concert", "Darling Harbour",
      "Darling Harbour, Sydney NSW 2000", "2026-01-26", "6:30 PM",
      Some("Celebrate Australia Day with Eastern Empire at this free outdoor concert. Bring your family and friends for an evening of multicultural music under the stars."),
      None),
    Event("6", "Valentine's Concert Series", "City Recital Hall",
      "2 Angel Place, Sydney NSW 2000", "2026-02-14", "7:30 PM",
      Some("An intimate evening of romantic melodies and timeless classics. Perfect date night experience featuring Eastern Empire's signature blend of traditional and contemporary sounds."),
      Some("https://www.cityrecitalhall.com/"))
  ]

  // ---------------------------------------------------------------------
  // Loading the list
  // ---------------------------------------------------------------------

  /** How the GET of the event list settles: the request rejects, or it
      resolves with a payload. `None` stands for a falsy payload (null,
      undefined, an empty body); `Some(list)` for an array, which is truthy
      even when empty. */
  datatype Response = Failed | Received(data: Option<seq<Event>>)

  datatype GigsState = GigsState(events: seq<Event>, loading: bool, error: Option<string>)

  /** The page on mount: the built-in list, still loading, no error. */
  const InitialGigsState := GigsState(StaticEvents, true, None)

  /** `fetchEvents` returns the URL it requested (if any) and the new state. */
  datatype Fetched = Fetched(request: Option<string>, state: GigsState)

  /** `fetchEvents`: `response` is what the transport delivers if asked; it
      is consulted only when a backend is configured. */
  function FetchEvents(s: GigsState, backendUrl: Option<string>, response: Response): (f: Fetched)
    ensures !f.state.loading
    ensures f.request.None? <==> ApiBase(backendUrl).None?
    ensures f.request.Some? ==> f.request.value == ApiBase(backendUrl).value + "/events"
    ensures f.request.None? ==> f.state.events == StaticEvents && f.state.error == s.error
    ensures f.request.Some? ==> f.state.error == None
    ensures f.request.Some? && response.Failed? ==> f.state.events == StaticEvents
    ensures f.request.Some? && response.Received? && response.data.Some?
            ==> f.state.events == response.data.value
    ensures f.request.Some? && response == Received(None) ==> f.state.events == StaticEvents
  {
    match ApiBase(backendUrl)
    case None =>
      Fetched(None, s.(events := StaticEvents, loading := false))
    case Some(api) =>
      var events := match response
        case Failed => StaticEvents
        case Received(data) => data.GetOr(StaticEvents);
      Fetched(Some(api + "/events"), GigsState(events, false, None))
  }

  /** The list is never left empty unless a configured backend answered with
      an empty array: the built-in list is non-empty and every other path
      either keeps the remote list or falls back to it. */
  lemma EmptyOnlyFromRemoteEmpty(s: GigsState, backendUrl: Option<string>, response: Response)
    ensures FetchEvents(s, backendUrl, response).state.events == []
        <==> ApiBase(backendUrl).Some? && response == Received(Some([]))
  {
  }

  /** Mounting the page never surfaces an error. */
  lemma MountNeverShowsError(backendUrl: Option<string>, response: Response)
    ensures FetchEvents(InitialGigsState, backendUrl, response).state.error == None
  {
  }

  // ---------------------------------------------------------------------
  // Upcoming and past
  // ---------------------------------------------------------------------

  /** `new Date(event.date) >= now`; an invalid date compares false. */
  predicate IsUpcoming(e: Event, now: int) {
    match DateInstant(e.date)
    case Some(t) => t >= now
    case None => false
  }

  /** `new Date(event.date) < now`; an invalid date compares false. */
  predicate IsPast(e: Event, now: int) {
    match DateInstant(e.date)
    case Some(t) => t < now
    case None => false
  }

  function UpcomingEvents(events: seq<Event>, now: int): (r: seq<Event>)
    ensures forall e :: e in r <==> e in events && DateInstant(e.date).Some? && DateInstant(e.date).value >= now
  {
    Filter(events, e => IsUpcoming(e, now))
  }

  function PastEvents(events: seq<Event>, now: int): (r: seq<Event>)
    ensures forall e :: e in r <==> e in events && DateInstant(e.date).Some? && DateInstant(e.date).value < now
  {
    Filter(events, e => IsPast(e, now))
  }

  /** The page's two lists taken against one reference instant. */
  datatype Split = Split(upcoming: seq<Event>, past: seq<Event>)

  function Partition(events: seq<Event>, now: int): (p: Split)
    ensures forall e :: !(e in p.upcoming && e in p.past)
    ensures forall e :: e in p.upcoming || e in p.past ==> e in events
  {
    Split(UpcomingEvents(events, now), PastEvents(events, now))
  }

  /** When every date parses, the two lists together hold every loaded
      event exactly as often as the loaded list does. */
  lemma PartitionCovers(events: seq<Event>, now: int)
    requires forall e :: e in events ==> DateInstant(e.date).Some?
    ensures multiset(Partition(events, now).upcoming) + multiset(Partition(events, now).past)
         == multiset(events)
  {
    FilterComplement(events, e => IsUpcoming(e, now), e => IsPast(e, now));
  }

  /** Both lists keep the order of the loaded list: splitting a list in two
      and partitioning the halves gives the halves' lists concatenated. */
  lemma PartitionPreservesOrder(a: seq<Event>, b: seq<Event>, now: int)
    ensures Partition(a + b, now).upcoming == Partition(a, now).upcoming + Partition(b, now).upcoming
    ensures Partition(a + b, now).past == Partition(a, now).past + Partition(b, now).past
  {
    FilterAppend(a, b, e => IsUpcoming(e, now));
    FilterAppend(a, b, e => IsPast(e, now));
  }

  /** An event at exactly the reference instant is upcoming, never past. */
  lemma BoundaryIsUpcoming(events: seq<Event>, e: Event, now: int)
    requires e in events && DateInstant(e.date) == Some(now)
    ensures e in Partition(events, now).upcoming
    ensures e !in Partition(events, now).past
  {
  }

  /** An event whose date does not parse is shown in neither list. */
  lemma InvalidDateInNeither(events: seq<Event>, e: Event, now: int)
    requires DateInstant(e.date).None?
    ensures e !in Partition(events, now).upcoming
    ensures e !in Partition(events, now).past
  {
  }

  /** A list sorted by its date strings, as the backend returns it, yields
      upcoming and past lists in chronological order. */
  lemma SortedFeedGivesChronologicalLists(events: seq<Event>, now: int)
    requires forall e :: e in events ==> DateInstant(e.date).Some?
    requires forall i, j :: 0 <= i < j < |events| ==> LexLe(events[i].date, events[j].date)
    ensures forall i, j :: 0 <= i < j < |Partition(events, now).upcoming| ==>
      DateInstant(Partition(events, now).upcoming[i].date).value
        <= DateInstant(Partition(events, now).upcoming[j].date).value
    ensures forall i, j :: 0 <= i < j < |Partition(events, now).past| ==>
      DateInstant(Partition(events, now).past[i].date).value
        <= DateInstant(Partition(events, now).past[j].date).value
  {
    var le := (x: Event, y: Event) => LexLe(x.date, y.date);
    assert SortedBy(events, le);
    FilterSorted(events, e => IsUpcoming(e, now), le);
    FilterSorted(events, e => IsPast(e, now), le);
    var up, past := Partition(events, now).upcoming, Partition(events, now).past;
    forall i, j | 0 <= i < j < |up|
      ensures DateInstant(up[i].date).value <= DateInstant(up[j].date).value
    {
      assert up[i] in events && up[j] in events;
      DateOrderIsStringOrder(up[i].date, up[j].date);
    }
    forall i, j | 0 <= i < j < |past|
      ensures DateInstant(past[i].date).value <= DateInstant(past[j].date).value
    {
      assert past[i] in events && past[j] in events;
      DateOrderIsStringOrder(past[i].date, past[j].date);
    }
  }

  // ---------------------------------------------------------------------
  // The built-in list on a given day
  // ---------------------------------------------------------------------

  /** The instant of a concrete "YYYY-MM-DD" string from its three fields. */
  lemma InstantOfFields(s: string, y: int, m: int, d: int)
    requires |s| == 10 && s[4] == '-' && s[7] == '-'
    requires DigitsValue(s[..4]) == Some(y)
    requires DigitsValue(s[5..7]) == Some(m)
    requires DigitsValue(s[8..]) == Some(d)
    requires 1 <= m <= 12 && 1 <= d <= DaysInMonth(y, m)
    ensures DateInstant(s) == Some(DaysFromCivil(y, m, d) * MsPerDay)
  {
  }

  /** The dates of the built-in events. */
  lemma StaticEventDates()
    ensures StaticEvents[0].date == "2025-08-15"
    ensures StaticEvents[1].date == "2025-09-20"
    ensures StaticEvents[2].date == "2025-10-25"
    ensures StaticEvents[3].date == "2025-12-31"
    ensures StaticEvents[4].date == "2026-01-26"
    ensures StaticEvents[5].date == "2026-02-14"
  {
  }

  /** The days (since 1970-01-01) of the built-in events. */
  lemma StaticEventDays()
    ensures DateInstant(StaticEvents[0].date) == Some(20315 * MsPerDay)
    ensures DateInstant(StaticEvents[1].date) == Some(20351 * MsPerDay)
    ensures DateInstant(StaticEvents[2].date) == Some(20386 * MsPerDay)
    ensures DateInstant(StaticEvents[3].date) == Some(20453 * MsPerDay)
    ensures DateInstant(StaticEvents[4].date) == Some(20479 * MsPerDay)
    ensures DateInstant(StaticEvents[5].date) == Some(20498 * MsPerDay)
  {
    StaticEventDates();
    Instant2025_08_15();
    Instant2025_09_20();
    Instant2025_10_25();
    Instant2025_12_31();
    Instant2026_01_26();
    Instant2026_02_14();
  }

  // Each date is evaluated in a lemma of its own: the literal digit
  // fields are spelled out for the solver, and one date per proof keeps
  // the unfolding of `DigitsValue` and `DaysFromCivil` small.

  lemma Instant2025_08_15()
    ensures DateInstant("2025-08-15") == Some(20315 * MsPerDay)
  {
    assert "2025-08-15"[..4] == "2025";
    assert "2025-08-15"[5..7] == "08";
    assert "2025-08-15"[8..] == "15";
    assert DigitsValue("2025") == Some(2025);
    assert DigitsValue("08") == Some(8);
    assert DigitsValue("15") == Some(15);
    InstantOfFields("2025-08-15", 2025, 8, 15);
  }

  lemma Instant2025_09_20()
    ensures DateInstant("2025-09-20") == Some(20351 * MsPerDay)
  {
    assert "2025-09-20"[..4] == "2025";
    assert "2025-09-20"[5..7] == "09";
    assert "2025-09-20"[8..] == "20";
    assert DigitsValue("2025") == Some(2025);
    assert DigitsValue("09") == Some(9);
    assert DigitsValue("20") == Some(20);
    InstantOfFields("2025-09-20", 2025, 9, 20);
  }

  lemma Instant2025_10_25()
    ensures DateInstant("2025-10-25") == Some(20386 * MsPerDay)
  {
    assert "2025-10-25"[..4] == "2025";
    assert "2025-10-25"[5..7] == "10";
    assert "2025-10-25"[8..] == "25";
    assert DigitsValue("2025") == Some(2025);
    assert DigitsValue("10") == Some(10);
    assert DigitsValue("25") == Some(25);
    InstantOfFields("2025-10-25", 2025, 10, 25);
  }

  lemma Instant2025_12_31()
    ensures DateInstant("2025-12-31") == Some(20453 * MsPerDay)
  {
    assert "2025-12-31"[..4] == "2025";
    assert "2025-12-31"[5..7] == "12";
    assert "2025-12-31"[8..] == "31";
    assert DigitsValue("2025") == Some(2025);
    assert DigitsValue("12") == Some(12);
    assert DigitsValue("31") == Some(31);
    InstantOfFields("2025-12-31", 2025, 12, 31);
  }

  lemma Instant2026_01_26()
    ensures DateInstant("2026-01-26") == Some(20479 * MsPerDay)
  {
    assert "2026-01-26"[..4] == "2026";
    assert "2026-01-26"[5..7] == "01";
    assert "2026-01-26"[8..] == "26";
    assert DigitsValue("2026") == Some(2026);
    assert DigitsValue("01") == Some(1);
    assert DigitsValue("26") == Some(26);
    InstantOfFields("2026-01-26", 2026, 1, 26);
  }

  lemma Instant2026_02_14()
    ensures DateInstant("2026-02-14") == Some(20498 * MsPerDay)
  {
    assert "2026-02-14"[..4] == "2026";
    assert "2026-02-14"[5..7] == "02";
    assert "2026-02-14"[8..] == "14";
    assert DigitsValue("2026") == Some(2026);
    assert DigitsValue("02") == Some(2);
    assert DigitsValue("14") == Some(14);
    InstantOfFields("2026-02-14", 2026, 2, 14);
  }

  lemma Instant2025_11_01()
    ensures DateInstant("2025-11-01") == Some(20393 * MsPerDay)
  {
    assert "2025-11-01"[..4] == "2025";
    assert "2025-11-01"[5..7] == "11";
    assert "2025-11-01"[8..] == "01";
    assert DigitsValue("2025") == Some(2025);
    assert DigitsValue("11") == Some(11);
    assert DigitsValue("01") == Some(1);
    InstantOfFields("2025-11-01", 2025, 11, 1);
  }

  /** A list whose first `k` events are past and the rest upcoming splits
      at `k`. */
  lemma PartitionAtIndex(ev: seq<Event>, k: nat, now: int)
    requires k <= |ev|
    requires forall i :: 0 <= i < k ==> IsPast(ev[i], now)
    requires forall i :: k <= i < |ev| ==> IsUpcoming(ev[i], now)
    ensures Partition(ev, now) == Split(ev[k..], ev[..k])
  {
    var up, past := e => IsUpcoming(e, now), e => IsPast(e, now);
    forall i | 0 <= i < k
      ensures past(ev[i]) && !up(ev[i])
    {
    }
    forall i | k <= i < |ev|
      ensures up(ev[i]) && !past(ev[i])
    {
    }
    FilterDropsPrefix(ev, k, up);
    FilterKeepsPrefix(ev, k, past);
  }

  /** Where each built-in show falls on 2025-11-01 at UTC midnight. */
  lemma StaticEventSidesOnFirstOfNovember()
    ensures IsPast(StaticEvents[0], 20393 * MsPerDay)
    ensures IsPast(StaticEvents[1], 20393 * MsPerDay)
    ensures IsPast(StaticEvents[2], 20393 * MsPerDay)
    ensures IsUpcoming(StaticEvents[3], 20393 * MsPerDay)
    ensures IsUpcoming(StaticEvents[4], 20393 * MsPerDay)
    ensures IsUpcoming(StaticEvents[5], 20393 * MsPerDay)
  {
    StaticEventDays();
  }

  /** On 2025-11-01 (UTC midnight) the first three built-in shows are past
      and the last three upcoming; the Diwali show of 2025-10-25 is past. */
  lemma StaticEventsOnFirstOfNovember()
    ensures DateInstant("2025-11-01") == Some(20393 * MsPerDay)
    ensures Partition(StaticEvents, 20393 * MsPerDay).past == StaticEvents[..3]
    ensures Partition(StaticEvents, 20393 * MsPerDay).upcoming == StaticEvents[3..]
  {
    Instant2025_11_01();
    StaticEventSidesOnFirstOfNovember();
    var now := 20393 * MsPerDay;
    assert forall i :: 0 <= i < 3 ==> IsPast(StaticEvents[i], now) by {
      forall i | 0 <= i < 3
        ensures IsPast(StaticEvents[i], now)
      {
        assert i == 0 || i == 1 || i == 2;
      }
    }
    assert forall i :: 3 <= i < |StaticEvents| ==> IsUpcoming(StaticEvents[i], now) by {
      forall i | 3 <= i < |StaticEvents|
        ensures IsUpcoming(StaticEvents[i], now)
      {
        assert i == 3 || i == 4 || i == 5;
      }
    }
    PartitionAtIndex(StaticEvents, 3, now);
  }

  // ---------------------------------------------------------------------
  // The page as written reads the clock once per event and filter
  // ---------------------------------------------------------------------

  /** `events.filter(event => test(event, new Date()))`: the callback builds
      its own `new Date()` for every event, so `events[i]` is tested against
      its own reading `clock[i]`. Nothing orders the readings: a wall clock
      may be stepped back between two of them. */
  function FilterPerReading(events: seq<Event>, clock: seq<int>, test: (Event, int) -> bool): (r: seq<Event>)
    requires |clock| == |events|
    ensures |r| <= |events|
    ensures forall e :: e in r <==>
      exists i :: 0 <= i < |events| && events[i] == e && test(e, clock[i])
    decreases |events|
  {
    if events == [] then []
    else
      var rest := FilterPerReading(events[1..], clock[1..], test);
      assert forall e :: e in rest <==>
        exists i :: 1 <= i < |events| && events[i] == e && test(e, clock[i])
      by {
        forall e | e in rest
          ensures exists i :: 1 <= i < |events| && events[i] == e && test(e, clock[i])
        {
          var j :| 0 <= j < |events[1..]| && events[1..][j] == e && test(e, clock[1..][j]);
          assert events[j + 1] == e && test(e, clock[j + 1]);
        }
        forall e | exists i :: 1 <= i < |events| && events[i] == e && test(e, clock[i])
          ensures e in rest
        {
          var i :| 1 <= i < |events| && events[i] == e && test(e, clock[i]);
          assert events[1..][i - 1] == e && test(e, clock[1..][i - 1]);
        }
      }
      if test(events[0], clock[0]) then [events[0]] + rest else rest
  }

  /** The two lists as the page computes them: the upcoming filter tests
      `events[i]` against the reading `upClock[i]`, and the past filter,
      which runs after it, against `pastClock[i]`. */
  function RenderedLists(events: seq<Event>, upClock: seq<int>, pastClock: seq<int>): (p: Split)
    requires |upClock| == |events| && |pastClock| == |events|
    ensures forall e :: e in p.upcoming <==>
      exists i :: 0 <= i < |events| && events[i] == e && IsUpcoming(e, upClock[i])
    ensures forall e :: e in p.past <==>
      exists i :: 0 <= i < |events| && events[i] == e && IsPast(e, pastClock[i])
  {
    Split(FilterPerReading(events, upClock, IsUpcoming), FilterPerReading(events, pastClock, IsPast))
  }

  /** A clock that does not move between the readings gives the
      single-instant partition. */
  lemma SteadyClockIsPartition(events: seq<Event>, upClock: seq<int>, pastClock: seq<int>, now: int)
    requires |upClock| == |events| && |pastClock| == |events|
    requires forall i :: 0 <= i < |events| ==> upClock[i] == now && pastClock[i] == now
    ensures RenderedLists(events, upClock, pastClock) == Partition(events, now)
  {
    SteadyUpcoming(events, upClock, now);
    SteadyPast(events, pastClock, now);
  }

  lemma {:induction false} SteadyUpcoming(events: seq<Event>, clock: seq<int>, now: int)
    requires |clock| == |events|
    requires forall i :: 0 <= i < |events| ==> clock[i] == now
    ensures FilterPerReading(events, clock, IsUpcoming) == UpcomingEvents(events, now)
    decreases |events|
  {
    if events != [] {
      SteadyUpcoming(events[1..], clock[1..], now);
    }
  }

  lemma {:induction false} SteadyPast(events: seq<Event>, clock: seq<int>, now: int)
    requires |clock| == |events|
    requires forall i :: 0 <= i < |events| ==> clock[i] == now
    ensures FilterPerReading(events, clock, IsPast) == PastEvents(events, now)
    decreases |events|
  {
    if events != [] {
      SteadyPast(events[1..], clock[1..], now);
    }
  }

  /** For an event listed once, at position `i` with the readings `u` and
      `p` there: it is in both lists if and only if `u <= t < p`, and in
      neither if and only if `p <= t < u`, where `t` is its instant. A
      forward clock can therefore duplicate it, and a clock stepped back
      can drop it. */
  lemma RenderedListsOverlapOrDrop(events: seq<Event>, upClock: seq<int>, pastClock: seq<int>, i: nat)
    requires |upClock| == |events| && |pastClock| == |events|
    requires i < |events| && DateInstant(events[i].date).Some?
    requires forall j :: 0 <= j < |events| && events[j] == events[i] ==> j == i
    ensures var p := RenderedLists(events, upClock, pastClock);
            var t := DateInstant(events[i].date).value;
            (events[i] in p.upcoming && events[i] in p.past) <==> upClock[i] <= t < pastClock[i]
    ensures var p := RenderedLists(events, upClock, pastClock);
            var t := DateInstant(events[i].date).value;
            (events[i] !in p.upcoming && events[i] !in p.past) <==> pastClock[i] <= t < upClock[i]
  {
  }

  /** Readings one millisecond either side of an event's instant list that
      event in both lists. */
  lemma RenderStraddlingShowsTwice(events: seq<Event>, upClock: seq<int>, pastClock: seq<int>, i: nat)
    requires |upClock| == |events| && |pastClock| == |events|
    requires i < |events| && DateInstant(events[i].date).Some?
    requires upClock[i] == DateInstant(events[i].date).value - 1
    requires pastClock[i] == DateInstant(events[i].date).value + 1
    ensures events[i] in RenderedLists(events, upClock, pastClock).upcoming
    ensures events[i] in RenderedLists(events, upClock, pastClock).past
  {
  }

  /** Readings one millisecond apart, stepping back across an event's
      instant, list that event in neither list. */
  lemma BackwardClockDropsEvent(events: seq<Event>, upClock: seq<int>, pastClock: seq<int>, i: nat)
    requires |upClock| == |events| && |pastClock| == |events|
    requires i < |events| && DateInstant(events[i].date).Some?
    requires forall j :: 0 <= j < |events| && events[j] == events[i] ==> j == i
    requires upClock[i] == DateInstant(events[i].date).value + 1
    requires pastClock[i] == DateInstant(events[i].date).value
    ensures events[i] !in RenderedLists(events, upClock, pastClock).upcoming
    ensures events[i] !in RenderedLists(events, upClock, pastClock).past
  {
    RenderedListsOverlapOrDrop(events, upClock, pastClock, i);
  }

  /** Two shows on the same day can land on different sides: the upcoming
      filter reads the clock at midnight for the first and a millisecond
      after midnight for the second. */
  lemma SameDayShowsSplit(a: Event, b: Event, t: int)
    requires a != b && DateInstant(a.date) == Some(t) && DateInstant(b.date) == Some(t)
    ensures a in RenderedLists([a, b], [t, t + 1], [t + 1, t + 1]).upcoming
    ensures b !in RenderedLists([a, b], [t, t + 1], [t + 1, t + 1]).upcoming
    ensures b in RenderedLists([a, b], [t, t + 1], [t + 1, t + 1]).past
  {
  }

  /** The built-in list rendered across the midnight that starts 2025-10-25,
      with every upcoming reading just before it and every past reading
      just after: the Diwali show appears both as upcoming and as past. */
  lemma RenderAcrossMidnightShowsEventTwice()
    ensures StaticEvents[2] in RenderedLists(StaticEvents, MidnightClock(-1), MidnightClock(1)).upcoming
    ensures StaticEvents[2] in RenderedLists(StaticEvents, MidnightClock(-1), MidnightClock(1)).past
  {
    StaticEventDays();
    RenderStraddlingShowsTwice(StaticEvents, MidnightClock(-1), MidnightClock(1), 2);
  }

  /** Six readings, one per built-in show, `offset` milliseconds from
      2025-10-25T00:00:00Z. */
  function MidnightClock(offset: int): (c: seq<int>)
    ensures |c| == |StaticEvents|
    ensures forall i :: 0 <= i < |c| ==> c[i] == 20386 * MsPerDay + offset
  {
    seq(6, _ => 20386 * MsPerDay + offset)
  }

  /** An event whose instant is before the reference instant is listed
      as past and not as upcoming. */
  lemma EarlierIsPast(events: seq<Event>, e: Event, now: int)
    requires e in events && DateInstant(e.date).Some? && DateInstant(e.date).value < now
    ensures e in Partition(events, now).past
    ensures e !in Partition(events, now).upcoming
  {
  }

  /** 2025-10-25 at 6:00 PM in Sydney, daylight time (UTC+11): 07:00 UTC. */
  function DiwaliStart(): int
  {
    20386 * MsPerDay + 7 * 3600000
  }

  /** The Diwali show starts at 6:00 PM in Sydney, 07:00 UTC during
      daylight saving, yet its date means 00:00 UTC: by the time it starts
      the page already lists it as past. */
  lemma ShowIsPastBeforeItStarts()
    ensures StaticEvents[2].time == "6:00 PM"
    ensures StaticEvents[2] in Partition(StaticEvents, DiwaliStart()).past
    ensures StaticEvents[2] !in Partition(StaticEvents, DiwaliStart()).upcoming
  {
    StaticEventDays();
    EarlierIsPast(StaticEvents, StaticEvents[2], DiwaliStart());
  }
}
