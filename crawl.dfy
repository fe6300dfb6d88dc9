/**
 * The whole crawl (`scrap_all`): from the resume date to today, one day after
 * another, collecting and saving each day. A day whose feed cannot be read raises
 * out of the day's collection, and with it out of the crawl.
 */
module Crawl {
  import opened Dates
  import opened Dataset
  import opened Day

  /** The days from `from` to `end`, both included, one day apart. */
  function Walk(from: Date, end: Date): seq<Date>
    requires Valid(from) && Valid(end)
    decreases Ordinal(end) - Ordinal(from) + 1
  {
    if Before(end, from) then []
    else
      OrdinalOrder(end, from);
      NextDayOrdinal(from);
      [from] + Walk(NextDay(from), end)
  }

  /**
   * The walk has one entry per day number from `from` to `end`: it is empty when
   * `end` comes first, and otherwise starts at `from` and ends at `end`.
   */
  lemma {:induction false} WalkSpec(from: Date, end: Date)
    requires Valid(from) && Valid(end)
    ensures var w := Walk(from, end);
      && |w| == (if Before(end, from) then 0 else Ordinal(end) - Ordinal(from) + 1)
      && (forall i :: 0 <= i < |w| ==> Valid(w[i]) && Ordinal(w[i]) == Ordinal(from) + i)
      && (w != [] ==> w[0] == from && w[|w| - 1] == end)
    decreases Ordinal(end) - Ordinal(from) + 1
  {
    OrdinalOrder(end, from);
    if !Before(end, from) {
      var next := NextDay(from);
      NextDayOrdinal(from);
      WalkSpec(next, end);
      OrdinalOrder(end, next);
      if Before(end, next) {
        OrdinalOrder(from, end);
        OrdinalOrder(end, from);
        assert Ordinal(end) == Ordinal(from);
        DistinctOrdinals(from, end);
      }
    }
  }

  /** Two valid days with the same day number are the same day. */
  lemma DistinctOrdinals(a: Date, b: Date)
    requires Valid(a) && Valid(b) && Ordinal(a) == Ordinal(b)
    ensures a == b
  {
    OrdinalOrder(a, b);
  }

  /** Each day of the walk is followed by the next calendar day, and no day comes twice. */
  lemma WalkSteps(from: Date, end: Date)
    requires Valid(from) && Valid(end)
    ensures var w := Walk(from, end);
      && (forall i :: 0 <= i < |w| ==> Valid(w[i]))
      && (forall i :: 0 <= i < |w| - 1 ==> w[i + 1] == NextDay(w[i]))
      && (forall i, j :: 0 <= i < j < |w| ==> Before(w[i], w[j]))
      && (forall i :: 0 <= i < |w| ==> AtMost(w[i], end))
  {
    var w := Walk(from, end);
    WalkSpec(from, end);
    forall i | 0 <= i < |w| - 1 ensures w[i + 1] == NextDay(w[i]) {
      NextDayOrdinal(w[i]);
      DistinctOrdinals(w[i + 1], NextDay(w[i]));
    }
    forall i, j | 0 <= i < j < |w| ensures Before(w[i], w[j]) {
      OrdinalOrder(w[i], w[j]);
    }
    forall i | 0 <= i < |w| ensures AtMost(w[i], end) {
      OrdinalOrder(end, w[i]);
    }
  }

  /** What the crawl loop relies on: the walk starts at `from`, steps one day at a time and stops at `end`. */
  lemma WalkShape(from: Date, end: Date)
    requires Valid(from) && Valid(end)
    ensures var w := Walk(from, end);
      && (w == [] <==> Before(end, from))
      && (w != [] ==> w[0] == from && w[|w| - 1] == end)
      && (forall i :: 0 <= i < |w| ==> Valid(w[i]) && AtMost(w[i], end))
      && (forall i :: 0 <= i < |w| - 1 ==> w[i + 1] == NextDay(w[i]))
  {
    WalkSpec(from, end);
    WalkSteps(from, end);
  }

  /** A walk that goes on past `mid` is the walk up to `mid` followed by the walk from the next day. */
  lemma {:induction false} WalkSplit(from: Date, mid: Date, end: Date)
    requires Valid(from) && Valid(mid) && Valid(end)
    requires AtMost(from, mid) && AtMost(mid, end)
    ensures Walk(from, end) == Walk(from, mid) + Walk(NextDay(mid), end)
    decreases Ordinal(mid) - Ordinal(from)
  {
    OrdinalOrder(mid, from);
    OrdinalOrder(end, mid);
    OrdinalOrder(end, from);
    if from == mid {
      NextDayOrdinal(mid);
      assert Walk(from, mid) == [mid] + Walk(NextDay(mid), mid);
      OrdinalOrder(mid, NextDay(mid));
      assert Walk(NextDay(mid), mid) == [];
    } else {
      OrdinalOrder(from, mid);
      var next := NextDay(from);
      NextDayOrdinal(from);
      OrdinalOrder(mid, next);
      if Before(mid, next) {
        DistinctOrdinals(from, mid);
      }
      WalkSplit(next, mid, end);
    }
  }

  /** The days a crawl visits when nothing fails: none after NaT, otherwise the resume date up to today. */
  function Planned(start: Stamp, end: Date): seq<Date>
    requires start.At? ==> Valid(start.date)
    requires Valid(end)
  {
    match start
    case NaT => []
    case At(d) => Walk(d, end)
  }

  /** Days the crawl can collect and save: real days up to 9999 whose feed reads. */
  predicate Collectable<E>(sites: Date -> Site<E>, days: seq<Date>) {
    forall i :: 0 <= i < |days| ==> Valid(days[i]) && days[i].year <= 9999 && sites(days[i]).feed.Entries?
  }

  /**
   * What `scrap_one_day` saves on every day the crawl can collect: `records(d)` is the
   * day's listing records followed by its feed records.
   */
  ghost predicate RecordsOfDays<E>(records: Date -> seq<Record>, sites: Date -> Site<E>, lay: Layout, instant: Date -> int) {
    forall d {:trigger DayRecords(sites(d), lay, d, instant(d))} ::
      Valid(d) && d.year <= 9999 && sites(d).feed.Entries? ==> records(d) == DayRecords(sites(d), lay, d, instant(d))
  }

  /** The file after saving, day after day in order, each day's records. */
  function Saves(f: FileState, records: Date -> seq<Record>, days: seq<Date>): FileState {
    if days == [] then f
    else
      var n := |days| - 1;
      Saved(Saves(f, records, days[..n]), records(days[n]))
  }

  /** Collecting one more day saves that day's records after the earlier days' files. */
  lemma SavesSnoc(f: FileState, records: Date -> seq<Record>, days: seq<Date>, d: Date)
    ensures Saves(f, records, days + [d]) == Saved(Saves(f, records, days), records(d))
  {
    assert (days + [d])[..|days|] == days;
  }

  /** Two record functions that both follow `scrap_one_day` agree on a collectable day. */
  lemma RecordsAgree<E>(r1: Date -> seq<Record>, r2: Date -> seq<Record>,
                        sites: Date -> Site<E>, lay: Layout, instant: Date -> int, d: Date)
    requires RecordsOfDays(r1, sites, lay, instant) && RecordsOfDays(r2, sites, lay, instant)
    requires Valid(d) && d.year <= 9999 && sites(d).feed.Entries?
    ensures r1(d) == r2(d)
  {
    // Naming the day's records lets both functions' agreement with them apply.
    var day := DayRecords(sites(d), lay, d, instant(d));
  }

  /**
   * The saved file depends on the collected days only: any two record functions that
   * agree with what `scrap_one_day` saves give the same file.
   */
  lemma {:induction false} SavesDetermined<E>(f: FileState, r1: Date -> seq<Record>, r2: Date -> seq<Record>,
                                                 sites: Date -> Site<E>, lay: Layout, instant: Date -> int, days: seq<Date>)
    requires RecordsOfDays(r1, sites, lay, instant) && RecordsOfDays(r2, sites, lay, instant)
    requires Collectable(sites, days)
    ensures Saves(f, r1, days) == Saves(f, r2, days)
  {
    if days != [] {
      var n := |days| - 1;
      var d := days[n];
      RecordsAgree(r1, r2, sites, lay, instant, d);
      SavesDetermined(f, r1, r2, sites, lay, instant, days[..n]);
    }
  }

  /** Saving more days only appends: every earlier row stays, in place. */
  lemma {:induction false} SavesAppend(f: FileState, records: Date -> seq<Record>, days: seq<Date>)
    ensures Rows(f) <= Rows(Saves(f, records, days))
  {
    if days != [] {
      var n := |days| - 1;
      SavesAppend(f, records, days[..n]);
    }
  }

  /**
   * Every planned day lies after every stored date: a resumed crawl never collects
   * a day the file already holds.
   */
  lemma PlanAfterStored(f: FileState, end: Date)
    requires ValidDates(Rows(f)) && Valid(end)
    ensures var plan := Planned(StartDate(f), end);
      forall i, j :: 0 <= i < |plan| && 0 <= j < |Rows(f)| ==> Before(Rows(f)[j].date, plan[i])
  {
    var start := StartDate(f);
    if start.At? && f.Present? && f.rows != [] {
      var plan := Walk(start.date, end);
      WalkSteps(start.date, end);
      WalkSpec(start.date, end);
      forall i, j | 0 <= i < |plan| && 0 <= j < |f.rows| ensures Before(f.rows[j].date, plan[i]) {
        if i > 0 {
          OrdinalOrder(f.rows[j].date, start.date);
          OrdinalOrder(f.rows[j].date, plan[i]);
        }
      }
    }
  }

  /** A file that exists but holds no rows makes the crawl visit no day. */
  lemma NoRowsNoPlan(end: Date)
    requires Valid(end)
    ensures Planned(StartDate(Present([])), end) == []
  {
  }

  /** Without a file the crawl starts on 2024-01-01. */
  lemma NoFilePlan(end: Date)
    requires Valid(end) && AtMost(Date(2024, 1, 1), end)
    ensures var plan := Planned(StartDate(Absent), end);
      plan != [] && plan[0] == Date(2024, 1, 1) && plan[|plan| - 1] == end
  {
    OrdinalOrder(end, Date(2024, 1, 1));
    WalkSpec(Date(2024, 1, 1), end);
  }

  /**
   * One turn of the `scrap_all` loop: `scrap_one_day` for `current`, after `done`
   * has been saved onto `f`.
   */
  method CrawlDay<E(==)>(store: Store, sites: Date -> Site<E>, lay: Layout, instant: Date -> int,
                         ghost records: Date -> seq<Record>, ghost f: FileState, ghost done: seq<Date>, current: Date)
    returns (saved: bool)
    requires RecordsOfDays(records, sites, lay, instant)
    requires Valid(current) && current.year <= 9999 && DatedFeed(sites(current).feed)
    requires store.file == Saves(f, records, done)
    modifies store
    ensures saved <==> sites(current).feed.Entries?
    ensures saved ==> store.file == Saves(f, records, done + [current])
    ensures !saved ==> store.file == old(store.file)
    ensures ValidDates(Rows(old(store.file))) ==> ValidDates(Rows(store.file))
  {
    saved := ScrapOneDay(store, sites(current), lay, current, instant(current));
    if saved {
      SavesSnoc(f, records, done, current);
    }
  }

  /**
   * The loop of `scrap_all` from day `first` on: while the day is not after `end`,
   * collect and save it, then step one day. `finished` is false when a day's feed
   * could not be read: that day saved nothing and the crawl stopped there.
   */
  method CrawlFrom<E(==)>(store: Store, sites: Date -> Site<E>, lay: Layout, instant: Date -> int,
                          ghost records: Date -> seq<Record>, first: Date, end: Date)
    returns (visited: seq<Date>, finished: bool)
    requires RecordsOfDays(records, sites, lay, instant)
    requires Valid(first) && Valid(end) && end.year <= 9999
    requires forall d :: DatedFeed(sites(d).feed)
    modifies store
    ensures finished ==> visited == Walk(first, end) && Collectable(sites, visited)
                         && store.file == Saves(old(store.file), records, visited)
    ensures !finished ==>
              var n := |visited| - 1;
              && n >= 0 && visited <= Walk(first, end)
              && Collectable(sites, visited[..n]) && sites(visited[n]).feed.Unreadable?
              && store.file == Saves(old(store.file), records, visited[..n])
    ensures ValidDates(Rows(old(store.file))) ==> ValidDates(Rows(store.file))
  {
    ghost var plan := Walk(first, end);
    WalkShape(first, end);
    ghost var k := 0;
    visited := [];
    var current := first;
    while !Before(end, current)
      invariant 0 <= k <= |plan| && visited == plan[..k]
      invariant k < |plan| ==> current == plan[k]
      invariant k == |plan| ==> Before(end, current)
      invariant Valid(current)
      invariant Collectable(sites, visited)
      invariant store.file == Saves(old(store.file), records, visited)
      invariant ValidDates(Rows(old(store.file))) ==> ValidDates(Rows(store.file))
      decreases |plan| - k
    {
      var saved := CrawlDay(store, sites, lay, instant, records, old(store.file), visited, current);
      var next := NextDay(current);
      if !saved {
        assert (visited + [current])[..|visited|] == visited;
        assert plan[..k + 1] == visited + [current];
        visited := visited + [current];
        return visited, false;
      }
      if k + 1 == |plan| {
        NextDayOrdinal(current);
        OrdinalOrder(end, next);
      }
      assert plan[..k + 1] == visited + [current];
      visited := visited + [current];
      current := next;
      k := k + 1;
    }
    assert visited == plan;
    return visited, true;
  }

  /**
   * `scrap_all`: from `get_start_date()` up to today (`end`, the date of
   * `datetime.now()`). `sites(d)` is what the browser meets on day `d`'s run and
   * `instant(d)` is the start of `d` as a timestamp. Items are located by the
   * finam.ru class names; `records` names what `scrap_one_day` saves on each day.
   * A NaT start compares false with any date, so no day is visited.
   */
  method ScrapAll<E(==)>(store: Store, sites: Date -> Site<E>, instant: Date -> int,
                         ghost records: Date -> seq<Record>, end: Date)
    returns (visited: seq<Date>, finished: bool)
    requires RecordsOfDays(records, sites, Finam, instant)
    requires Valid(end) && end.year <= 9999 && ValidDates(Rows(store.file))
    requires forall d :: DatedFeed(sites(d).feed)
    modifies store
    ensures var plan := Planned(StartDate(old(store.file)), end);
      && (finished ==> visited == plan && Collectable(sites, visited)
                       && store.file == Saves(old(store.file), records, visited))
      && (!finished ==>
            var n := |visited| - 1;
            && n >= 0 && visited <= plan
            && Collectable(sites, visited[..n]) && sites(visited[n]).feed.Unreadable?
            && store.file == Saves(old(store.file), records, visited[..n]))
    ensures ValidDates(Rows(store.file))
  {
    var start := StartDate(store.file);
    match start
    case NaT =>
      return [], true;
    case At(first) =>
      visited, finished := CrawlFrom(store, sites, Finam, instant, records, first, end);
  }
}
