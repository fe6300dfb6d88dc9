/**
 * The persisted dataset: a file that is either absent or holds a sequence of
 * five-field rows `[Link, Date, Source, Title, Description]`. Saving appends a
 * day's rows (`save_data`); the next run resumes the day after the newest stored
 * date (`get_start_date`).
 */
module Dataset {
  import opened Dates

  datatype Record = Record(link: string, date: Date, source: string, title: string, description: string)

  datatype FileState = Absent | Present(rows: seq<Record>)

  /** The rows a file holds; an absent file holds none. */
  function Rows(f: FileState): seq<Record> {
    if f.Present? then f.rows else []
  }

  predicate ValidDates(rows: seq<Record>) {
    forall i :: 0 <= i < |rows| ==> Valid(rows[i].date)
  }

  /** Rows with real dates stay so when joined, and only then. */
  lemma ValidDatesConcat(a: seq<Record>, b: seq<Record>)
    ensures ValidDates(a + b) <==> ValidDates(a) && ValidDates(b)
  {
    if ValidDates(a + b) {
      assert forall i :: 0 <= i < |a| ==> (a + b)[i] == a[i];
      assert forall j :: 0 <= j < |b| ==> (a + b)[|a| + j] == b[j];
    }
    if ValidDates(a) && ValidDates(b) {
      forall i | 0 <= i < |a + b| ensures Valid((a + b)[i].date) {
        if i >= |a| {
          assert (a + b)[i] == b[i - |a|];
        }
      }
    }
  }

  /** The file after saving `news`: it now exists and holds the old rows followed by the new ones. */
  function Saved(f: FileState, news: seq<Record>): FileState {
    Present(Rows(f) + news)
  }

  /** `save_data`: the dataset file is the one mutable resource of the crawl. */
  class Store {
    var file: FileState

    constructor (initial: FileState)
      ensures file == initial
    {
      file := initial;
    }

    method Save(news: seq<Record>)
      modifies this
      ensures file == Saved(old(file), news)
    {
      match file
      case Absent =>
        file := Present(news);
      case Present(previous) =>
        file := Present(previous + news);
    }
  }

  /** Saving never loses, reorders or duplicates a row: the old rows come first, then the new ones. */
  lemma SaveAppends(f: FileState, news: seq<Record>)
    ensures |Rows(Saved(f, news))| == |Rows(f)| + |news|
    ensures forall i :: 0 <= i < |Rows(f)| ==> Rows(Saved(f, news))[i] == Rows(f)[i]
    ensures forall j :: 0 <= j < |news| ==> Rows(Saved(f, news))[|Rows(f)| + j] == news[j]
  {
  }

  /** Two saves in a row hold exactly the rows of both calls, in call order. */
  lemma SaveTwice(f: FileState, a: seq<Record>, b: seq<Record>)
    ensures Rows(Saved(Saved(f, a), b)) == Rows(f) + a + b
  {
  }

  // ---- resuming ----

  /** The newest date among the rows (`df['Date'].max()`). */
  function Latest(rows: seq<Record>): (d: Date)
    requires |rows| > 0
    ensures exists i :: 0 <= i < |rows| && rows[i].date == d
    ensures forall i :: 0 <= i < |rows| ==> AtMost(rows[i].date, d)
  {
    var n := |rows| - 1;
    if n == 0 then rows[0].date
    else
      var m := Latest(rows[..n]);
      assert forall i :: 0 <= i < n ==> rows[i] == rows[..n][i];
      if Before(m, rows[n].date) then rows[n].date else m
  }

  /** The value `get_start_date()` returns: a day, or pandas' NaT (not a time). */
  datatype Stamp = NaT | At(date: Date)

  /**
   * `get_start_date()`: without a file, the fixed default 2024-01-01; with a file, the
   * day after its newest date. A file with no rows has no newest date: the maximum
   * is NaT and so is the sum.
   */
  function StartDate(f: FileState): (r: Stamp)
    requires ValidDates(Rows(f))
    ensures f.Absent? ==> r == At(Date(2024, 1, 1))
    ensures f.Present? && f.rows == [] ==> r == NaT
    ensures f.Present? && f.rows != [] ==>
      && r.At? && Valid(r.date)
      && (forall i :: 0 <= i < |f.rows| ==> Before(f.rows[i].date, r.date))
      && (exists i :: 0 <= i < |f.rows| && r.date == NextDay(f.rows[i].date))
  {
    match f
    case Absent => At(DefaultStart())
    case Present(rows) =>
      if rows == [] then NaT
      else
        var last := Latest(rows);
        var next := NextDay(last);
        assert forall i :: 0 <= i < |rows| ==> Before(rows[i].date, next) by {
          forall i | 0 <= i < |rows| ensures Before(rows[i].date, next) {
            OrdinalOrder(rows[i].date, last);
            OrdinalOrder(rows[i].date, next);
          }
        }
        At(next)
  }

  /** The resume date is the only day that follows a stored day and lies after all of them. */
  lemma StartDateIsLatestPlusOne(f: FileState, d: Date)
    requires f.Present? && f.rows != [] && ValidDates(f.rows)
    requires forall i :: 0 <= i < |f.rows| ==> Before(f.rows[i].date, d)
    requires exists i :: 0 <= i < |f.rows| && d == NextDay(f.rows[i].date)
    ensures StartDate(f) == At(d)
  {
    var rows := f.rows;
    var s := StartDate(f).date;
    var i :| 0 <= i < |rows| && d == NextDay(rows[i].date);
    var j :| 0 <= j < |rows| && s == NextDay(rows[j].date);
    NextDayOrdinal(rows[i].date);
    NextDayOrdinal(rows[j].date);
    OrdinalOrder(rows[i].date, s);
    OrdinalOrder(rows[j].date, d);
    OrdinalOrder(s, d);
  }

  /** Saving an empty batch into an existing file leaves the resume date where it was. */
  lemma EmptySaveKeepsStart(f: FileState)
    requires f.Present? && ValidDates(f.rows)
    ensures Rows(Saved(f, [])) == Rows(f)
    ensures StartDate(Saved(f, [])) == StartDate(f)
  {
    assert f.rows + [] == f.rows;
  }

  /**
   * The first save creates the file even when the batch is empty; a file with no
   * rows then resumes at NaT instead of the default date.
   */
  lemma EmptyFirstSaveLosesDefault()
    ensures StartDate(Absent) == At(Date(2024, 1, 1))
    ensures StartDate(Saved(Absent, [])) == NaT
  {
  }

  /**
   * After a non-empty batch all dated `day` is appended to rows dated no later than
   * `day`, the next run resumes on the following day: collected days are not fetched again.
   */
  lemma ResumeAfterDay(f: FileState, news: seq<Record>, day: Date)
    requires ValidDates(Rows(f)) && Valid(day)
    requires forall i :: 0 <= i < |Rows(f)| ==> AtMost(Rows(f)[i].date, day)
    requires |news| > 0 && forall j :: 0 <= j < |news| ==> news[j].date == day
    ensures ValidDates(Rows(Saved(f, news)))
    ensures StartDate(Saved(f, news)) == At(NextDay(day))
  {
    var rows := Rows(f) + news;
    assert rows[|Rows(f)|].date == day;
    forall i | 0 <= i < |rows| ensures Before(rows[i].date, NextDay(day)) {
      OrdinalOrder(rows[i].date, day);
      OrdinalOrder(rows[i].date, NextDay(day));
    }
    StartDateIsLatestPlusOne(Saved(f, news), NextDay(day));
  }
}
