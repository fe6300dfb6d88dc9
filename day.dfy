/**
 * One day's collection (`scrap_one_day`): every category listing for the day, each
 * in its own failure scope, then the feed entries published at the day's start, and
 * finally one save of everything collected.
 *
 * The browser is described by values: `Dom` answers element lookups and attribute
 * reads, `Page` is a listing page after navigation, `Feed` is the parsed feed.
 */
module Day {
  import opened Wrappers
  import opened Dates
  import opened ClassMatch
  import opened Transformer
  import opened Dataset

  /** Base URLs of the category listings, in the order they are visited. */
  const PageLinks: seq<string> := [
    "https://www.finam.ru/publications/section/companies/date/",
    "https://www.finam.ru/publications/section/market/date/",
    "https://www.finam.ru/publications/section/forecasts/date/",
    "https://www.finam.ru/publications/section/international/date/"
  ]

  /**
   * The class names the listing layout uses: the class of an item block, and the
   * class sets that locate an item's title, source label and text.
   */
  datatype Layout = Layout(item: string, title: string, source: string, text: string)

  /** The layout of the finam.ru listings. */
  const Finam := Layout("mb2x", "cl-blue bold font-l", "font-xs cl-darkgrey mr05x", "font-s cl-black")

  /** What the browser reports about elements of type `E`. */
  datatype Dom<!E> = Dom(
    byClass: (E, string) -> seq<E>,  // elem.find_elements(By.CLASS_NAME, cls)
    classAttr: E -> string,          // elem.get_attribute("class")
    tagName: E -> string,            // elem.tag_name
    text: E -> string,               // elem.text
    href: E -> string,               // elem.get_attribute('href')
    span: E -> Option<E>)            // elem.find_element(By.TAG_NAME, 'span'); None: it raises

  /** A listing page once navigation succeeded. */
  datatype Page<E> = Page(
    source: string,                  // driver.page_source once the page is ready
    expands: string -> bool,         // load_news_page finishes for the given "load more" id
    byId: string -> Option<E>)       // driver.find_element(By.ID, id); None: it raises

  /** A feed entry; `published` is its instant and `publishedDate` its calendar day in its own zone. */
  datatype FeedEntry = FeedEntry(
    link: string, author: string, title: string, summary: string,
    published: int, publishedDate: Date)

  /** The feed as read for a day; `Unreadable` when fetching or reading an entry raises. */
  datatype Feed = Entries(entries: seq<FeedEntry>) | Unreadable

  /** The parser gives every entry a real calendar day. */
  predicate DatedFeed(feed: Feed) {
    feed.Entries? ==> forall i :: 0 <= i < |feed.entries| ==> Valid(feed.entries[i].publishedDate)
  }

  /** The outside world for one day's collection. */
  datatype Site<!E> = Site(
    open: string -> Option<Page<E>>,  // driver.get(url); None: navigation raises
    feed: Feed,
    dom: Dom<E>,
    plainText: string -> string)      // html_text.extract_text(·, guess_layout=False)

  // ---- one listing item ----

  /** The per-class lookup inside one item. */
  function Within<E>(dom: Dom<E>, item: E): string -> seq<E> {
    cls => dom.byClass(item, cls)
  }

  predicate IsTitleAnchor<E>(dom: Dom<E>, e: E) {
    dom.tagName(e) == "a" && dom.text(e) != ""
  }

  /** The last `a` element with non-empty text: the one the title loop ends on. */
  function LastAnchor<E>(dom: Dom<E>, elems: seq<E>): Option<E> {
    if elems == [] then None
    else
      var n := |elems| - 1;
      if IsTitleAnchor(dom, elems[n]) then Some(elems[n]) else LastAnchor(dom, elems[..n])
  }

  /** None exactly when no element is a title anchor; otherwise an anchor with none after it. */
  lemma {:induction false} LastAnchorSpec<E>(dom: Dom<E>, elems: seq<E>)
    ensures var r := LastAnchor(dom, elems);
      && (r.None? <==> forall i :: 0 <= i < |elems| ==> !IsTitleAnchor(dom, elems[i]))
      && (r.Some? ==> exists i :: 0 <= i < |elems| && elems[i] == r.value && IsTitleAnchor(dom, elems[i])
                                 && forall j :: i < j < |elems| ==> !IsTitleAnchor(dom, elems[j]))
  {
    if elems != [] {
      var n := |elems| - 1;
      LastAnchorSpec(dom, elems[..n]);
      assert forall i :: 0 <= i < n ==> elems[..n][i] == elems[i];
      if !IsTitleAnchor(dom, elems[n]) && LastAnchor(dom, elems[..n]).Some? {
        var i :| 0 <= i < n && elems[..n][i] == LastAnchor(dom, elems[..n]).value
                 && IsTitleAnchor(dom, elems[..n][i])
                 && forall j :: i < j < n ==> !IsTitleAnchor(dom, elems[..n][j]);
        assert elems[i] == LastAnchor(dom, elems).value;
      }
    }
  }

  /**
   * The record one listing item yields, or None when reading it raises (a source
   * label without a `span`). Fields that are not found stay empty.
   */
  function ItemRecord<E(==)>(site: Site<E>, lay: Layout, item: E, day: Date): Option<Record> {
    var dom := site.dom;
    var heads := MulticlassElements(Within(dom, item), dom.classAttr, lay.title);
    var anchor := LastAnchor(dom, heads);
    var labels := MulticlassElements(Within(dom, item), dom.classAttr, lay.source);
    if |labels| > 0 && dom.span(labels[0]).None? then None
    else
      var blocks := MulticlassElements(Within(dom, item), dom.classAttr, lay.text);
      Some(Record(
        if anchor.Some? then dom.href(anchor.value) else "",
        day,
        if |labels| > 0 then dom.text(dom.span(labels[0]).value) else "",
        if anchor.Some? then dom.text(anchor.value) else "",
        site.plainText(if |blocks| > 0 then dom.text(blocks[0]) else "")))
  }

  /** The title loop: every `a` element with text overwrites title and link, so the last one wins. */
  method TitleAndLink<E>(dom: Dom<E>, elements: seq<E>) returns (title: string, link: string)
    ensures var a := LastAnchor(dom, elements);
      && title == (if a.Some? then dom.text(a.value) else "")
      && link == (if a.Some? then dom.href(a.value) else "")
  {
    title, link := "", "";
    for i := 0 to |elements|
      invariant var a := LastAnchor(dom, elements[..i]);
        && title == (if a.Some? then dom.text(a.value) else "")
        && link == (if a.Some? then dom.href(a.value) else "")
    {
      assert elements[..i + 1][..i] == elements[..i];
      if dom.tagName(elements[i]) == "a" && dom.text(elements[i]) != "" {
        title := dom.text(elements[i]);
        link := dom.href(elements[i]);
      }
    }
    assert elements[..|elements|] == elements;
  }

  /** The body of the item loop: title and link, then source, then description. */
  method ExtractItem<E(==)>(site: Site<E>, lay: Layout, item: E, day: Date) returns (r: Option<Record>)
    ensures r == ItemRecord(site, lay, item, day)
  {
    var dom := site.dom;
    var source, desc := "", "";
    var elements := FindMulticlassElements(Within(dom, item), dom.classAttr, lay.title);
    var title, link := TitleAndLink(dom, elements);
    elements := FindMulticlassElements(Within(dom, item), dom.classAttr, lay.source);
    if |elements| > 0 {
      match dom.span(elements[0])
      case None =>
        return None;
      case Some(spanElem) =>
        source := dom.text(spanElem);
    }
    elements := FindMulticlassElements(Within(dom, item), dom.classAttr, lay.text);
    if |elements| > 0 {
      desc := dom.text(elements[0]);
    }
    r := Some(Record(link, day, source, title, site.plainText(desc)));
  }

  /** An item's record carries the collection day. */
  lemma ItemRecordDay<E>(site: Site<E>, lay: Layout, item: E, day: Date)
    requires ItemRecord(site, lay, item, day).Some?
    ensures ItemRecord(site, lay, item, day).value.date == day
  {
  }

  /** A record's date is the collection day; title and link come from one anchor, or are both empty. */
  lemma ItemRecordFields<E>(site: Site<E>, lay: Layout, item: E, day: Date)
    requires ItemRecord(site, lay, item, day).Some?
    requires site.plainText("") == ""  // html_text gives no text for an empty document
    ensures var r := ItemRecord(site, lay, item, day).value;
      var heads := MulticlassElements(Within(site.dom, item), site.dom.classAttr, lay.title);
      var labels := MulticlassElements(Within(site.dom, item), site.dom.classAttr, lay.source);
      var blocks := MulticlassElements(Within(site.dom, item), site.dom.classAttr, lay.text);
      && r.date == day
      && ((forall i :: 0 <= i < |heads| ==> !IsTitleAnchor(site.dom, heads[i])) ==> r.title == "" && r.link == "")
      && ((exists i :: 0 <= i < |heads| && IsTitleAnchor(site.dom, heads[i])) ==> r.title != "")
      && (labels == [] ==> r.source == "")
      && (blocks == [] ==> r.description == "")
  {
    var heads := MulticlassElements(Within(site.dom, item), site.dom.classAttr, lay.title);
    var a := LastAnchor(site.dom, heads);
    LastAnchorSpec(site.dom, heads);
    if a.Some? {
      var i :| 0 <= i < |heads| && heads[i] == a.value && IsTitleAnchor(site.dom, heads[i]);
    }
  }

  // ---- one listing section ----

  /**
   * The item blocks of one listing section, or None when the section fails before
   * its item loop: navigation raises, no transformer number is found (the id
   * helpers then raise on None), pagination raises, or there is no news container.
   */
  function SectionItems<E>(page: Option<Page<E>>, dom: Dom<E>, lay: Layout): Option<seq<E>> {
    match page
    case None => None
    case Some(p) =>
      match FindTransformerNum(p.source)
      case None => None
      case Some(n) =>
        if !p.expands(LoadMoreId(n)) then None
        else
          match p.byId(NewsContainerId(n))
          case None => None
          case Some(container) => Some(dom.byClass(container, lay.item))
  }

  /** `ItemRecord` for a fixed site and day, as the per-item step of a section. */
  function ItemExtractor<E(==)>(site: Site<E>, lay: Layout, day: Date): E -> Option<Record> {
    item => ItemRecord(site, lay, item, day)
  }

  /** The records a section's item loop appends before it ends or raises. */
  function SectionRecords<E>(extract: E -> Option<Record>, items: seq<E>): seq<Record> {
    if items == [] then []
    else
      match extract(items[0])
      case None => []
      case Some(r) => [r] + SectionRecords(extract, items[1..])
  }

  /**
   * Each item the loop gets through yields exactly one record, in item order; the
   * loop stops at the first item that raises, and the records before it stay.
   */
  lemma {:induction false} SectionRecordsPerItem<E>(extract: E -> Option<Record>, items: seq<E>)
    ensures var rs := SectionRecords(extract, items);
      && |rs| <= |items|
      && (forall i :: 0 <= i < |rs| ==> extract(items[i]) == Some(rs[i]))
      && (|rs| < |items| ==> extract(items[|rs|]).None?)
  {
    if items != [] && extract(items[0]).Some? {
      SectionRecordsPerItem(extract, items[1..]);
    }
  }

  /** The item loop of one section, inside its `try`: stops at the first item that raises. */
  method CollectSection<E(==)>(site: Site<E>, lay: Layout, items: seq<E>, day: Date) returns (records: seq<Record>)
    ensures records == SectionRecords(ItemExtractor(site, lay, day), items)
  {
    ghost var extract := ItemExtractor(site, lay, day);
    records := [];
    var k := 0;
    while k < |items|
      invariant 0 <= k <= |items|
      invariant SectionRecords(extract, items) == records + SectionRecords(extract, items[k..])
    {
      var r := ExtractItem(site, lay, items[k], day);
      assert r == extract(items[k]);
      if r.None? {
        return;
      }
      assert items[k..][1..] == items[k + 1..];
      records := records + [r.value];
      k := k + 1;
    }
  }

  /** A listing section's records for the page at `url`: none when the section fails before its items. */
  function SectionAt<E(==)>(site: Site<E>, lay: Layout, day: Date): string -> seq<Record> {
    url =>
      match SectionItems(site.open(url), site.dom, lay)
      case None => []
      case Some(items) => SectionRecords(ItemExtractor(site, lay, day), items)
  }

  /** The day's listing URLs (`f"{page_link}{date:%Y-%m-%d}/"`), in visiting order. */
  function DayUrls(day: Date): (urls: seq<string>)
    requires Valid(day) && day.year <= 9999
    ensures |urls| == |PageLinks|
    ensures forall i :: 0 <= i < |urls| ==> urls[i] == DayUrl(PageLinks[i], day)
  {
    seq(|PageLinks|, i requires 0 <= i < |PageLinks| => DayUrl(PageLinks[i], day))
  }

  /**
   * Each of the day's URLs is its page link, then the day's `%Y-%m-%d` text (which
   * reads back as the day), then `/`.
   */
  lemma DayUrlsOfDay(day: Date, i: nat)
    requires Valid(day) && day.year <= 9999 && i < |PageLinks|
    ensures var url := DayUrls(day)[i];
      && PageLinks[i] <= url && url[|url| - 1] == '/'
      && Parse(url[|PageLinks[i]|..|PageLinks[i]| + 10]) == Some(day)
  {
    DayUrlParts(PageLinks[i], day);
  }

  /** Every day has its own listing pages: no listing page is fetched for two different days. */
  lemma DayUrlsDistinct(a: Date, b: Date, i: nat)
    requires Valid(a) && a.year <= 9999 && Valid(b) && b.year <= 9999
    requires i < |PageLinks| && DayUrls(a)[i] == DayUrls(b)[i]
    ensures a == b
  {
    DayUrlInjective(PageLinks[i], a, b);
  }

  /** The records of the listing sections at `urls`, section after section. */
  function ListingRecords(section: string -> seq<Record>, urls: seq<string>): seq<Record> {
    if urls == [] then []
    else
      var n := |urls| - 1;
      ListingRecords(section, urls[..n]) + section(urls[n])
  }

  lemma {:induction false} ListingRecordsAppend(section: string -> seq<Record>, a: seq<string>, b: seq<string>)
    ensures ListingRecords(section, a + b) == ListingRecords(section, a) + ListingRecords(section, b)
    decreases |b|
  {
    if b == [] {
      assert a + b == a;
    } else {
      var n := |b| - 1;
      assert (a + b)[..|a + b| - 1] == a + b[..n];
      ListingRecordsAppend(section, a, b[..n]);
    }
  }

  lemma ListingRecordsSingle(section: string -> seq<Record>, u: string)
    ensures ListingRecords(section, [u]) == section(u)
  {
    assert [u][..0] == [];
  }

  /** A section that contributes nothing leaves the other sections' records, in order, as the whole. */
  lemma FailedSectionIsolated(section: string -> seq<Record>, before: seq<string>, url: string, after: seq<string>)
    requires section(url) == []
    ensures ListingRecords(section, before + [url] + after)
            == ListingRecords(section, before) + ListingRecords(section, after)
  {
    ListingRecordsAppend(section, before + [url], after);
    ListingRecordsAppend(section, before, [url]);
    ListingRecordsSingle(section, url);
  }

  /** A listing page that cannot be opened, or has no transformer number, contributes no record. */
  lemma UnavailableSectionEmpty<E>(site: Site<E>, lay: Layout, day: Date, url: string)
    requires site.open(url).None? || FindTransformerNum(site.open(url).value.source).None?
    ensures SectionAt(site, lay, day)(url) == []
  {
  }

  /** Every record in `rs` is dated `day`. */
  predicate DatedOn(rs: seq<Record>, day: Date) {
    forall j :: 0 <= j < |rs| ==> rs[j].date == day
  }

  lemma {:induction false} SectionRecordsDated<E>(site: Site<E>, lay: Layout, items: seq<E>, day: Date)
    ensures DatedOn(SectionRecords(ItemExtractor(site, lay, day), items), day)
  {
    var extract := ItemExtractor(site, lay, day);
    SectionRecordsPerItem(extract, items);
    var rs := SectionRecords(extract, items);
    forall j | 0 <= j < |rs| ensures rs[j].date == day {
      assert ItemRecord(site, lay, items[j], day) == Some(rs[j]);
      ItemRecordDay(site, lay, items[j], day);
    }
  }

  lemma SectionAtDated<E>(site: Site<E>, lay: Layout, day: Date, url: string)
    ensures DatedOn(SectionAt(site, lay, day)(url), day)
  {
    match SectionItems(site.open(url), site.dom, lay)
    case None =>
    case Some(items) => SectionRecordsDated(site, lay, items, day);
  }

  lemma {:induction false} ListingRecordsDated(section: string -> seq<Record>, urls: seq<string>, day: Date)
    requires forall u :: u in urls ==> DatedOn(section(u), day)
    ensures DatedOn(ListingRecords(section, urls), day)
  {
    if urls != [] {
      var n := |urls| - 1;
      assert forall u :: u in urls[..n] ==> u in urls;
      ListingRecordsDated(section, urls[..n], day);
      assert DatedOn(section(urls[n]), day);
    }
  }

  /** Every listing record carries the collection day as its date. */
  lemma ListingRecordsOfDay<E>(site: Site<E>, lay: Layout, day: Date)
    requires Valid(day) && day.year <= 9999
    ensures DatedOn(ListingRecords(SectionAt(site, lay, day), DayUrls(day)), day)
  {
    var section := SectionAt(site, lay, day);
    forall u | u in DayUrls(day) ensures DatedOn(section(u), day) {
      SectionAtDated(site, lay, day, u);
    }
    ListingRecordsDated(section, DayUrls(day), day);
  }

  // ---- the feed ----

  function FeedRecord(e: FeedEntry, plainText: string -> string): Record {
    Record(e.link, e.publishedDate, e.author, e.title, plainText(e.summary))
  }

  /** The feed entries published exactly at the instant the collection day starts, as records. */
  function FeedRecords(entries: seq<FeedEntry>, instant: int, plainText: string -> string): seq<Record> {
    if entries == [] then []
    else
      var n := |entries| - 1;
      var e := entries[n];
      FeedRecords(entries[..n], instant, plainText) + (if e.published == instant then [FeedRecord(e, plainText)] else [])
  }

  /** A feed record is kept exactly when its entry was published at the day's starting instant. */
  lemma {:induction false} FeedRecordsFiltered(entries: seq<FeedEntry>, instant: int, plainText: string -> string, r: Record)
    ensures r in FeedRecords(entries, instant, plainText) <==>
      exists i :: 0 <= i < |entries| && entries[i].published == instant && r == FeedRecord(entries[i], plainText)
  {
    if entries != [] {
      var n := |entries| - 1;
      FeedRecordsFiltered(entries[..n], instant, plainText, r);
      assert forall i :: 0 <= i < n ==> entries[..n][i] == entries[i];
    }
  }

  /** Filtering a feed split in two filters each part, in feed order. */
  lemma {:induction false} FeedRecordsAppend(a: seq<FeedEntry>, b: seq<FeedEntry>, instant: int, plainText: string -> string)
    ensures FeedRecords(a + b, instant, plainText)
            == FeedRecords(a, instant, plainText) + FeedRecords(b, instant, plainText)
    decreases |b|
  {
    if b == [] {
      assert a + b == a;
    } else {
      var n := |b| - 1;
      assert (a + b)[..|a + b| - 1] == a + b[..n];
      FeedRecordsAppend(a, b[..n], instant, plainText);
    }
  }

  /** One entry yields one record when published at the instant, and none otherwise. */
  lemma FeedRecordsOne(e: FeedEntry, instant: int, plainText: string -> string)
    ensures FeedRecords([e], instant, plainText)
            == if e.published == instant then [FeedRecord(e, plainText)] else []
  {
    assert [e][..0] == [];
  }

  // ---- the whole day ----

  /** Feed records carry the entries' own days, so real days stay real. */
  lemma FeedRecordsValid(entries: seq<FeedEntry>, instant: int, plainText: string -> string)
    requires forall i :: 0 <= i < |entries| ==> Valid(entries[i].publishedDate)
    ensures ValidDates(FeedRecords(entries, instant, plainText))
  {
    var rs := FeedRecords(entries, instant, plainText);
    forall j | 0 <= j < |rs| ensures Valid(rs[j].date) {
      FeedRecordsFiltered(entries, instant, plainText, rs[j]);
    }
  }

  /** Everything saved for a day whose feed could be read: all listing records, then the feed's. */
  function DayRecords<E(==)>(site: Site<E>, lay: Layout, day: Date, instant: int): seq<Record>
    requires Valid(day) && day.year <= 9999 && site.feed.Entries?
  {
    ListingRecords(SectionAt(site, lay, day), DayUrls(day)) + FeedRecords(site.feed.entries, instant, site.plainText)
  }

  /**
   * The section loop of `scrap_one_day`: each page link opened for the day, its
   * items collected, an unavailable section skipped.
   */
  method CollectListing<E(==)>(site: Site<E>, lay: Layout, day: Date) returns (news: seq<Record>)
    requires Valid(day) && day.year <= 9999
    ensures news == ListingRecords(SectionAt(site, lay, day), DayUrls(day))
    ensures ValidDates(news)
  {
    news := [];
    ghost var section := SectionAt(site, lay, day);
    ghost var urls := DayUrls(day);
    for s := 0 to |PageLinks|
      invariant news == ListingRecords(section, urls[..s])
    {
      assert urls[..s + 1][..s] == urls[..s];
      var url := DayUrl(PageLinks[s], day);
      assert url == urls[s];
      match SectionItems(site.open(url), site.dom, lay)
      case None =>
      case Some(items) =>
        var records := CollectSection(site, lay, items, day);
        news := news + records;
    }
    assert urls[..|urls|] == urls;
    ListingRecordsOfDay(site, lay, day);
  }

  /** The feed loop of `scrap_one_day`: the entries published at the day's start, in feed order. */
  method CollectFeed(entries: seq<FeedEntry>, instant: int, plainText: string -> string) returns (news: seq<Record>)
    ensures news == FeedRecords(entries, instant, plainText)
  {
    news := [];
    for i := 0 to |entries|
      invariant news == FeedRecords(entries[..i], instant, plainText)
    {
      assert entries[..i + 1][..i] == entries[..i];
      var e := entries[i];
      if e.published == instant {
        news := news + [FeedRecord(e, plainText)];
      }
    }
    assert entries[..|entries|] == entries;
  }

  /**
   * `scrap_one_day`: the listing sections one by one, each in its own failure scope,
   * then the feed, then one save. A failure while reading the feed is not caught:
   * nothing is saved and the result is false. `instant` is the day's start as an
   * instant (`date_current.timestamp()`).
   */
  method ScrapOneDay<E(==)>(store: Store, site: Site<E>, lay: Layout, day: Date, instant: int) returns (saved: bool)
    requires Valid(day) && day.year <= 9999 && DatedFeed(site.feed)
    modifies store
    ensures saved <==> site.feed.Entries?
    ensures saved ==> store.file == Saved(old(store.file), DayRecords(site, lay, day, instant))
    ensures !saved ==> store.file == old(store.file)
    ensures ValidDates(Rows(old(store.file))) ==> ValidDates(Rows(store.file))
  {
    var listed := CollectListing(site, lay, day);
    match site.feed
    case Unreadable =>
      return false;
    case Entries(entries) =>
      var fed := CollectFeed(entries, instant, site.plainText);
      FeedRecordsValid(entries, instant, site.plainText);
      ValidDatesConcat(Rows(store.file), listed + fed);
      ValidDatesConcat(listed, fed);
      store.Save(listed + fed);
      return true;
  }
}
