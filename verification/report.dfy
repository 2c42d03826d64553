/** `display_domains` as a whole: the early return on an empty list, the
    sorted listing with one note per row, the upcoming renewals, the
    statistics and the calendar. Printing is replaced by the data each
    section prints. */
module Report {
  import opened Wrappers
  import opened Dates
  import opened Records
  import opened Listing
  import opened Renewals
  import opened Statistics
  import opened Calendar

  /** One line of the main table: the entry, its days-left note and the text
      of the name and WHOIS guard columns. */
  datatype Row = Row(entry: Entry, note: Note, name: string, whoisGuard: string)

  /** What the four sections print. */
  datatype ReportData = ReportData(
    listing: seq<Entry>,
    rows: seq<Row>,
    upcoming: seq<Entry>,
    stats: Stats,
    calendar: seq<Group>)

  /** The early return, a `TypeError` raised while printing row `row` of the
      table, or a complete report. */
  datatype Outcome = NoDomains | Failed(row: nat) | Shown(report: ReportData)

  /** Whether the name and WHOIS guard columns of a record can be printed:
      `format(None, "<30")` raises `TypeError`, so both must be present. */
  predicate Printable(d: DomainRecord) {
    d.name.Some? && d.whoisGuard.Some?
  }

  /** The index of the first entry whose row cannot be printed, or `|s|`. */
  function FirstUnprintable(s: seq<Entry>): (i: nat)
    ensures i <= |s|
    ensures forall j :: 0 <= j < i ==> Printable(s[j].domain)
    ensures i < |s| ==> !Printable(s[i].domain)
  {
    if |s| == 0 then 0
    else if !Printable(s[0].domain) then 0
    else 1 + FirstUnprintable(s[1..])
  }

  /** The text shown for an optional field: the value, or "N/A". */
  function OrNotAvailable(v: Option<string>): (t: string)
    ensures v.Some? ==> t == v.value
    ensures v.None? ==> t == "N/A"
  {
    match v
    case Some(x) => x
    case None => "N/A"
  }

  function RowOf(e: Entry, now: ValidDateTime): Row {
    Row(e, NoteOf(e, now), OrNotAvailable(e.domain.name), OrNotAvailable(e.domain.whoisGuard))
  }

  /** One row per listing entry, in listing order. */
  function Rows(s: seq<Entry>, now: ValidDateTime): (rows: seq<Row>)
    ensures |rows| == |s|
    ensures forall i :: 0 <= i < |s| ==>
              rows[i].entry == s[i] && rows[i].note == NoteOf(s[i], now)
              && (s[i].domain.name.Some? ==> rows[i].name == s[i].domain.name.value)
              && (s[i].domain.name.None? ==> rows[i].name == "N/A")
              && (s[i].domain.whoisGuard.Some? ==> rows[i].whoisGuard == s[i].domain.whoisGuard.value)
              && (s[i].domain.whoisGuard.None? ==> rows[i].whoisGuard == "N/A")
  {
    if |s| == 0 then [] else [RowOf(s[0], now)] + Rows(s[1..], now)
  }

  function Sections(domains: seq<DomainRecord>, now: ValidDateTime): ReportData
    requires |domains| > 0
  {
    var s := ListingOf(domains);
    ReportData(s, Rows(s, now), Upcoming(s, now), Summarize(domains).value, GroupByMonth(s))
  }

  /** `display_domains(domains)` as written: a missing name or WHOIS guard
      stops it at the first such row of the sorted table. */
  function DisplayAsWritten(domains: seq<DomainRecord>, now: ValidDateTime): (r: Outcome)
    ensures r.NoDomains? <==> |domains| == 0
    ensures r.Failed? <==> |domains| > 0 && exists d :: d in domains && !Printable(d)
    ensures r.Failed? ==> var s := ListingOf(domains);
              r.row < |s| && !Printable(s[r.row].domain)
              && forall j :: 0 <= j < r.row ==> Printable(s[j].domain)
  {
    if |domains| == 0 then
      NoDomains
    else
      var s := ListingOf(domains);
      var i := FirstUnprintable(s);
      UnprintableInListing(domains, s);
      if i < |s| then Failed(i) else Shown(Sections(domains, now))
  }

  lemma UnprintableInListing(domains: seq<DomainRecord>, s: seq<Entry>)
    requires |s| == |domains|
    requires forall d :: multiset(s)[Annotate(d)] == multiset(domains)[d]
    requires forall e :: e in s ==> e == Annotate(e.domain)
    ensures (exists i :: 0 <= i < |s| && !Printable(s[i].domain)) <==> exists d :: d in domains && !Printable(d)
  {
    if exists i :: 0 <= i < |s| && !Printable(s[i].domain) {
      var i :| 0 <= i < |s| && !Printable(s[i].domain);
      assert multiset(s)[Annotate(s[i].domain)] > 0;
    }
    if exists d :: d in domains && !Printable(d) {
      var d :| d in domains && !Printable(d);
      assert Annotate(d) in multiset(s);
      assert Annotate(d).domain == d;
    }
  }

  /** `display_domains(domains)` with an absent name or WHOIS guard shown as
      "N/A", as the expiry and creation columns already are. It never fails:
      an empty list takes the early return, anything else gets every section. */
  function DisplayDomains(domains: seq<DomainRecord>, now: ValidDateTime): (r: Outcome)
    ensures r.NoDomains? <==> |domains| == 0
    ensures !r.Failed?
    ensures r.Shown? ==> var data := r.report;
              && data.listing == ListingOf(domains)
              && data.rows == Rows(data.listing, now)
              && data.upcoming == Upcoming(data.listing, now)
              && Summarize(domains) == Some(data.stats)
              && data.calendar == GroupByMonth(data.listing)
  {
    if |domains| == 0 then NoDomains else Shown(Sections(domains, now))
  }

  /** When every record has a name and a WHOIS guard, the corrected report
      and the report as written are the same. */
  lemma CorrectionAgreesWhenPrintable(domains: seq<DomainRecord>, now: ValidDateTime)
    requires forall d :: d in domains ==> Printable(d)
    ensures DisplayAsWritten(domains, now) == DisplayDomains(domains, now)
  {
  }

  /** A `<Domain>` element with a name but no `WhoisGuard` attribute. */
  const NoWhoisGuard: Attributes := map["Name" := "example.com"]

  /** As written, one such element is enough to stop the report at its row. */
  lemma MissingWhoisGuardFails(now: ValidDateTime)
    ensures DisplayAsWritten([FromAttributes(NoWhoisGuard)], now) == Failed(0)
  {
    var d := FromAttributes(NoWhoisGuard);
    assert d in [d] && !Printable(d);
    var s := ListingOf([d]);
    assert s[0] == Annotate(s[0].domain);
    assert multiset(s)[Annotate(s[0].domain)] == multiset([d])[s[0].domain];
  }

  /** The corrected report prints that element's row with "N/A". */
  lemma MissingWhoisGuardShown(now: ValidDateTime)
    ensures var r := DisplayDomains([FromAttributes(NoWhoisGuard)], now);
      r.Shown? && r.report.rows[0].whoisGuard == "N/A" && r.report.rows[0].name == "example.com"
  {
    var d := FromAttributes(NoWhoisGuard);
    var s := ListingOf([d]);
    assert s[0] == Annotate(s[0].domain);
    assert multiset(s)[Annotate(s[0].domain)] == multiset([d])[s[0].domain];
    assert s[0].domain == d;
  }
}
