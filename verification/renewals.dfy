/** The per-record annotation of the listing and the upcoming-renewals view,
    both driven by the number of whole days left until expiry. */
module Renewals {
  import opened Dates
  import opened Listing
  import opened Sequences

  /** What the listing prints after an expiry date: the days left and
      "RENEW SOON!", "EXPIRED!", the days left alone, or nothing when the
      date did not parse. */
  datatype Note = NoNote | RenewSoon(days: int) | Expired | DaysRemaining(days: int)

  /** The three-way test on the days left. */
  function Classify(days: int): (n: Note)
    ensures n.RenewSoon? <==> 0 < days <= 30
    ensures n.Expired? <==> days <= 0
    ensures n.DaysRemaining? <==> 30 < days
    ensures !n.NoNote?
    ensures n.RenewSoon? || n.DaysRemaining? ==> n.days == days
  {
    if 0 < days <= 30 then RenewSoon(days)
    else if days <= 0 then Expired
    else DaysRemaining(days)
  }

  /** The note for one listed entry at time `now`. */
  function NoteOf(e: Entry, now: ValidDateTime): (n: Note)
    ensures n.NoNote? <==> e.expiry.None?
  {
    if e.expiry.None? then NoNote else Classify(DaysLeft(e.expiry.value, now))
  }

  /** Position of a note in listing order. */
  function Rank(n: Note): nat {
    match n
    case Expired => 0
    case RenewSoon(_) => 1
    case DaysRemaining(_) => 2
    case NoNote => 3
  }

  lemma ClassifyMonotone(a: int, b: int)
    requires a <= b
    ensures Rank(Classify(a)) <= Rank(Classify(b))
  {
  }

  /** Down a sorted listing the notes come in the order: expired, renew soon,
      plain days left, no date. */
  lemma NotesFollowListingOrder(s: seq<Entry>, now: ValidDateTime)
    requires Sorted(s)
    ensures forall i, j :: 0 <= i < j < |s| ==> Rank(NoteOf(s[i], now)) <= Rank(NoteOf(s[j], now))
  {
    forall i, j | 0 <= i < j < |s|
      ensures Rank(NoteOf(s[i], now)) <= Rank(NoteOf(s[j], now))
    {
      assert ExpiryNotAfter(s[i].expiry, s[j].expiry);
      if s[j].expiry.Some? {
        DaysLeftMonotone(s[i].expiry.value, s[j].expiry.value, now);
        ClassifyMonotone(DaysLeft(s[i].expiry.value, now), DaysLeft(s[j].expiry.value, now));
      }
    }
  }

  /** The condition of the upcoming-renewals comprehension. */
  predicate InWindow(e: Entry, now: ValidDateTime) {
    e.expiry.Some? && 0 < DaysLeft(e.expiry.value, now) <= 90
  }

  /** `upcoming`: the listed entries with a date and between 1 and 90 days left. */
  function Upcoming(s: seq<Entry>, now: ValidDateTime): (r: seq<Entry>)
    ensures forall e :: multiset(r)[e] == if InWindow(e, now) then multiset(s)[e] else 0
    ensures forall i :: 0 <= i < |r| ==> InWindow(r[i], now)
    ensures IsSubsequence(r, s)
  {
    Filter(s, e => InWindow(e, now))
  }

  /** An entry is upcoming exactly when its note is "RENEW SOON!" or a plain
      count of at most 90 days: every renew-soon entry is upcoming and no
      expired or undated entry is. */
  lemma UpcomingMatchesNotes(e: Entry, now: ValidDateTime)
    ensures InWindow(e, now)
        <==> (NoteOf(e, now).RenewSoon? || (NoteOf(e, now).DaysRemaining? && NoteOf(e, now).days <= 90))
  {
  }

  /** Taken from a sorted listing, the upcoming entries have non-decreasing
      days left. */
  lemma UpcomingDaysAscending(s: seq<Entry>, now: ValidDateTime)
    requires Sorted(s)
    ensures var r := Upcoming(s, now);
      forall i, j :: 0 <= i < j < |r| ==> DaysLeft(r[i].expiry.value, now) <= DaysLeft(r[j].expiry.value, now)
  {
    var r := Upcoming(s, now);
    SubsequenceSorted(r, s);
    forall i, j | 0 <= i < j < |r|
      ensures DaysLeft(r[i].expiry.value, now) <= DaysLeft(r[j].expiry.value, now)
    {
      assert ExpiryNotAfter(r[i].expiry, r[j].expiry);
      DaysLeftMonotone(r[i].expiry.value, r[j].expiry.value, now);
    }
  }
}
