/** The sorted listing of `display_domains`: every record gets its parsed
    expiry date, the records with a date are sorted by it with Python's stable
    `sorted`, and the records without one follow in input order. */
module Listing {
  import opened Wrappers
  import opened Dates
  import opened DateParse
  import opened Records
  import opened Sequences

  /** A record together with the `expiry_date_obj` the reporter attaches to it. */
  datatype Entry = Entry(domain: DomainRecord, expiry: Option<ValidDateTime>)

  function Annotate(d: DomainRecord): Entry {
    Entry(d, ParseDate(d.expires))
  }

  function AnnotateAll(ds: seq<DomainRecord>): (es: seq<Entry>)
    ensures |es| == |ds|
    ensures forall i :: 0 <= i < |ds| ==> es[i] == Annotate(ds[i])
  {
    Map(ds, Annotate)
  }

  /** The order the listing sorts by: dates chronologically, and a missing
      date after every date. */
  predicate ExpiryNotAfter(a: Option<ValidDateTime>, b: Option<ValidDateTime>) {
    b.None? || (a.Some? && NotAfter(a.value, b.value))
  }

  ghost predicate Sorted(s: seq<Entry>) {
    forall i, j :: 0 <= i < j < |s| ==> ExpiryNotAfter(s[i].expiry, s[j].expiry)
  }

  predicate HasDate(e: Entry) {
    e.expiry.Some?
  }

  predicate LacksDate(e: Entry) {
    e.expiry.None?
  }

  /** `valid_dates`: the entries with a parsed date, in input order. */
  function Dated(s: seq<Entry>): (r: seq<Entry>)
    ensures forall i :: 0 <= i < |r| ==> r[i].expiry.Some?
    ensures forall e :: multiset(r)[e] == if e.expiry.Some? then multiset(s)[e] else 0
    ensures IsSubsequence(r, s)
  {
    Filter(s, HasDate)
  }

  /** `invalid_dates`: the entries without a parsed date, in input order. */
  function Undated(s: seq<Entry>): (r: seq<Entry>)
    ensures forall i :: 0 <= i < |r| ==> r[i].expiry.None?
    ensures forall e :: multiset(r)[e] == if e.expiry.None? then multiset(s)[e] else 0
    ensures IsSubsequence(r, s)
  {
    Filter(s, LacksDate)
  }

  /** The entries whose expiry is exactly `k`, in the order they occur: a
      stable sort leaves this subsequence unchanged for every `k`. */
  function WithExpiry(s: seq<Entry>, k: Option<ValidDateTime>): seq<Entry> {
    if |s| == 0 then []
    else if s[0].expiry == k then [s[0]] + WithExpiry(s[1..], k)
    else WithExpiry(s[1..], k)
  }

  /** Inserts `e` before the first entry whose expiry is not earlier than its
      own, so that `e` precedes the entries with an equal key. */
  function Insert(e: Entry, s: seq<Entry>): (r: seq<Entry>)
    ensures multiset(r) == multiset(s) + multiset{e}
  {
    if |s| == 0 then
      [e]
    else if ExpiryNotAfter(e.expiry, s[0].expiry) then
      [e] + s
    else
      assert s == [s[0]] + s[1..];
      [s[0]] + Insert(e, s[1..])
  }

  /** `ExpiryNotAfter` is a total preorder (indeed a total order). */
  lemma ExpiryOrder(a: Option<ValidDateTime>, b: Option<ValidDateTime>, c: Option<ValidDateTime>)
    ensures ExpiryNotAfter(a, a)
    ensures ExpiryNotAfter(a, b) || ExpiryNotAfter(b, a)
    ensures ExpiryNotAfter(a, b) && ExpiryNotAfter(b, c) ==> ExpiryNotAfter(a, c)
    ensures ExpiryNotAfter(a, b) && ExpiryNotAfter(b, a) ==> a == b
  {
  }

  lemma {:induction false} InsertSorted(e: Entry, s: seq<Entry>)
    requires Sorted(s)
    ensures Sorted(Insert(e, s))
  {
    if |s| > 0 && !ExpiryNotAfter(e.expiry, s[0].expiry) {
      var t := Insert(e, s[1..]);
      InsertSorted(e, s[1..]);
      assert forall x :: x in t ==> x == e || x in s[1..] by {
        assert forall x :: x in t ==> x in multiset(t);
      }
      forall x | x in t
        ensures ExpiryNotAfter(s[0].expiry, x.expiry)
      {
        if x == e {
          ExpiryOrder(s[0].expiry, e.expiry, e.expiry);
        }
      }
      assert Insert(e, s) == [s[0]] + t;
    }
  }

  /** Python's `sorted(…, key=expiry)`: a stable insertion sort, each entry
      inserted in front of the already sorted rest. */
  function SortByExpiry(s: seq<Entry>): (r: seq<Entry>)
    ensures multiset(r) == multiset(s)
    ensures Sorted(r)
  {
    if |s| == 0 then
      []
    else
      assert s == [s[0]] + s[1..];
      InsertSorted(s[0], SortByExpiry(s[1..]));
      Insert(s[0], SortByExpiry(s[1..]))
  }

  lemma {:induction false} WithExpiryAppend(a: seq<Entry>, b: seq<Entry>, k: Option<ValidDateTime>)
    ensures WithExpiry(a + b, k) == WithExpiry(a, k) + WithExpiry(b, k)
  {
    if |a| == 0 {
      assert a + b == b;
    } else {
      assert (a + b)[1..] == a[1..] + b;
      WithExpiryAppend(a[1..], b, k);
    }
  }

  /** Inserting `e` adds it at the front of its own key's subsequence and
      leaves every other key's subsequence alone. */
  lemma {:induction false} InsertStable(e: Entry, s: seq<Entry>, k: Option<ValidDateTime>)
    ensures WithExpiry(Insert(e, s), k)
         == if e.expiry == k then [e] + WithExpiry(s, k) else WithExpiry(s, k)
  {
    if |s| > 0 && !ExpiryNotAfter(e.expiry, s[0].expiry) {
      InsertStable(e, s[1..], k);
      assert Insert(e, s)[1..] == Insert(e, s[1..]);
    }
  }

  /** The insertion sort keeps, for every key, the input order of the entries
      with that key. */
  lemma {:induction false} SortByExpiryStable(s: seq<Entry>, k: Option<ValidDateTime>)
    ensures WithExpiry(SortByExpiry(s), k) == WithExpiry(s, k)
  {
    if |s| > 0 {
      SortByExpiryStable(s[1..], k);
      InsertStable(s[0], SortByExpiry(s[1..]), k);
    }
  }

  lemma {:induction false} DatedUndatedPermutation(s: seq<Entry>)
    ensures multiset(Dated(s)) + multiset(Undated(s)) == multiset(s)
  {
    assert forall e :: (multiset(Dated(s)) + multiset(Undated(s)))[e] == multiset(s)[e];
  }

  lemma {:induction false} DatedUndatedStable(s: seq<Entry>, k: Option<ValidDateTime>)
    ensures WithExpiry(Dated(s), k) == if k.Some? then WithExpiry(s, k) else []
    ensures WithExpiry(Undated(s), k) == if k.None? then WithExpiry(s, k) else []
  {
    DatedStable(s, k);
    UndatedStable(s, k);
  }

  lemma {:induction false} DatedStable(s: seq<Entry>, k: Option<ValidDateTime>)
    ensures WithExpiry(Dated(s), k) == if k.Some? then WithExpiry(s, k) else []
  {
    if |s| > 0 {
      DatedStable(s[1..], k);
      FilterCons(s, HasDate);
      if HasDate(s[0]) {
        assert ([s[0]] + Dated(s[1..]))[1..] == Dated(s[1..]);
      }
    }
  }

  lemma {:induction false} UndatedStable(s: seq<Entry>, k: Option<ValidDateTime>)
    ensures WithExpiry(Undated(s), k) == if k.None? then WithExpiry(s, k) else []
  {
    if |s| > 0 {
      UndatedStable(s[1..], k);
      FilterCons(s, LacksDate);
      if LacksDate(s[0]) {
        assert ([s[0]] + Undated(s[1..]))[1..] == Undated(s[1..]);
      }
    }
  }

  /** Dated entries in order followed by undated ones are in listing order,
      and the dated ones are exactly the first `|a|`. */
  lemma DatedThenUndated(a: seq<Entry>, b: seq<Entry>)
    requires Sorted(a)
    requires forall i :: 0 <= i < |a| ==> a[i].expiry.Some?
    requires forall i :: 0 <= i < |b| ==> b[i].expiry.None?
    ensures Sorted(a + b)
    ensures forall i :: 0 <= i < |a + b| ==> ((a + b)[i].expiry.Some? <==> i < |a|)
  {
  }

  /** Sorting `valid_dates` keeps their number and their dates. */
  lemma SortedDated(s: seq<Entry>)
    ensures |SortByExpiry(Dated(s))| == |Dated(s)|
    ensures forall i :: 0 <= i < |SortByExpiry(Dated(s))| ==> SortByExpiry(Dated(s))[i].expiry.Some?
  {
    PermutationKeepsDates(SortByExpiry(Dated(s)), Dated(s));
  }

  lemma PermutationKeepsDates(a: seq<Entry>, b: seq<Entry>)
    requires multiset(a) == multiset(b)
    requires forall i :: 0 <= i < |b| ==> b[i].expiry.Some?
    ensures |a| == |b|
    ensures forall i :: 0 <= i < |a| ==> a[i].expiry.Some?
  {
    assert |multiset(a)| == |multiset(b)|;
    forall i | 0 <= i < |a|
      ensures a[i].expiry.Some?
    {
      assert a[i] in multiset(b);
    }
  }

  /** `sorted(valid_dates, key=…) + invalid_dates`. */
  function SortedListing(s: seq<Entry>): (r: seq<Entry>)
    ensures multiset(r) == multiset(s)
    ensures forall i :: 0 <= i < |r| ==> (r[i].expiry.Some? <==> i < |Dated(s)|)
    ensures Sorted(r)
    ensures forall k :: WithExpiry(r, k) == WithExpiry(s, k)
  {
    var sorted := SortByExpiry(Dated(s));
    SortedDated(s);
    DatedThenUndated(sorted, Undated(s));
    DatedUndatedPermutation(s);
    forall k | true
      ensures WithExpiry(sorted + Undated(s), k) == WithExpiry(s, k)
    {
      SortedListingStable(s, k);
    }
    sorted + Undated(s)
  }

  lemma SortedListingStable(s: seq<Entry>, k: Option<ValidDateTime>)
    ensures WithExpiry(SortByExpiry(Dated(s)) + Undated(s), k) == WithExpiry(s, k)
  {
    WithExpiryAppend(SortByExpiry(Dated(s)), Undated(s), k);
    SortByExpiryStable(Dated(s), k);
    DatedUndatedStable(s, k);
  }

  lemma {:induction false} WithExpiryMembers(s: seq<Entry>, k: Option<ValidDateTime>)
    ensures forall x :: x in WithExpiry(s, k) <==> x in s && x.expiry == k
  {
    if |s| > 0 {
      WithExpiryMembers(s[1..], k);
      assert s == [s[0]] + s[1..];
    }
  }

  /** Any order-preserving selection from a sorted sequence is sorted. */
  lemma {:induction false} SubsequenceSorted(r: seq<Entry>, s: seq<Entry>)
    requires IsSubsequence(r, s) && Sorted(s)
    ensures Sorted(r)
    decreases |s|
  {
    if |r| > 0 {
      if r[0] == s[0] && IsSubsequence(r[1..], s[1..]) {
        SubsequenceSorted(r[1..], s[1..]);
        SubsequenceMembers(r[1..], s[1..]);
        forall j | 0 < j < |r|
          ensures ExpiryNotAfter(r[0].expiry, r[j].expiry)
        {
          assert r[j] in r[1..];
          var k :| 0 <= k < |s[1..]| && s[1..][k] == r[j];
          assert s[k + 1] == r[j];
        }
      } else {
        SubsequenceSorted(r, s[1..]);
      }
    }
  }

  /** Sortedness and stability pin the order down: two sorted sequences
      whose entries with each key occur in the same order are equal. */
  lemma {:induction false} SortedStableUnique(a: seq<Entry>, b: seq<Entry>)
    requires Sorted(a) && Sorted(b)
    requires forall k :: WithExpiry(a, k) == WithExpiry(b, k)
    ensures a == b
    decreases |a| + |b|
  {
    if |a| == 0 && |b| > 0 {
      WithExpiryMembers(b, b[0].expiry);
    } else if |b| == 0 && |a| > 0 {
      WithExpiryMembers(a, a[0].expiry);
    } else if |a| > 0 && |b| > 0 {
      var ka, kb := a[0].expiry, b[0].expiry;
      WithExpiryMembers(a, ka);
      WithExpiryMembers(b, ka);
      WithExpiryMembers(a, kb);
      WithExpiryMembers(b, kb);
      assert a[0] in WithExpiry(b, ka);
      assert ExpiryNotAfter(kb, ka) by {
        var y :| y in b && y.expiry == ka;
        var j :| 0 <= j < |b| && b[j] == y;
        if j > 0 {
          assert ExpiryNotAfter(b[0].expiry, b[j].expiry);
        }
      }
      assert b[0] in WithExpiry(a, kb);
      assert ExpiryNotAfter(ka, kb) by {
        var y :| y in a && y.expiry == kb;
        var j :| 0 <= j < |a| && a[j] == y;
        if j > 0 {
          assert ExpiryNotAfter(a[0].expiry, a[j].expiry);
        }
      }
      ExpiryOrder(ka, kb, ka);
      assert ka == kb;
      assert WithExpiry(a, ka)[0] == a[0];
      assert WithExpiry(b, ka)[0] == b[0];
      forall k | true
        ensures WithExpiry(a[1..], k) == WithExpiry(b[1..], k)
      {
        if k == ka {
          assert WithExpiry(a[1..], k) == WithExpiry(a, k)[1..];
          assert WithExpiry(b[1..], k) == WithExpiry(b, k)[1..];
        } else {
          assert WithExpiry(a[1..], k) == WithExpiry(a, k);
          assert WithExpiry(b[1..], k) == WithExpiry(b, k);
        }
      }
      SortedStableUnique(a[1..], b[1..]);
      assert a == [a[0]] + a[1..];
      assert b == [b[0]] + b[1..];
    }
  }

  /** Splitting off the undated entries before sorting changes nothing: the
      listing is the one stable sort of all entries in which a missing date
      counts as later than every date. */
  lemma ListingIsOneStableSort(s: seq<Entry>)
    ensures SortedListing(s) == SortByExpiry(s)
  {
    forall k | true
      ensures WithExpiry(SortedListing(s), k) == WithExpiry(SortByExpiry(s), k)
    {
      SortByExpiryStable(s, k);
    }
    SortedStableUnique(SortedListing(s), SortByExpiry(s));
  }

  /** The listing of the reporter: every record annotated with its parsed
      expiry date, then put in listing order. */
  function ListingOf(domains: seq<DomainRecord>): (r: seq<Entry>)
    ensures |r| == |domains|
    ensures forall d :: multiset(r)[Annotate(d)] == multiset(domains)[d]
    ensures forall e :: e in r ==> e == Annotate(e.domain)
    ensures Sorted(r)
  {
    var r := SortedListing(AnnotateAll(domains));
    forall d | true
      ensures multiset(r)[Annotate(d)] == multiset(domains)[d]
    {
      AnnotateAllCounts(domains, d);
    }
    assert forall e :: e in r ==> e in multiset(AnnotateAll(domains));
    r
  }

  /** Each record occurs among the annotated entries exactly as often as in
      the input. */
  lemma AnnotateAllCounts(ds: seq<DomainRecord>, d: DomainRecord)
    ensures multiset(AnnotateAll(ds))[Annotate(d)] == multiset(ds)[d]
  {
    MapCounts(ds, Annotate, (e: Entry) => e.domain, d);
  }
}
