/** The renewal calendar: the dated entries of the listing grouped under a
    "Month Year" heading (`strftime("%B %Y")`), the groups ordered by
    `month_year_key`, which reads the heading back into a (year, month) pair. */
module Calendar {
  import opened Wrappers
  import opened Text
  import opened Dates
  import opened Listing
  import opened Sequences

  /** The full month names of `%B` in the C locale; also the keys of `month_map`. */
  const MonthNames: seq<string> := ["January", "February", "March", "April", "May", "June", "July",
                                   "August", "September", "October", "November", "December"]

  /** `expiry.strftime("%B %Y")`. The C library prints `%Y` without padding. */
  function Label(d: ValidDateTime): (l: string)
    ensures Split(l) == [MonthNames[d.month - 1], NatToString(d.year)]
  {
    var name, year := MonthNames[d.month - 1], NatToString(d.year);
    MonthNamesAreWords();
    DigitsAreWord(year);
    SplitTwoWords(name, year);
    name + " " + year
  }

  function MonthNumberFrom(name: string, i: nat): (m: int)
    requires i <= 12
    ensures i + 1 <= m <= 13
    ensures m <= 12 ==> MonthNames[m - 1] == name
    ensures m == 13 <==> forall k :: i <= k < 12 ==> MonthNames[k] != name
    decreases 12 - i
  {
    if i == 12 then 13
    else if MonthNames[i] == name then i + 1
    else MonthNumberFrom(name, i + 1)
  }

  /** `month_map.get(name, 13)`: the calendar number of a month name, 13 for
      any other string. */
  function MonthNumber(name: string): (m: int)
    ensures 1 <= m <= 13
    ensures m <= 12 ==> MonthNames[m - 1] == name
    ensures m == 13 <==> name !in MonthNames
  {
    MonthNumberFrom(name, 0)
  }

  /** The key of a heading already split into words: (9999, 13) unless there
      are exactly two words and the second is an integer literal `int()`
      accepts; then that integer and the month number of the first word,
      13 when it names no month. */
  function KeyOfWords(words: seq<string>): (k: (int, int))
    ensures |words| != 2 || ParseInt(words[1]).None? ==> k == (9999, 13)
    ensures |words| == 2 && ParseInt(words[1]).Some? ==>
              k.0 == ParseInt(words[1]).value
              && (k.1 == 13 <==> words[0] !in MonthNames)
              && 1 <= k.1 <= 13
              && (k.1 <= 12 ==> MonthNames[k.1 - 1] == words[0])
  {
    if |words| != 2 then
      (9999, 13)
    else
      match ParseInt(words[1])
      case None => (9999, 13)
      case Some(year) => (year, MonthNumber(words[0]))
  }

  /** `month_year_key`: the sort key of a heading, read from the words
      `str.split()` finds in it, which are the words of any reading of the
      heading as words separated by white space. */
  function MonthYearKey(heading: string): (k: (int, int))
    ensures forall words, gaps :: Layout(heading, words, gaps) ==> k == KeyOfWords(words)
  {
    forall words, gaps | Layout(heading, words, gaps)
      ensures words == Split(heading)
    {
      LayoutDeterminesSplit(heading, words, gaps);
    }
    KeyOfWords(Split(heading))
  }

  /** Python's tuple comparison `a <= b` on (year, month) pairs. */
  predicate KeyNotAfter(a: (int, int), b: (int, int)) {
    a.0 < b.0 || (a.0 == b.0 && a.1 <= b.1)
  }

  lemma MonthNamesDistinct()
    ensures forall i, j :: 0 <= i < j < 12 ==> MonthNames[i] != MonthNames[j]
  {
  }

  /** Two words joined by one space split back into those words. */
  lemma SplitTwoWords(a: string, b: string)
    requires |a| > 0 && NoSpace(a) && |b| > 0 && NoSpace(b)
    ensures Split(a + " " + b) == [a, b]
  {
    assert JoinSpaces([a, b]) == a + " " + b by {
      assert [a, b][1..] == [b];
    }
    SplitJoinSpaces([a, b]);
  }

  /** The key of a month name followed by the decimal digits of a year. */
  lemma KeyOfMonthAndYear(m: int, year: nat)
    requires 1 <= m <= 12 && year <= 9999
    ensures KeyOfWords([MonthNames[m - 1], NatToString(year)]) == (year, m)
  {
    assert Pow10(4) == 10000 by {
      assert Pow10(2) == 100;
    }
    NatToStringLength(year, 4);
    NatToStringParses(year);
    MonthNamesDistinct();
  }

  lemma MonthNamesAreWords()
    ensures forall i :: 0 <= i < 12 ==> |MonthNames[i]| > 0 && NoSpace(MonthNames[i])
  {
  }

  lemma DigitsAreWord(s: string)
    requires AllDigits(s)
    ensures NoSpace(s)
  {
    forall i | 0 <= i < |s|
      ensures !IsSpace(s[i])
    {
      assert IsDigit(s[i]);
    }
  }

  /** Reading a heading back gives the year and month it was printed from. */
  lemma MonthYearKeyOfLabel(d: ValidDateTime)
    ensures MonthYearKey(Label(d)) == (d.year, d.month)
  {
    var name, year := MonthNames[d.month - 1], NatToString(d.year);
    MonthNamesAreWords();
    DigitsAreWord(year);
    SplitTwoWords(name, year);
    KeyOfMonthAndYear(d.month, d.year);
  }

  /** Two dates share a heading exactly when they fall in the same month of the
      same year. */
  lemma LabelIdentifiesMonth(a: ValidDateTime, b: ValidDateTime)
    ensures Label(a) == Label(b) <==> a.year == b.year && a.month == b.month
  {
    if Label(a) == Label(b) {
      MonthYearKeyOfLabel(a);
      MonthYearKeyOfLabel(b);
    }
  }

  /** Headings compare as their months do: the key puts "March 2025" before
      "April 2025" although the strings compare the other way. */
  lemma HeadingOrderIsChronological(a: ValidDateTime, b: ValidDateTime)
    ensures KeyNotAfter(MonthYearKey(Label(a)), MonthYearKey(Label(b)))
        <==> a.year < b.year || (a.year == b.year && a.month <= b.month)
  {
    MonthYearKeyOfLabel(a);
    MonthYearKeyOfLabel(b);
  }

  /** Whether an entry has a date and the given heading. */
  predicate InMonth(e: Entry, heading: string) {
    e.expiry.Some? && Label(e.expiry.value) == heading
  }

  /** `domains_by_month[heading]`: the dated entries with that heading, in
      listing order. */
  function Members(s: seq<Entry>, heading: string): (r: seq<Entry>)
    ensures forall e :: multiset(r)[e] == if InMonth(e, heading) then multiset(s)[e] else 0
    ensures forall e :: e in r <==> e in s && InMonth(e, heading)
    ensures IsSubsequence(r, s)
  {
    var r := Filter(s, e => InMonth(e, heading));
    assert forall e :: e in r <==> e in multiset(r);
    assert forall e :: e in s <==> e in multiset(s);
    r
  }

  /** The labels of the dated entries, one per entry, in listing order. */
  function LabelsOf(s: seq<Entry>): (r: seq<string>)
    ensures forall x :: x in r <==> Members(s, x) != []
  {
    if |s| == 0 then
      []
    else
      var tail := LabelsOf(s[1..]);
      assert s == [s[0]] + s[1..];
      if s[0].expiry.Some? then
        assert Members(s, Label(s[0].expiry.value)) != [];
        [Label(s[0].expiry.value)] + tail
      else
        tail
  }

  /** The first occurrence of each string not in `seen`, in order: the keys
      of a dictionary filled in this order. */
  function FirstOccurrences(ls: seq<string>, seen: set<string>): (r: seq<string>)
    ensures forall x :: x in r <==> x in ls && x !in seen
    ensures forall i, j :: 0 <= i < j < |r| ==> r[i] != r[j]
  {
    if |ls| == 0 then
      []
    else if ls[0] in seen then
      FirstOccurrences(ls[1..], seen)
    else
      var tail := FirstOccurrences(ls[1..], seen + {ls[0]});
      assert ls == [ls[0]] + ls[1..];
      [ls[0]] + tail
  }

  /** Places `l` before the first element whose key is not smaller. */
  function InsertBy(l: string, ls: seq<string>, key: string -> (int, int)): (r: seq<string>)
    ensures multiset(r) == multiset(ls) + multiset{l}
  {
    if |ls| == 0 then
      [l]
    else if KeyNotAfter(key(l), key(ls[0])) then
      [l] + ls
    else
      assert ls == [ls[0]] + ls[1..];
      [ls[0]] + InsertBy(l, ls[1..], key)
  }

  ghost predicate SortedBy(ls: seq<string>, key: string -> (int, int)) {
    forall i, j :: 0 <= i < j < |ls| ==> KeyNotAfter(key(ls[i]), key(ls[j]))
  }

  lemma {:induction false} InsertBySorted(l: string, ls: seq<string>, key: string -> (int, int))
    requires SortedBy(ls, key)
    ensures SortedBy(InsertBy(l, ls, key), key)
  {
    if |ls| > 0 && !KeyNotAfter(key(l), key(ls[0])) {
      var t := InsertBy(l, ls[1..], key);
      InsertBySorted(l, ls[1..], key);
      forall j | 0 <= j < |t|
        ensures KeyNotAfter(key(ls[0]), key(t[j]))
      {
        assert t[j] in multiset(t);
        if t[j] != l {
          assert t[j] in multiset(ls[1..]);
          var k :| 0 <= k < |ls[1..]| && ls[1..][k] == t[j];
          assert ls[k + 1] == t[j];
        }
      }
      assert InsertBy(l, ls, key) == [ls[0]] + t;
    }
  }

  /** `sorted(ls, key=key)`, as an insertion sort. */
  function SortBy(ls: seq<string>, key: string -> (int, int)): (r: seq<string>)
    ensures multiset(r) == multiset(ls)
    ensures SortedBy(r, key)
  {
    if |ls| == 0 then
      []
    else
      assert ls == [ls[0]] + ls[1..];
      InsertBySorted(ls[0], SortBy(ls[1..], key), key);
      InsertBy(ls[0], SortBy(ls[1..], key), key)
  }

  /** One printed calendar group: its heading and its entries. */
  datatype Group = Group(heading: string, entries: seq<Entry>)

  /** The headings the calendar prints, in order: each label of a dated
      entry once, sorted by `month_year_key`. */
  function Headings(s: seq<Entry>): (hs: seq<string>)
    ensures forall x :: x in hs <==> Members(s, x) != []
    ensures forall i, j :: 0 <= i < j < |hs| ==> hs[i] != hs[j]
    ensures SortedBy(hs, MonthYearKey)
  {
    var keys := FirstOccurrences(LabelsOf(s), {});
    var hs := SortBy(keys, MonthYearKey);
    assert forall x :: x in hs <==> x in keys by {
      assert forall x :: x in hs <==> x in multiset(hs);
    }
    DistinctPermutation(keys, hs);
    hs
  }

  /** The calendar of a listing: one group per distinct heading of its dated
      entries, ordered by `month_year_key`, each holding that heading's
      entries in listing order. Every dated entry lands in the group of its
      own heading, which by the distinctness of the headings is its only
      group; undated entries land in none. */
  function GroupByMonth(s: seq<Entry>): (groups: seq<Group>)
    ensures forall i, j :: 0 <= i < j < |groups| ==> groups[i].heading != groups[j].heading
    ensures forall i :: 0 <= i < |groups| ==>
              groups[i].entries != [] && IsSubsequence(groups[i].entries, s)
    ensures forall i, e :: 0 <= i < |groups| && e in groups[i].entries ==>
              e in s && InMonth(e, groups[i].heading)
    ensures forall i, e :: 0 <= i < |groups| ==>
              multiset(groups[i].entries)[e] == if InMonth(e, groups[i].heading) then multiset(s)[e] else 0
    ensures forall e :: e in s && e.expiry.Some? ==>
              exists i :: 0 <= i < |groups| && e in groups[i].entries
    ensures forall i, j :: 0 <= i < j < |groups| ==>
              KeyNotAfter(MonthYearKey(groups[i].heading), MonthYearKey(groups[j].heading))
  {
    var hs := Headings(s);
    var groups := GroupsOf(s, hs);
    forall i | 0 <= i < |groups|
      ensures groups[i].entries != [] && IsSubsequence(groups[i].entries, s)
    {
      assert hs[i] in hs;
    }
    forall e | e in s && e.expiry.Some?
      ensures exists i :: 0 <= i < |groups| && e in groups[i].entries
    {
      var h := Label(e.expiry.value);
      assert e in Members(s, h);
      var i :| 0 <= i < |hs| && hs[i] == h;
      assert e in groups[i].entries;
    }
    groups
  }

  /** One group per heading, in the order of the headings. */
  function GroupsOf(s: seq<Entry>, hs: seq<string>): (groups: seq<Group>)
    ensures |groups| == |hs|
    ensures forall i :: 0 <= i < |hs| ==> groups[i] == Group(hs[i], Members(s, hs[i]))
  {
    if |hs| == 0 then [] else [Group(hs[0], Members(s, hs[0]))] + GroupsOf(s, hs[1..])
  }

  /** A permutation of a sequence without repetitions has none either. */
  lemma DistinctPermutation(a: seq<string>, b: seq<string>)
    requires multiset(a) == multiset(b)
    requires forall i, j :: 0 <= i < j < |a| ==> a[i] != a[j]
    ensures forall i, j :: 0 <= i < j < |b| ==> b[i] != b[j]
  {
    forall i, j | 0 <= i < j < |b|
      ensures b[i] != b[j]
    {
      if b[i] == b[j] {
        MultiplicityAtLeastTwo(b, i, j);
        DistinctMultiplicity(a, b[i]);
        assert false;
      }
    }
  }

  lemma {:induction false} MultiplicityAtLeastTwo(b: seq<string>, i: int, j: int)
    requires 0 <= i < j < |b| && b[i] == b[j]
    ensures multiset(b)[b[i]] >= 2
  {
    assert b == b[..i] + [b[i]] + b[i + 1..j] + [b[j]] + b[j + 1..];
  }

  lemma {:induction false} DistinctMultiplicity(a: seq<string>, x: string)
    requires forall i, j :: 0 <= i < j < |a| ==> a[i] != a[j]
    ensures multiset(a)[x] <= 1
  {
    if |a| > 0 {
      DistinctMultiplicity(a[1..], x);
      assert a == [a[0]] + a[1..];
      if a[0] == x {
        assert x !in a[1..];
      }
    }
  }

  /** The calendar is chronological: every entry of an earlier group expires
      in an earlier month than every entry of a later group. */
  lemma GroupsChronological(s: seq<Entry>)
    ensures var groups := GroupByMonth(s);
      forall i, j, a, b :: 0 <= i < j < |groups| && a in groups[i].entries && b in groups[j].entries ==>
        a.expiry.value.year < b.expiry.value.year
        || (a.expiry.value.year == b.expiry.value.year && a.expiry.value.month < b.expiry.value.month)
  {
    var groups := GroupByMonth(s);
    forall i, j, a, b | 0 <= i < j < |groups| && a in groups[i].entries && b in groups[j].entries
      ensures a.expiry.value.year < b.expiry.value.year
        || (a.expiry.value.year == b.expiry.value.year && a.expiry.value.month < b.expiry.value.month)
    {
      assert InMonth(a, groups[i].heading) && InMonth(b, groups[j].heading);
      EarlierHeadingEarlierMonth(a.expiry.value, b.expiry.value);
    }
  }

  /** Distinct labels in key order belong to strictly ordered months. */
  lemma EarlierHeadingEarlierMonth(da: ValidDateTime, db: ValidDateTime)
    requires Label(da) != Label(db)
    requires KeyNotAfter(MonthYearKey(Label(da)), MonthYearKey(Label(db)))
    ensures da.year < db.year || (da.year == db.year && da.month < db.month)
  {
    HeadingOrderIsChronological(da, db);
    LabelIdentifiesMonth(da, db);
  }
}
