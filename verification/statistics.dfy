/** The statistics section: how many records have auto-renew on, are locked,
    and have the WHOIS guard "ENABLED", out of the total. */
module Statistics {
  import opened Wrappers
  import opened Records

  /** The three properties the section counts. */
  datatype Counter = AutoRenewOn | Locked | WhoisGuardEnabled

  predicate Holds(c: Counter, d: DomainRecord) {
    match c
    case AutoRenewOn => d.autoRenew
    case Locked => d.isLocked
    case WhoisGuardEnabled => d.whoisGuard == Some("ENABLED")
  }

  /** The positions of the records that have property `c`. */
  ghost function Positions(ds: seq<DomainRecord>, c: Counter): set<int> {
    set i | 0 <= i < |ds| && Holds(c, ds[i])
  }

  /** `sum(1 for d in domains if …)`: the number of records with property `c`. */
  function Count(ds: seq<DomainRecord>, c: Counter): (n: nat)
    ensures n == |Positions(ds, c)|
    ensures n <= |ds|
  {
    if |ds| == 0 then
      assert Positions(ds, c) == {};
      0
    else
      var init := ds[..|ds| - 1];
      var n := Count(init, c);
      var last := |ds| - 1;
      assert forall i :: 0 <= i < last ==> ds[i] == init[i];
      if Holds(c, ds[last]) then
        assert Positions(ds, c) == Positions(init, c) + {last};
        n + 1
      else
        assert Positions(ds, c) == Positions(init, c);
        n
  }

  datatype Stats = Stats(total: nat, autoRenew: nat, locked: nat, whoisGuard: nat)

  /** The counts the section prints. `display_domains` returns before this
      point when there are no records, so a summary exists exactly when the
      total, the divisor of every percentage, is positive. */
  function Summarize(ds: seq<DomainRecord>): (r: Option<Stats>)
    ensures r.None? <==> |ds| == 0
    ensures r.Some? ==> r.value.total == |ds| > 0
    ensures r.Some? ==> r.value.autoRenew == |Positions(ds, AutoRenewOn)| <= r.value.total
    ensures r.Some? ==> r.value.locked == |Positions(ds, Locked)| <= r.value.total
    ensures r.Some? ==> r.value.whoisGuard == |Positions(ds, WhoisGuardEnabled)| <= r.value.total
  {
    if |ds| == 0 then None
    else Some(Stats(|ds|, Count(ds, AutoRenewOn), Count(ds, Locked), Count(ds, WhoisGuardEnabled)))
  }

  /** `count / total * 100` before the one-decimal rounding: the share of the
      total the count represents, a value from 0 to 100. */
  function Percentage(count: nat, total: nat): (p: real)
    requires 0 < total
    ensures p * total as real == 100.0 * count as real
    ensures count <= total ==> 0.0 <= p <= 100.0
  {
    100.0 * count as real / total as real
  }

  /** A record built from an element counts towards the WHOIS guard total
      exactly when its `WhoisGuard` attribute is the string "ENABLED";
      "enabled", "Enabled" or a missing attribute do not count. */
  lemma WhoisGuardCountsExactString(attrs: Attributes)
    ensures Holds(WhoisGuardEnabled, FromAttributes(attrs))
        <==> "WhoisGuard" in attrs && attrs["WhoisGuard"] == "ENABLED"
  {
  }
}
