/** The domain record `get_domains` builds from the attributes of each
    `<Domain>` element of the registrar's response. The XML traversal itself is
    outside the model: an element is represented by its attribute map. */
module Records {
  import opened Wrappers

  /** The attributes of one `<Domain>` element, by attribute name. */
  type Attributes = map<string, string>

  /** One registered domain. The string fields are `None` when the element
      lacks the attribute; the flags are plain booleans. */
  datatype DomainRecord = DomainRecord(
    id: Option<string>,
    name: Option<string>,
    user: Option<string>,
    created: Option<string>,
    expires: Option<string>,
    isExpired: bool,
    isLocked: bool,
    autoRenew: bool,
    whoisGuard: Option<string>,
    isPremium: bool,
    isOurDns: bool)

  /** `element.attrib.get(key)` */
  function Get(attrs: Attributes, key: string): Option<string> {
    if key in attrs then Some(attrs[key]) else None
  }

  /** `element.attrib.get(key) == "true"`: only the exact lower-case literal
      sets a flag; an absent attribute, `"True"`, `"1"` or anything else
      leaves it false. */
  function Flag(attrs: Attributes, key: string): (b: bool)
    ensures b <==> key in attrs && attrs[key] == "true"
  {
    Get(attrs, key) == Some("true")
  }

  /** The attribute names the record reads. */
  const RecordKeys: set<string> := {"ID", "Name", "User", "Created", "Expires", "IsExpired",
                                    "IsLocked", "AutoRenew", "WhoisGuard", "IsPremium", "IsOurDNS"}

  /** The dictionary `get_domains` builds for one element. */
  function FromAttributes(attrs: Attributes): (d: DomainRecord)
    ensures d.isExpired <==> "IsExpired" in attrs && attrs["IsExpired"] == "true"
    ensures d.isLocked <==> "IsLocked" in attrs && attrs["IsLocked"] == "true"
    ensures d.autoRenew <==> "AutoRenew" in attrs && attrs["AutoRenew"] == "true"
    ensures d.isPremium <==> "IsPremium" in attrs && attrs["IsPremium"] == "true"
    ensures d.isOurDns <==> "IsOurDNS" in attrs && attrs["IsOurDNS"] == "true"
    ensures d.expires.Some? <==> "Expires" in attrs
    ensures d.expires.Some? ==> d.expires.value == attrs["Expires"]
    ensures d.whoisGuard.Some? <==> "WhoisGuard" in attrs
    ensures d.whoisGuard.Some? ==> d.whoisGuard.value == attrs["WhoisGuard"]
    ensures d.id.Some? <==> "ID" in attrs
    ensures d.id.Some? ==> d.id.value == attrs["ID"]
    ensures d.name.Some? <==> "Name" in attrs
    ensures d.name.Some? ==> d.name.value == attrs["Name"]
    ensures d.user.Some? <==> "User" in attrs
    ensures d.user.Some? ==> d.user.value == attrs["User"]
    ensures d.created.Some? <==> "Created" in attrs
    ensures d.created.Some? ==> d.created.value == attrs["Created"]
  {
    DomainRecord(
      id := Get(attrs, "ID"),
      name := Get(attrs, "Name"),
      user := Get(attrs, "User"),
      created := Get(attrs, "Created"),
      expires := Get(attrs, "Expires"),
      isExpired := Flag(attrs, "IsExpired"),
      isLocked := Flag(attrs, "IsLocked"),
      autoRenew := Flag(attrs, "AutoRenew"),
      whoisGuard := Get(attrs, "WhoisGuard"),
      isPremium := Flag(attrs, "IsPremium"),
      isOurDns := Flag(attrs, "IsOurDNS"))
  }

  /** The loop over the `<Domain>` elements: one record per element, in
      document order. */
  function FromElements(elements: seq<Attributes>): (ds: seq<DomainRecord>)
    ensures |ds| == |elements|
    ensures forall i :: 0 <= i < |elements| ==> ds[i] == FromAttributes(elements[i])
  {
    if |elements| == 0 then [] else [FromAttributes(elements[0])] + FromElements(elements[1..])
  }

  function FlagText(b: bool): string {
    if b then "true" else "false"
  }

  /** The value a well-formed element carries under `key` for record `d`:
      a string field when it is present, a flag spelled `"true"` or `"false"`. */
  function AttributeOf(d: DomainRecord, key: string): Option<string> {
    if key == "ID" then d.id
    else if key == "Name" then d.name
    else if key == "User" then d.user
    else if key == "Created" then d.created
    else if key == "Expires" then d.expires
    else if key == "WhoisGuard" then d.whoisGuard
    else if key == "IsExpired" then Some(FlagText(d.isExpired))
    else if key == "IsLocked" then Some(FlagText(d.isLocked))
    else if key == "AutoRenew" then Some(FlagText(d.autoRenew))
    else if key == "IsPremium" then Some(FlagText(d.isPremium))
    else if key == "IsOurDNS" then Some(FlagText(d.isOurDns))
    else None
  }

  /** The attribute map of an element that describes `d`. */
  function ToAttributes(d: DomainRecord): Attributes {
    map k | k in RecordKeys && AttributeOf(d, k).Some? :: AttributeOf(d, k).value
  }

  /** Every record is recovered from the attributes of an element that
      describes it. */
  lemma FromToAttributes(d: DomainRecord)
    ensures FromAttributes(ToAttributes(d)) == d
  {
    var m := ToAttributes(d);
    assert forall k :: k in RecordKeys ==> Get(m, k) == AttributeOf(d, k);
  }

  /** Attributes the record does not read have no effect on it. */
  lemma OnlyRecordKeysMatter(a: Attributes, b: Attributes)
    requires forall k :: k in RecordKeys ==> Get(a, k) == Get(b, k)
    ensures FromAttributes(a) == FromAttributes(b)
  {
    assert forall k :: k in RecordKeys ==> Flag(a, k) == Flag(b, k);
  }
}
