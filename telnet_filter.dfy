/**
 * The connection filter's allow-list: the `allowedips` property split at
 * commas, and a connection admitted when its address text equals one of
 * the entries exactly.
 */
module TelnetFilter {

  import opened Outcomes
  import opened Terminal
  import opened Text

  const Comma: CodeUnit := 44

  /** What loading the properties file yields. */
  datatype Properties =
    | Unreadable                          // the file is missing or reading it failed
    | Loaded(allowedips: Option<JString>) // the `allowedips` property, if present

  /**
   * `isAllowed`: false when the file cannot be read; a missing property
   * throws from `split`; otherwise true exactly when an entry of the split
   * equals the address text.
   */
  function Allowed(props: Properties, ip: JString): (r: Result<bool, Fault>)
  {
    match props
    case Unreadable => Ok(false)
    case Loaded(None) => Err(NullPointer)
    case Loaded(Some(list)) => Ok(ip in JavaSplit(list, Comma))
  }

  /** `isAllowed` with its loop over the entries and the early return. */
  method IsAllowed(props: Properties, ip: JString) returns (r: Result<bool, Fault>)
    ensures r == Allowed(props, ip)
  {
    if props.Unreadable? {
      return Ok(false);
    }
    if props.allowedips.None? {
      return Err(NullPointer);
    }
    var ips := JavaSplit(props.allowedips.value, Comma);
    for i := 0 to |ips|
      invariant ip !in ips[..i]
    {
      if ips[i] == ip {
        return Ok(true);
      }
      assert ips[..i + 1] == ips[..i] + [ips[i]];
    }
    assert ips[..|ips|] == ips;
    return Ok(false);
  }

  /**
   * For a real address text (never empty) the split is immaterial: the
   * connection is admitted exactly when the text is one of the
   * comma-separated fields.
   */
  lemma AllowedIffField(list: JString, ip: JString)
    requires ip != []
    ensures Allowed(Loaded(Some(list)), ip) == Ok(ip in Fields(list, Comma))
  {
    SplitKeepsNonEmptyFields(list, Comma, ip);
  }

  /**
   * An allow-list written as comma-joined entries admits exactly those
   * entries, compared as whole strings.
   */
  lemma {:induction false} AllowedIffListed(entries: seq<JString>, ip: JString)
    requires |entries| >= 1 && ip != []
    requires forall j :: 0 <= j < |entries| ==> Comma !in entries[j]
    ensures Allowed(Loaded(Some(Join(entries, Comma))), ip) == Ok(ip in entries)
  {
    AllowedIffField(Join(entries, Comma), ip);
    FieldsOfJoin(entries, Comma);
  }

  /**
   * Entries are not trimmed: an entry written with a space before the
   * address never admits that address.
   */
  lemma PaddedEntryRejected(ip: JString)
    requires ip != [] && Comma !in ip && ip[0] != Space
    ensures Allowed(Loaded(Some([Space] + ip)), ip) == Ok(false)
  {
    AllowedIffListed([[Space] + ip], ip);
  }

}
