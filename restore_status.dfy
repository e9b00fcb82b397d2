/**
 * The restore status of a transitioned object, as carried in its
 * x-amz-restore metadata: "ongoing-request=true" while a restore runs, and
 * "ongoing-request=false, expiry-date=<IMF-fixdate>" once the restored copy
 * exists, until it expires. The IMF-fixdate (section 7.1.1.1 of RFC 7231,
 * Go's http.TimeFormat) contains a comma of its own, so the header is cut at
 * its first comma only.
 *
 * Instants are whole seconds since 1970-01-01 00:00:00 UTC. The date format
 * and its parser are an abstract pair, and the current time is a parameter.
 */
module RestoreStatus {
  import opened Prelude
  import opened GoStrings

  /** Seconds since 1970-01-01 00:00:00 UTC. */
  type Instant = int

  /** Go's zero time.Time, 0001-01-01 00:00:00 UTC. */
  const ZeroTime: Instant := -62135596800

  /** The metadata key of the restore status (xhttp.AmzRestore). */
  const AmzRestore: string := "x-amz-restore"

  /** restoreObjStatus: whether a restore is still running, and when the restored copy expires. */
  datatype Status = Status(ongoing: bool, expiry: Instant)

  /** errRestoreHDRMalformed. */
  datatype Error = RestoreHeaderMalformed

  /** The (restoreObjStatus, error) pair the parser returns. */
  datatype Parsed = Parsed(status: Status, err: Option<Error>)

  /** http.TimeFormat as a pair: Time.Format and time.Parse, the latter failing with None. */
  datatype HttpDate = HttpDate(format: Instant -> string, parse: string -> Option<Instant>)

  /** The characters an IMF-fixdate is written with: letters, digits, space, comma and colon. */
  predicate DateChar(c: char)
  {
    'A' <= c <= 'Z' || 'a' <= c <= 'z' || '0' <= c <= '9' || c == ' ' || c == ',' || c == ':'
  }

  /** The date format behaves as an IMF-fixdate at t: parsing its output gives t back, and it has no '='. */
  predicate FormatsAt(d: HttpDate, t: Instant)
  {
    d.parse(d.format(t)) == Some(t) && forall k :: 0 <= k < |d.format(t)| ==> DateChar(d.format(t)[k])
  }

  /** An ongoing restore carries no expiry. */
  predicate Valid(s: Status)
  {
    s.ongoing ==> s.expiry == ZeroTime
  }

  /** ongoingRestoreObj: a restore in progress, which has no expiry yet. */
  function OngoingRestoreObj(): (s: Status)
    ensures Valid(s) && s.ongoing && Expiry(s) == None
  {
    Status(true, ZeroTime)
  }

  /** completedRestoreObj: a finished restore whose copy expires at expiry. */
  function CompletedRestoreObj(expiry: Instant): (s: Status)
    ensures Valid(s) && !s.ongoing && Expiry(s) == Some(expiry)
  {
    Status(false, expiry)
  }

  /** restoreObjStatus.Expiry: the expiry of a completed restore. */
  function Expiry(s: Status): (r: Option<Instant>)
    ensures r.Some? <==> !s.ongoing
    ensures r.Some? ==> r.value == s.expiry
  {
    if s.ongoing then None else Some(s.expiry)
  }

  /** restoreObjStatus.OnDisk: the restored copy exists now. */
  function OnDisk(s: Status, now: Instant): (b: bool)
    ensures b ==> !s.ongoing
    ensures !s.ongoing ==> (b <==> now < s.expiry)
  {
    match Expiry(s)
    case Some(e) => now < e
    case None => false
  }

  /** restoreObjStatus.String: the x-amz-restore text of s. */
  function ToString(d: HttpDate, s: Status): (r: string)
    ensures "ongoing-request=" <= r
    ensures s.ongoing ==> ',' !in r
    ensures !s.ongoing ==> ',' in r
  {
    if s.ongoing then "ongoing-request=true"
    else "ongoing-request=false, expiry-date=" + d.format(s.expiry)
  }

  /** What the parser returns on every error: the zero status and errRestoreHDRMalformed. */
  const Malformed: Parsed := Parsed(Status(false, ZeroTime), Some(RestoreHeaderMalformed))

  /** The progress field "ongoing-request=<true|false>" (white space around the key is ignored). */
  function ParseProgress(field: string): (r: Option<bool>)
  {
    var kv := Split(field, '=');
    if |kv| != 2 || TrimSpace(kv[0]) != "ongoing-request" then None
    else if kv[1] == "true" then Some(true)
    else if kv[1] == "false" then Some(false)
    else None
  }

  /** The expiry field "expiry-date=<IMF-fixdate>" (white space around the key is ignored). */
  function ParseExpiryDate(d: HttpDate, field: string): (r: Option<Instant>)
  {
    var kv := Split(field, '=');
    if |kv| != 2 || TrimSpace(kv[0]) != "expiry-date" then None
    else d.parse(kv[1])
  }

  /**
   * parseRestoreObjStatus: the header cut at its first comma into the
   * progress field and, for a completed restore, the expiry field.
   */
  function ParseRestoreObjStatus(d: HttpDate, hdr: string): (p: Parsed)
    ensures p.err.Some? ==> p == Malformed
    ensures p.err.None? ==> Valid(p.status)
    ensures p.err.None? ==> (p.status.ongoing <==> ',' !in hdr)
  {
    var tokens := Cut(hdr, ',');
    match ParseProgress(tokens[0])
    case None => Malformed
    case Some(true) => if |tokens| == 1 then Parsed(OngoingRestoreObj(), None) else Malformed
    case Some(false) =>
      if |tokens| != 2 then Malformed
      else
        match ParseExpiryDate(d, tokens[1])
        case None => Malformed
        case Some(t) => Parsed(CompletedRestoreObj(t), None)
  }

  /** isRestoredObjectOnDisk: the metadata holds a well-formed restore status whose copy exists now. */
  function IsRestoredObjectOnDisk(d: HttpDate, meta: map<string, string>, now: Instant): (b: bool)
    ensures b ==> AmzRestore in meta
    ensures b ==> ParseRestoreObjStatus(d, meta[AmzRestore]).err.None?
    ensures b ==> OnDisk(ParseRestoreObjStatus(d, meta[AmzRestore]).status, now)
  {
    if AmzRestore in meta then
      var p := ParseRestoreObjStatus(d, meta[AmzRestore]);
      p.err.None? && OnDisk(p.status, now)
    else false
  }

  // ---------------------------------------------------------------------
  // Properties
  // ---------------------------------------------------------------------

  /** The restored copy is on disk only for a completed restore, strictly before its expiry. */
  lemma OnDiskIff(s: Status, now: Instant)
    ensures OnDisk(s, now) <==> !s.ongoing && now < s.expiry
  {
  }

  /** The progress field "ongoing-request=<word>" reads as true, false, or not at all. */
  lemma ProgressField(field: string, word: string)
    requires field == "ongoing-request=" + word && '=' !in word
    ensures ParseProgress(field) == if word == "true" then Some(true) else if word == "false" then Some(false) else None
  {
    assert field == Join(["ongoing-request", word], '=');
    SplitJoin(["ongoing-request", word], '=');
    TrimSpaceOfPadded("", "ongoing-request", "");
    assert "" + "ongoing-request" + "" == "ongoing-request";
  }

  /** The expiry field " expiry-date=<date>" reads as whatever the date parser makes of the date. */
  lemma ExpiryField(d: HttpDate, field: string, date: string)
    requires field == " expiry-date=" + date && '=' !in date
    ensures ParseExpiryDate(d, field) == d.parse(date)
  {
    assert field == Join([" expiry-date", date], '=');
    SplitJoin([" expiry-date", date], '=');
    TrimSpaceOfPadded(" ", "expiry-date", "");
    assert " " + "expiry-date" + "" == " expiry-date";
  }

  /**
   * A completed header is read up to its first comma only: the commas of the
   * date stay in the expiry field.
   */
  lemma ParseCompleted(d: HttpDate, hdr: string, date: string, t: Instant)
    requires hdr == "ongoing-request=false, expiry-date=" + date
    requires '=' !in date && d.parse(date) == Some(t)
    ensures ParseRestoreObjStatus(d, hdr) == Parsed(CompletedRestoreObj(t), None)
  {
    var progress := "ongoing-request=false";
    var rest := " expiry-date=" + date;
    assert hdr == progress + [','] + rest;
    CutAt(progress, rest, ',');
    ProgressField(progress, "false");
    ExpiryField(d, rest, date);
  }

  /** "ongoing-request=true" is an ongoing restore with zero expiry. */
  lemma ParseOngoing(d: HttpDate, hdr: string)
    requires hdr == "ongoing-request=true"
    ensures ParseRestoreObjStatus(d, hdr) == Parsed(OngoingRestoreObj(), None)
  {
    CutWithoutSeparator(hdr, ',');
    ProgressField(hdr, "true");
  }

  /** An ongoing restore followed by any further field is malformed. */
  lemma RejectOngoingWithExpiry(d: HttpDate, hdr: string, rest: string)
    requires hdr == "ongoing-request=true," + rest
    ensures ParseRestoreObjStatus(d, hdr) == Malformed
  {
    var progress := "ongoing-request=true";
    assert hdr == progress + [','] + rest;
    CutAt(progress, rest, ',');
    ProgressField(progress, "true");
  }

  /** A completed restore without an expiry field is malformed. */
  lemma RejectCompletedWithoutExpiry(d: HttpDate, hdr: string)
    requires hdr == "ongoing-request=false"
    ensures ParseRestoreObjStatus(d, hdr) == Malformed
  {
    CutWithoutSeparator(hdr, ',');
    ProgressField(hdr, "false");
  }

  /**
   * Parsing the text of a valid status gives the status back, provided the
   * date format round-trips at its expiry.
   */
  lemma RoundTrip(d: HttpDate, s: Status)
    requires Valid(s)
    requires !s.ongoing ==> FormatsAt(d, s.expiry)
    ensures ParseRestoreObjStatus(d, ToString(d, s)) == Parsed(s, None)
  {
    if s.ongoing {
      ParseOngoing(d, ToString(d, s));
    } else {
      var date := d.format(s.expiry);
      assert forall k :: 0 <= k < |date| ==> date[k] != '=' by {
        assert forall k :: 0 <= k < |date| ==> DateChar(date[k]);
      }
      ParseCompleted(d, ToString(d, s), date, s.expiry);
    }
  }

  /** isRestoredObjectOnDisk reads back what String wrote: it agrees with OnDisk of the status. */
  lemma IsRestoredAgreesWithOnDisk(d: HttpDate, meta: map<string, string>, now: Instant, s: Status)
    requires AmzRestore in meta && meta[AmzRestore] == ToString(d, s)
    requires Valid(s)
    requires !s.ongoing ==> FormatsAt(d, s.expiry)
    ensures IsRestoredObjectOnDisk(d, meta, now) == OnDisk(s, now)
  {
    RoundTrip(d, s);
  }

  /** Without the x-amz-restore key, or with a malformed one, the object is not restored. */
  lemma NotRestoredWithoutStatus(d: HttpDate, meta: map<string, string>, now: Instant)
    requires AmzRestore !in meta || ParseRestoreObjStatus(d, meta[AmzRestore]).err.Some?
    ensures !IsRestoredObjectOnDisk(d, meta, now)
  {
  }
}
