/** The cases of the restore-status tests, stated on the model. */
module RestoreStatusVectors {
  import opened Prelude
  import opened RestoreStatus

  /** A restore in progress, one completed an hour ago and one expiring in an hour. */
  lemma OnDiskVectors(now: Instant)
    ensures !OnDisk(OngoingRestoreObj(), now)
    ensures !OnDisk(CompletedRestoreObj(now - 3600), now)
    ensures OnDisk(CompletedRestoreObj(now + 3600), now)
  {
  }

  /** The first test vector: the commas of the date do not end the expiry field. */
  lemma ParseCompletedVector(d: HttpDate, hdr: string, date: string)
    requires date == "Fri, 21 Dec 2012 00:00:00 GMT" && hdr == "ongoing-request=false, expiry-date=" + date
    requires d.parse(date) == Some(1356048000)
    ensures ParseRestoreObjStatus(d, hdr) == Parsed(CompletedRestoreObj(1356048000), None)
  {
    ParseCompleted(d, hdr, date, 1356048000);
  }

  /** The malformed test vector: an ongoing restore that carries an expiry date. */
  lemma RejectOngoingVector(d: HttpDate, hdr: string, date: string)
    requires date == "Fri, 21 Dec 2012 00:00:00 GMT" && hdr == "ongoing-request=true, expiry-date=" + date
    ensures ParseRestoreObjStatus(d, hdr) == Malformed
  {
    var rest := " expiry-date=" + date;
    assert hdr == "ongoing-request=true," + rest;
    RejectOngoingWithExpiry(d, hdr, rest);
  }

  /** The three metadata maps of the isRestoredObjectOnDisk test. */
  lemma IsRestoredVectors(d: HttpDate, now: Instant)
    requires FormatsAt(d, now + 3600) && FormatsAt(d, now - 3600)
    ensures !IsRestoredObjectOnDisk(d, map[AmzRestore := ToString(d, OngoingRestoreObj())], now)
    ensures IsRestoredObjectOnDisk(d, map[AmzRestore := ToString(d, CompletedRestoreObj(now + 3600))], now)
    ensures !IsRestoredObjectOnDisk(d, map[AmzRestore := ToString(d, CompletedRestoreObj(now - 3600))], now)
  {
    IsRestoredAgreesWithOnDisk(d, map[AmzRestore := ToString(d, OngoingRestoreObj())], now, OngoingRestoreObj());
    IsRestoredAgreesWithOnDisk(d, map[AmzRestore := ToString(d, CompletedRestoreObj(now + 3600))], now, CompletedRestoreObj(now + 3600));
    IsRestoredAgreesWithOnDisk(d, map[AmzRestore := ToString(d, CompletedRestoreObj(now - 3600))], now, CompletedRestoreObj(now - 3600));
  }
}
