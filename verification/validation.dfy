/** The manifest check that runs before any restore: records are examined
    in order, each one's requester is added to the alert recipients, and the
    first record that fails a check aborts the whole run. */
module Validation {
  import opened Wrappers
  import opened Manifest

  /** Why a run was aborted. `ContentsAbsent` is the listing response
      without a "Contents" entry, which the script does not guard against. */
  datatype ValidationError = RequiredFieldMissing | NoFileNameOrDate | ContentsAbsent

  /** How the walk over the manifest ended: `Passed(examined)` after the
      last record or after the record whose listing was empty, or
      `Aborted(reason, at)` at the record that failed. */
  datatype Verdict = Passed(examined: nat) | Aborted(reason: ValidationError, at: nat)

  /** The verdict and every recipient gathered on the way. */
  datatype Report = Report(recipients: seq<string>, verdict: Verdict)

  /** The number of records whose requester was added before the walk ended. */
  function Examined(v: Verdict): nat
  {
    match v
    case Passed(n) => n
    case Aborted(_, at) => at + 1
  }

  /** The listing of the record's prefix has a "Contents" entry with at
      least one key in it. */
  predicate ListsObjects(rec: Record, listing: Lister)
  {
    var contents := listing(rec.bucket, PartialPath(rec)).contents;
    contents.Some? && |contents.value| > 0
  }

  /** What one record does to the walk. */
  datatype Check = Continue | Stop | Fail(reason: ValidationError)

  /** The checks on one record, in the script's order: the prefix listing
      (no "Contents" crashes, an empty listing stops the walk), then the six
      mandatory fields, then the need for a file name or a date. The script's
      test of the database name against the listing entries compares a
      string with records and never fires, so it has no counterpart here. */
  function CheckRecord(rec: Record, listing: Lister): (c: Check)
    ensures c.Continue? <==>
      && ListsObjects(rec, listing)
      && !MissingRequired(rec)
      && (rec.fileName != "" || rec.lastModified != "")
    ensures c.Stop? <==> listing(rec.bucket, PartialPath(rec)).contents == Some([])
    ensures listing(rec.bucket, PartialPath(rec)).contents.None? ==> c == Fail(ContentsAbsent)
  {
    match listing(rec.bucket, PartialPath(rec)).contents
    case None => Fail(ContentsAbsent)
    case Some(keys) =>
      if |keys| == 0 then Stop
      else if MissingRequired(rec) then Fail(RequiredFieldMissing)
      else if rec.fileName == "" && rec.lastModified == "" then Fail(NoFileNameOrDate)
      else Continue
  }

  /** How each record is checked; `CheckRecord` with the run's listing
      fixed. */
  type Checker = Record -> Check

  /** `CheckRecord` against one listing of the bucket. */
  function Checks(listing: Lister): (check: Checker)
    ensures forall rec :: check(rec) == CheckRecord(rec, listing)
  {
    rec => CheckRecord(rec, listing)
  }

  /** Every record in `records[lo..hi]` passes its checks. */
  predicate AllContinue(records: seq<Record>, check: Checker, lo: int, hi: int)
    requires 0 <= lo && hi <= |records|
  {
    forall j | lo <= j < hi :: check(records[j]).Continue?
  }

  /** The walk from record `i` on. The verdict is decided by the first
      record that does not pass: it stops the walk with success when its
      listing is empty and aborts with its failure otherwise; with no such
      record the walk passes the whole manifest. Recipients are those of
      every examined record, in order, the deciding record included. */
  function Walk(records: seq<Record>, check: Checker, i: nat, recipients: seq<string>): (r: Report)
    requires i <= |records|
    decreases |records| - i
    ensures i <= Examined(r.verdict) <= |records|
    ensures r.recipients == recipients + Emails(records[i..Examined(r.verdict)])
    ensures AllContinue(records, check, i, Examined(r.verdict) - 1)
    ensures r.verdict.Aborted? ==>
      r.verdict.at < |records| && check(records[r.verdict.at]) == Fail(r.verdict.reason)
    ensures r.verdict.Passed? ==>
      || (r.verdict.examined == |records| && AllContinue(records, check, i, |records|))
      || (i < r.verdict.examined && check(records[r.verdict.examined - 1]).Stop?)
  {
    if i == |records| then Report(recipients, Passed(i))
    else
      var rec := records[i];
      var recipients' := recipients + [rec.email];
      match check(rec)
      case Fail(e) => Report(recipients', Aborted(e, i))
      case Stop => Report(recipients', Passed(i + 1))
      case Continue =>
        var r := Walk(records, check, i + 1, recipients');
        var n := Examined(r.verdict);
        assert records[i..n][0] == rec && records[i..n][1..] == records[i + 1..n];
        AddRecipients(recipients, records[i..n]);
        assert AllContinue(records, check, i, n - 1);
        r
  }

  /** The whole manifest check, adding to the recipients gathered so far. */
  function CsvFileCheck(records: seq<Record>, listing: Lister, recipients: seq<string>): (r: Report)
    ensures Examined(r.verdict) <= |records|
    ensures r.recipients == recipients + Emails(records[..Examined(r.verdict)])
  {
    Walk(records, Checks(listing), 0, recipients)
  }

  /** The first record that does not pass is the last one examined, and its
      check is the verdict. */
  lemma WalkDecidedBy(records: seq<Record>, check: Checker, recipients: seq<string>, j: nat)
    requires j < |records| && AllContinue(records, check, 0, j)
    requires !check(records[j]).Continue?
    ensures Examined(Walk(records, check, 0, recipients).verdict) == j + 1
    ensures Walk(records, check, 0, recipients).verdict
         == if check(records[j]).Stop? then Passed(j + 1) else Aborted(check(records[j]).reason, j)
  {
    var r := Walk(records, check, 0, recipients);
    assert Examined(r.verdict) >= 1;
    assert check(records[Examined(r.verdict) - 1]) != Continue;
  }

  /** A reached record with a non-empty listing and an empty mandatory field
      aborts the run there. */
  lemma MissingFieldAborts(records: seq<Record>, listing: Lister, recipients: seq<string>, j: nat)
    requires j < |records| && AllContinue(records, Checks(listing), 0, j)
    requires ListsObjects(records[j], listing)
    requires MissingRequired(records[j])
    ensures CsvFileCheck(records, listing, recipients).verdict == Aborted(RequiredFieldMissing, j)
  {
    WalkDecidedBy(records, Checks(listing), recipients, j);
  }

  /** A reached record with its mandatory fields, a non-empty listing, and
      neither a file name nor a date aborts the run there. */
  lemma NoFileNameOrDateAborts(records: seq<Record>, listing: Lister, recipients: seq<string>, j: nat)
    requires j < |records| && AllContinue(records, Checks(listing), 0, j)
    requires ListsObjects(records[j], listing)
    requires !MissingRequired(records[j]) && records[j].fileName == "" && records[j].lastModified == ""
    ensures CsvFileCheck(records, listing, recipients).verdict == Aborted(NoFileNameOrDate, j)
  {
    WalkDecidedBy(records, Checks(listing), recipients, j);
  }

  /** A reached record whose listing is empty ends the walk with success;
      its requester is the last one added. */
  lemma EmptyListingStops(records: seq<Record>, listing: Lister, recipients: seq<string>, j: nat)
    requires j < |records| && AllContinue(records, Checks(listing), 0, j)
    requires listing(records[j].bucket, PartialPath(records[j])).contents == Some([])
    ensures CsvFileCheck(records, listing, recipients)
         == Report(recipients + Emails(records[..j + 1]), Passed(j + 1))
  {
    WalkDecidedBy(records, Checks(listing), recipients, j);
  }

  /** A manifest whose every record passes its checks is examined to the
      end and reported as complete. */
  lemma AllValidPasses(records: seq<Record>, listing: Lister, recipients: seq<string>)
    requires AllContinue(records, Checks(listing), 0, |records|)
    ensures CsvFileCheck(records, listing, recipients) == Report(recipients + Emails(records), Passed(|records|))
  {
    var r := Walk(records, Checks(listing), 0, recipients);
    var n := Examined(r.verdict);
    assert 0 < n ==> Checks(listing)(records[n - 1]).Continue?;
    assert records[..|records|] == records;
  }

  /** The run aborts exactly when some record fails its checks after every
      record before it passed; otherwise it reports success. */
  lemma AbortIffReachedFailure(records: seq<Record>, listing: Lister, recipients: seq<string>)
    ensures CsvFileCheck(records, listing, recipients).verdict.Aborted? <==>
      exists j | 0 <= j < |records| ::
        CheckRecord(records[j], listing).Fail? && AllContinue(records, Checks(listing), 0, j)
  {
    var check := Checks(listing);
    var r := Walk(records, check, 0, recipients);
    if r.verdict.Aborted? {
      var at := r.verdict.at;
      assert CheckRecord(records[at], listing).Fail? && AllContinue(records, check, 0, at);
    } else {
      forall j | 0 <= j < |records| && AllContinue(records, check, 0, j)
        ensures !CheckRecord(records[j], listing).Fail?
      {
        if CheckRecord(records[j], listing).Fail? {
          WalkDecidedBy(records, check, recipients, j);
        }
      }
    }
  }

  /** Records after the one that ended the walk are never looked at:
      replacing them by anything gives the same report. */
  lemma {:induction false} LaterRecordsUnchecked(records: seq<Record>, listing: Lister, recipients: seq<string>, rest: seq<Record>)
    requires CsvFileCheck(records, listing, recipients).verdict != Passed(|records|)
          || (0 < |records| && CheckRecord(records[|records| - 1], listing).Stop?)
    ensures var n := Examined(CsvFileCheck(records, listing, recipients).verdict);
      CsvFileCheck(records[..n] + rest, listing, recipients) == CsvFileCheck(records, listing, recipients)
  {
    var n := Examined(CsvFileCheck(records, listing, recipients).verdict);
    WalkPrefix(records, records[..n] + rest, Checks(listing), 0, n, recipients);
  }

  /** Two manifests agreeing on `records[i..n]`, where the walk from `i`
      ends at record `n - 1`, give the same walk from `i`. */
  lemma {:induction false} WalkPrefix(records: seq<Record>, other: seq<Record>, check: Checker, i: nat, n: nat, recipients: seq<string>)
    requires i < n <= |records| && n <= |other|
    requires records[i..n] == other[i..n]
    requires AllContinue(records, check, i, n - 1) && !check(records[n - 1]).Continue?
    ensures Walk(other, check, i, recipients) == Walk(records, check, i, recipients)
    decreases n - i
  {
    assert records[i] == other[i];
    if i < n - 1 {
      assert records[i + 1..n] == other[i + 1..n];
      WalkPrefix(records, other, check, i + 1, n, recipients + [records[i].email]);
    } else {
      assert records[i] == records[n - 1];
    }
  }
}
