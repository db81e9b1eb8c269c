/** Resolving each restore request to an object key. A request without a
    file name is matched by date against the listing of its prefix; a
    request with one is confirmed by an existence probe and dropped from the
    restore list when the probe fails. The walk ends at the first request
    that resolves. */
module Resolution {
  import opened Wrappers
  import opened Text
  import opened Dates
  import opened Manifest

  /** The script's test on a listed key, `prefix and database and altered in
      key`: both names must be non-empty and the key must contain the date. */
  function DateMatch(key: string, prefix: string, database: string, altered: string): (m: bool)
    ensures m ==> |altered| <= |key|
  {
    prefix != "" && database != "" && Contains(key, altered)
  }

  /** The line-172 test in full: a key matches exactly when the prefix and
      the database name are non-empty and the key is some text, then the
      searched date, then some more text. */
  lemma DateMatchIff(key: string, prefix: string, database: string, altered: string)
    ensures DateMatch(key, prefix, database, altered)
        <==> prefix != "" && database != "" && exists before: string, after: string :: key == before + altered + after
  {
    if DateMatch(key, prefix, database, altered) {
      var i :| 0 <= i <= |key| - |altered| && OccursAt(altered, key, i);
      assert key == key[..i] + altered + key[i + |altered|..];
    }
    if prefix != "" && database != "" && exists before: string, after: string :: key == before + altered + after {
      var before: string, after: string :| key == before + altered + after;
      EmbeddedDateMatches(before, altered, after, prefix, database);
    }
  }

  /** A key that embeds the searched date anywhere matches it exactly when
      the prefix and the database name are both non-empty. */
  lemma EmbeddedDateMatches(before: string, altered: string, after: string, prefix: string, database: string)
    ensures DateMatch(before + altered + after, prefix, database, altered) <==> prefix != "" && database != ""
  {
    var key := before + altered + after;
    assert key[|before|..|before| + |altered|] == altered;
    assert OccursAt(altered, key, |before|);
  }

  /** The index of the first key at or after `from`, in listing order, that
      matches the date. */
  function FirstMatch(keys: seq<string>, prefix: string, database: string, altered: string, from: nat): (r: Option<nat>)
    requires from <= |keys|
    decreases |keys| - from
    ensures r.Some? ==> from <= r.value < |keys| && DateMatch(keys[r.value], prefix, database, altered)
    ensures r.Some? ==> forall j | from <= j < r.value :: !DateMatch(keys[j], prefix, database, altered)
    ensures r.None? <==> forall j | from <= j < |keys| :: !DateMatch(keys[j], prefix, database, altered)
  {
    if from == |keys| then None
    else if DateMatch(keys[from], prefix, database, altered) then Some(from)
    else FirstMatch(keys, prefix, database, altered, from + 1)
  }

  /** No listed key matches the date. */
  predicate NoDateMatch(keys: seq<string>, prefix: string, database: string, altered: string)
  {
    forall j | 0 <= j < |keys| :: !DateMatch(keys[j], prefix, database, altered)
  }

  /** `key` is the first listed key, in listing order, that matches the
      date. */
  predicate FirstDateMatch(keys: seq<string>, prefix: string, database: string, altered: string, key: string)
  {
    exists k | 0 <= k < |keys| ::
      && key == keys[k]
      && DateMatch(keys[k], prefix, database, altered)
      && forall j | 0 <= j < k :: !DateMatch(keys[j], prefix, database, altered)
  }

  /** What examining one request yields. `Resolved` carries the object name
      and key the script returns; `Unmatched` is a date with no matching key
      (the request stays and the walk goes on); `Dropped` is a failed
      existence probe (the request is removed and the walk goes on);
      `ContentsAbsent` is a listing without "Contents", which ends the run. */
  datatype Step =
    | Resolved(name: string, key: string)
    | Unmatched
    | Dropped(outcome: ProbeOutcome)
    | ContentsAbsent

  /** The date a request is searched by: its last-modified date, padded and
      reordered to `YYYYMMDD`. */
  function SearchDate(rec: Record): (altered: string)
    ensures |rec.lastModified| == 7 || |rec.lastModified| == 8 ==> |altered| == 8
    ensures RestoreDate(altered) == PadDate(rec.lastModified)
  {
    RestoreAlteredDate(PadDate(rec.lastModified));
    AlterDate(PadDate(rec.lastModified))
  }

  /** A request without a file name, searched under `prefix` for database
      `database` by the date `altered`: the first listed key that matches
      gives the object, named by the part of the key after its last '/'. */
  function ResolveByDate(keys: seq<string>, prefix: string, database: string, altered: string): (s: Step)
    ensures s.Resolved? || s.Unmatched?
    ensures s.Unmatched? <==> NoDateMatch(keys, prefix, database, altered)
    ensures s.Resolved? ==> prefix != "" && database != "" && s.name == Leaf(s.key)
    ensures s.Resolved? ==> FirstDateMatch(keys, prefix, database, altered, s.key)
  {
    match FirstMatch(keys, prefix, database, altered, 0)
    case Some(k) => Resolved(Leaf(keys[k]), keys[k])
    case None => Unmatched
  }

  /** A request with a file name: the object under its prefix is probed; it
      resolves to itself when it exists and is dropped otherwise. */
  function ResolveByProbe(rec: Record, probe: Prober): (s: Step)
    ensures s.Resolved? || s.Dropped?
    ensures s.Resolved? <==> probe(rec.bucket, ObjectKey(rec)) == Exists
    ensures s.Resolved? ==> s == Resolved(rec.fileName, ObjectKey(rec))
    ensures s.Dropped? ==> s.outcome == probe(rec.bucket, ObjectKey(rec))
  {
    match probe(rec.bucket, ObjectKey(rec))
    case Exists => Resolved(rec.fileName, ObjectKey(rec))
    case NotFound => Dropped(NotFound)
    case OtherError => Dropped(OtherError)
  }

  /** Examining one request, with the storage calls supplied by `listing` and
      `probe`: the listing is read first for every request, whichever way it
      is then resolved. A request without a file name resolves to the first
      listed key matching its search date, named by that key's leaf; one
      with a file name resolves to its own key exactly when the probe finds
      the object, and is dropped with the probe's outcome otherwise. */
  function ResolveRecord(rec: Record, listing: Lister, probe: Prober): (s: Step)
    ensures s.ContentsAbsent? <==> listing(rec.bucket, PartialPath(rec)).contents.None?
    ensures listing(rec.bucket, PartialPath(rec)).contents.Some? && rec.fileName == "" ==>
      var keys := listing(rec.bucket, PartialPath(rec)).contents.value;
      && (s.Resolved? || s.Unmatched?)
      && (s.Unmatched? <==> NoDateMatch(keys, PartialPath(rec), rec.database, SearchDate(rec)))
      && (s.Resolved? ==> s.name == Leaf(s.key) && FirstDateMatch(keys, PartialPath(rec), rec.database, SearchDate(rec), s.key))
    ensures listing(rec.bucket, PartialPath(rec)).contents.Some? && rec.fileName != "" ==>
      && (s.Resolved? || s.Dropped?)
      && (s.Resolved? <==> probe(rec.bucket, ObjectKey(rec)) == Exists)
      && (s.Resolved? ==> s == Resolved(rec.fileName, ObjectKey(rec)))
      && (s.Dropped? ==> s.outcome == probe(rec.bucket, ObjectKey(rec)))
  {
    match listing(rec.bucket, PartialPath(rec)).contents
    case None => ContentsAbsent
    case Some(keys) =>
      if rec.fileName == "" then ResolveByDate(keys, PartialPath(rec), rec.database, SearchDate(rec)) else ResolveByProbe(rec, probe)
  }

  /** A resolved request's record: the name found is written into its file
      name and nothing else about it changes. */
  function WithFileName(rec: Record, name: string): (r: Record)
    ensures r.fileName == name
    ensures r.(fileName := rec.fileName) == rec
  {
    rec.(fileName := name)
  }

  /** The state of the restore list after the walk: the remaining requests,
      the alert recipients gathered, and the `(file name, key)` pair the
      script returns, if any. */
  datatype Resolution = Resolution(records: seq<Record>, recipients: seq<string>, resolved: Option<(string, string)>)

  /** How each request is examined; `ResolveRecord` with the run's storage
      calls fixed. */
  type Stepper = Record -> Step

  /** `ResolveRecord` with one run's storage calls. */
  function Steps(listing: Lister, probe: Prober): (step: Stepper)
    ensures forall rec :: step(rec) == ResolveRecord(rec, listing, probe)
  {
    rec => ResolveRecord(rec, listing, probe)
  }

  /** A step that ends the walk. */
  predicate Decisive(s: Step)
  {
    s.Resolved? || s.ContentsAbsent?
  }

  /** The position of the first request that ends the walk. */
  function FirstDecisive(rs: seq<Record>, step: Stepper): (r: Option<nat>)
    ensures r.Some? ==> r.value < |rs| && Decisive(step(rs[r.value]))
    ensures r.Some? ==> forall j | 0 <= j < r.value :: !Decisive(step(rs[j]))
    ensures r.None? <==> forall j | 0 <= j < |rs| :: !Decisive(step(rs[j]))
  {
    if |rs| == 0 then None
    else if Decisive(step(rs[0])) then Some(0)
    else match FirstDecisive(rs[1..], step)
      case None => None
      case Some(d) => Some(d + 1)
  }

  /** The requests that stay on the list once examined: all but those whose
      existence probe failed, in their original order. */
  function Survivors(rs: seq<Record>, step: Stepper): seq<Record>
  {
    if |rs| == 0 then []
    else if step(rs[0]).Dropped? then Survivors(rs[1..], step)
    else [rs[0]] + Survivors(rs[1..], step)
  }

  /** What examining the requests `tail`, after the requests `kept` already
      examined and kept, should leave behind, stated without the walk:
      everything up to the first decisive request is examined, failed
      probes are gone, a resolved request gets its file name and everything
      after it is untouched. */
  function Expected(kept: seq<Record>, tail: seq<Record>, step: Stepper, recipients: seq<string>): Result<Resolution, Record>
  {
    match FirstDecisive(tail, step)
    case None =>
      Ok(Resolution(kept + Survivors(tail, step), recipients + Emails(tail), None))
    case Some(d) =>
      match step(tail[d])
      case Resolved(name, key) =>
        Ok(Resolution(
          kept + Survivors(tail[..d], step) + [WithFileName(tail[d], name)] + tail[d + 1..],
          recipients + Emails(tail[..d + 1]),
          Some((name, key))))
      case _ => Err(tail[d])
  }

  /** The corrected walk over the live restore list, examining `live[pos]`
      next. A failed probe removes the request at `pos` and the walk stays
      at `pos`, so the request that moves into that place is examined next.
      This is the evidently intended iteration; the script's own loop, which
      steps past that request, is `WalkAsWritten`. */
  function Walk(live: seq<Record>, pos: nat, step: Stepper, recipients: seq<string>): (r: Result<Resolution, Record>)
    requires pos <= |live|
    decreases |live| - pos
    ensures r.Ok? ==> |r.value.records| <= |live|
    ensures r.Ok? ==> |recipients| <= |r.value.recipients| <= |recipients| + |live| - pos
    ensures r.Ok? && r.value.resolved.Some? ==> |r.value.recipients| > |recipients|
  {
    if pos == |live| then Ok(Resolution(live, recipients, None))
    else
      var rec := live[pos];
      match step(rec)
      case ContentsAbsent => Err(rec)
      case Resolved(name, key) =>
        Ok(Resolution(live[pos := WithFileName(rec, name)], recipients + [rec.email], Some((name, key))))
      case Unmatched => Walk(live, pos + 1, step, recipients + [rec.email])
      case Dropped(_) => Walk(live[..pos] + live[pos + 1..], pos, step, recipients + [rec.email])
  }

  /** The walk over the live list reaches the outcome `Expected` describes
      for the requests from `pos` on. */
  lemma {:induction false} WalkMeetsExpected(live: seq<Record>, pos: nat, step: Stepper, recipients: seq<string>)
    requires pos <= |live|
    decreases |live| - pos
    ensures Walk(live, pos, step, recipients) == Expected(live[..pos], live[pos..], step, recipients)
  {
    if pos == |live| {
      assert live[..pos] == live && live[pos..] == [];
      ExpectedAtEnd(live, step, recipients);
    } else {
      var rec := live[pos];
      var tail := live[pos..];
      assert tail[0] == rec && tail[1..] == live[pos + 1..];
      match step(rec)
      case ContentsAbsent =>
        ExpectedAbsentHead(live[..pos], tail, step, recipients);
      case Resolved(name, key) =>
        ExpectedResolvedHead(live[..pos], tail, step, recipients);
        assert live[pos := WithFileName(rec, name)] == live[..pos] + [WithFileName(rec, name)] + tail[1..];
      case Unmatched =>
        ExpectedStep(live[..pos], tail, step, recipients);
        assert live[..pos + 1] == live[..pos] + [rec];
        WalkMeetsExpected(live, pos + 1, step, recipients + [rec.email]);
      case Dropped(_) =>
        ExpectedStep(live[..pos], tail, step, recipients);
        var live' := live[..pos] + live[pos + 1..];
        assert live'[..pos] == live[..pos] + [] && live'[pos..] == tail[1..];
        WalkMeetsExpected(live', pos, step, recipients + [rec.email]);
    }
  }

  /** With nothing left to examine, the kept requests are the list. */
  lemma ExpectedAtEnd(kept: seq<Record>, step: Stepper, recipients: seq<string>)
    ensures Expected(kept, [], step, recipients) == Ok(Resolution(kept, recipients, None))
  {
    assert Emails([]) == [] && Survivors([], step) == [];
    assert kept + [] == kept && recipients + [] == recipients;
  }

  /** A listing without "Contents" for the next request ends the run. */
  lemma ExpectedAbsentHead(kept: seq<Record>, tail: seq<Record>, step: Stepper, recipients: seq<string>)
    requires 0 < |tail| && step(tail[0]).ContentsAbsent?
    ensures Expected(kept, tail, step, recipients) == Err(tail[0])
  {
    assert FirstDecisive(tail, step) == Some(0);
  }

  /** A next request that resolves gets its file name and ends the walk. */
  lemma ExpectedResolvedHead(kept: seq<Record>, tail: seq<Record>, step: Stepper, recipients: seq<string>)
    requires 0 < |tail| && step(tail[0]).Resolved?
    ensures Expected(kept, tail, step, recipients)
         == Ok(Resolution(kept + [WithFileName(tail[0], step(tail[0]).name)] + tail[1..],
                          recipients + [tail[0].email],
                          Some((step(tail[0]).name, step(tail[0]).key))))
  {
    assert FirstDecisive(tail, step) == Some(0);
    assert tail[..0] == [] && Survivors([], step) == [] && kept + [] == kept;
    assert tail[..1] == [tail[0]] && Emails([tail[0]]) == [tail[0].email];
  }

  /** Facts about a tail at a position `d` of the rest of it. */
  lemma TailCons(tail: seq<Record>, step: Stepper, d: nat)
    requires 0 < |tail| && d < |tail| - 1
    ensures tail[..d + 2][0] == tail[0] && tail[..d + 2][1..] == tail[1..][..d + 1]
    ensures tail[d + 2..] == tail[1..][d + 1..]
    ensures tail[d + 1] == tail[1..][d]
    ensures Survivors(tail[..d + 1], step)
         == (if step(tail[0]).Dropped? then [] else [tail[0]]) + Survivors(tail[1..][..d], step)
  {
    assert tail[..d + 1][0] == tail[0];
    assert tail[..d + 1][1..] == tail[1..][..d];
  }

  /** Examining a request that does not end the walk moves it to the kept
      requests, or drops it, without changing the expected outcome. */
  lemma {:induction false} ExpectedStep(kept: seq<Record>, tail: seq<Record>, step: Stepper, recipients: seq<string>)
    requires 0 < |tail| && !Decisive(step(tail[0]))
    ensures Expected(kept, tail, step, recipients)
         == Expected(kept + (if step(tail[0]).Dropped? then [] else [tail[0]]), tail[1..], step, recipients + [tail[0].email])
  {
    match FirstDecisive(tail[1..], step)
    case None => ExpectedStepUndecided(kept, tail, step, recipients);
    case Some(d) => ExpectedStepDecided(kept, tail, step, recipients, d);
  }

  lemma {:induction false} ExpectedStepUndecided(kept: seq<Record>, tail: seq<Record>, step: Stepper, recipients: seq<string>)
    requires 0 < |tail| && !Decisive(step(tail[0])) && FirstDecisive(tail[1..], step).None?
    ensures Expected(kept, tail, step, recipients)
         == Expected(kept + (if step(tail[0]).Dropped? then [] else [tail[0]]), tail[1..], step, recipients + [tail[0].email])
  {
    var head := if step(tail[0]).Dropped? then [] else [tail[0]];
    assert FirstDecisive(tail, step) == None;
    assert Survivors(tail, step) == head + Survivors(tail[1..], step);
    assert kept + Survivors(tail, step) == (kept + head) + Survivors(tail[1..], step);
    AddRecipients(recipients, tail);
  }

  lemma {:induction false} ExpectedStepDecided(kept: seq<Record>, tail: seq<Record>, step: Stepper, recipients: seq<string>, d: nat)
    requires 0 < |tail| && !Decisive(step(tail[0])) && FirstDecisive(tail[1..], step) == Some(d)
    ensures Expected(kept, tail, step, recipients)
         == Expected(kept + (if step(tail[0]).Dropped? then [] else [tail[0]]), tail[1..], step, recipients + [tail[0].email])
  {
    TailCons(tail, step, d);
    if step(tail[d + 1]).Resolved? {
      ExpectedStepResolved(kept, tail, step, recipients, d);
    } else {
      assert FirstDecisive(tail, step) == Some(d + 1);
      assert Expected(kept, tail, step, recipients) == Err(tail[d + 1]);
      assert Expected(kept + (if step(tail[0]).Dropped? then [] else [tail[0]]), tail[1..], step, recipients + [tail[0].email])
          == Err(tail[d + 1]);
    }
  }

  lemma {:induction false} ExpectedStepResolved(kept: seq<Record>, tail: seq<Record>, step: Stepper, recipients: seq<string>, d: nat)
    requires 0 < |tail| && !Decisive(step(tail[0])) && FirstDecisive(tail[1..], step) == Some(d)
    requires d < |tail| - 1 && step(tail[d + 1]).Resolved?
    ensures Expected(kept, tail, step, recipients)
         == Expected(kept + (if step(tail[0]).Dropped? then [] else [tail[0]]), tail[1..], step, recipients + [tail[0].email])
  {
    var head := if step(tail[0]).Dropped? then [] else [tail[0]];
    var rest := tail[1..];
    TailCons(tail, step, d);
    assert FirstDecisive(tail, step) == Some(d + 1);
    var x := tail[d + 1];
    var w := WithFileName(x, step(x).name);
    ExpectedResolvedForm(kept, tail, step, recipients, d + 1);
    ExpectedResolvedForm(kept + head, rest, step, recipients + [tail[0].email], d);
    var recordsL := kept + Survivors(tail[..d + 1], step) + [w] + tail[d + 2..];
    var recordsR := (kept + head) + Survivors(rest[..d], step) + [w] + rest[d + 1..];
    assert kept + Survivors(tail[..d + 1], step) == (kept + head) + Survivors(rest[..d], step);
    assert recordsL == recordsR;
    AddRecipients(recipients, tail[..d + 2]);
    assert recipients + Emails(tail[..d + 2]) == (recipients + [tail[0].email]) + Emails(rest[..d + 1]);
  }

  /** The expected outcome when the request at `d` is the first to end the
      walk and resolves. */
  lemma ExpectedResolvedForm(kept: seq<Record>, tail: seq<Record>, step: Stepper, recipients: seq<string>, d: nat)
    requires FirstDecisive(tail, step) == Some(d) && step(tail[d]).Resolved?
    ensures Expected(kept, tail, step, recipients)
         == Ok(Resolution(kept + Survivors(tail[..d], step) + [WithFileName(tail[d], step(tail[d]).name)] + tail[d + 1..],
                          recipients + Emails(tail[..d + 1]), Some((step(tail[d]).name, step(tail[d]).key))))
  {
  }

  /** The file name check over the whole restore list, by the corrected
      walk: every request is examined until one resolves. */
  function FileNameCheck(records: seq<Record>, listing: Lister, probe: Prober, recipients: seq<string>): (r: Result<Resolution, Record>)
    ensures r == Expected([], records, Steps(listing, probe), recipients)
  {
    assert records[..0] == [] && records[0..] == records;
    WalkMeetsExpected(records, 0, Steps(listing, probe), recipients);
    Walk(records, 0, Steps(listing, probe), recipients)
  }

  /** With no request ending the walk, the expected outcome keeps the
      survivors and adds every requester. */
  lemma ExpectedUndecided(records: seq<Record>, step: Stepper, recipients: seq<string>)
    requires forall j | 0 <= j < |records| :: !Decisive(step(records[j]))
    ensures Expected([], records, step, recipients)
         == Ok(Resolution(Survivors(records, step), recipients + Emails(records), None))
  {
    assert FirstDecisive(records, step).None?;
    assert [] + Survivors(records, step) == Survivors(records, step);
  }

  /** With request `j` the first to end the walk and resolving, the
      expected outcome is decided by it. */
  lemma ExpectedResolvedAt(records: seq<Record>, step: Stepper, recipients: seq<string>, j: nat)
    requires j < |records| && step(records[j]).Resolved?
    requires forall i | 0 <= i < j :: !Decisive(step(records[i]))
    ensures Expected([], records, step, recipients)
         == Ok(Resolution(
              Survivors(records[..j], step) + [WithFileName(records[j], step(records[j]).name)] + records[j + 1..],
              recipients + Emails(records[..j + 1]),
              Some((step(records[j]).name, step(records[j]).key))))
  {
    assert FirstDecisive(records, step) == Some(j);
    assert [] + Survivors(records[..j], step) == Survivors(records[..j], step);
  }

  /** With only unmatched requests before it, a resolving request `j` is
      the one request the expected outcome changes. */
  lemma ExpectedResolvedInPlace(records: seq<Record>, step: Stepper, recipients: seq<string>, j: nat)
    requires j < |records| && step(records[j]).Resolved?
    requires forall i | 0 <= i < j :: step(records[i]).Unmatched?
    ensures Expected([], records, step, recipients)
         == Ok(Resolution(
              records[j := WithFileName(records[j], step(records[j]).name)],
              recipients + Emails(records[..j + 1]),
              Some((step(records[j]).name, step(records[j]).key))))
    ensures WalkAsWritten(records, 0, step, recipients) == Walk(records, 0, step, recipients)
  {
    AsWrittenAgreesUpToResolution(records, step, recipients, j);
    ExpectedResolvedAt(records, step, recipients, j);
    SurvivorsAllKept(records[..j], step);
    assert records[..j] + [WithFileName(records[j], step(records[j]).name)] + records[j + 1..]
        == records[j := WithFileName(records[j], step(records[j]).name)];
  }

  /** A run that resolves nothing examines every request: the requests whose
      probe failed are gone, the others stay in order, and every requester
      is added. */
  lemma UnresolvedRunExaminesAll(records: seq<Record>, listing: Lister, probe: Prober, recipients: seq<string>)
    requires forall j | 0 <= j < |records| :: !Decisive(ResolveRecord(records[j], listing, probe))
    ensures FileNameCheck(records, listing, probe, recipients)
         == Ok(Resolution(Survivors(records, Steps(listing, probe)), recipients + Emails(records), None))
  {
    ExpectedUndecided(records, Steps(listing, probe), recipients);
  }

  /** The first request that resolves ends the walk: every request before
      it has been examined, the ones whose probe failed are gone, it gets
      its file name, and the requests after it are untouched. */
  lemma FirstResolvedWins(records: seq<Record>, listing: Lister, probe: Prober, recipients: seq<string>, j: nat)
    requires j < |records| && ResolveRecord(records[j], listing, probe).Resolved?
    requires forall i | 0 <= i < j :: !Decisive(ResolveRecord(records[i], listing, probe))
    ensures var s := ResolveRecord(records[j], listing, probe);
      FileNameCheck(records, listing, probe, recipients)
      == Ok(Resolution(
           Survivors(records[..j], Steps(listing, probe)) + [records[j].(fileName := s.name)] + records[j + 1..],
           recipients + Emails(records[..j + 1]),
           Some((s.name, s.key))))
  {
    ExpectedResolvedAt(records, Steps(listing, probe), recipients, j);
  }

  /** Requests that are never dropped all survive, in order. */
  lemma {:induction false} SurvivorsAllKept(rs: seq<Record>, step: Stepper)
    requires forall j | 0 <= j < |rs| :: !step(rs[j]).Dropped?
    ensures Survivors(rs, step) == rs
  {
    if |rs| > 0 {
      assert !step(rs[0]).Dropped?;
      SurvivorsAllKept(rs[1..], step);
      assert rs == [rs[0]] + rs[1..];
    }
  }

  /** Filtering out dropped requests works piece by piece. */
  lemma {:induction false} SurvivorsAppend(a: seq<Record>, b: seq<Record>, step: Stepper)
    ensures Survivors(a + b, step) == Survivors(a, step) + Survivors(b, step)
  {
    if |a| == 0 {
      assert a + b == b;
    } else {
      assert (a + b)[0] == a[0];
      assert (a + b)[1..] == a[1..] + b;
      SurvivorsAppend(a[1..], b, step);
    }
  }

  /** With every request but `j` unmatched and `j` dropped, the expected
      list is the input without request `j`. */
  lemma ExpectedDropOne(records: seq<Record>, step: Stepper, recipients: seq<string>, j: nat)
    requires j < |records| && step(records[j]).Dropped?
    requires forall i | 0 <= i < |records| && i != j :: step(records[i]).Unmatched?
    ensures Expected([], records, step, recipients)
         == Ok(Resolution(records[..j] + records[j + 1..], recipients + Emails(records), None))
  {
    ExpectedUndecided(records, step, recipients);
    assert records == records[..j] + ([records[j]] + records[j + 1..]);
    SurvivorsAppend(records[..j], [records[j]] + records[j + 1..], step);
    assert ([records[j]] + records[j + 1..])[1..] == records[j + 1..];
    SurvivorsAllKept(records[..j], step);
    SurvivorsAllKept(records[j + 1..], step);
  }

  /** A single failed existence probe removes exactly that request: the list
      shrinks by one and every other request keeps its place in the order. */
  lemma FailedProbeRemovesOnlyThatRecord(records: seq<Record>, listing: Lister, probe: Prober, recipients: seq<string>, j: nat)
    requires j < |records| && records[j].fileName != ""
    requires listing(records[j].bucket, PartialPath(records[j])).contents.Some?
    requires probe(records[j].bucket, ObjectKey(records[j])) != Exists
    requires forall i | 0 <= i < |records| && i != j :: ResolveRecord(records[i], listing, probe).Unmatched?
    ensures FileNameCheck(records, listing, probe, recipients)
         == Ok(Resolution(records[..j] + records[j + 1..], recipients + Emails(records), None))
  {
    var step := Steps(listing, probe);
    assert step(records[j]).Dropped?;
    ExpectedDropOne(records, step, recipients, j);
  }

  /** A named request whose object exists resolves to its name and key. */
  lemma ProbedRecordResolves(rec: Record, listing: Lister, probe: Prober)
    requires rec.fileName != "" && listing(rec.bucket, PartialPath(rec)).contents.Some?
    requires probe(rec.bucket, ObjectKey(rec)) == Exists
    ensures ResolveRecord(rec, listing, probe) == Resolved(rec.fileName, ObjectKey(rec))
  {
  }

  /** A successful existence probe keeps the list as it is, and the script
      returns the given file name with the key built from it. */
  lemma SuccessfulProbeKeepsList(records: seq<Record>, listing: Lister, probe: Prober, recipients: seq<string>, j: nat)
    requires j < |records| && records[j].fileName != ""
    requires listing(records[j].bucket, PartialPath(records[j])).contents.Some?
    requires probe(records[j].bucket, ObjectKey(records[j])) == Exists
    requires forall i | 0 <= i < j :: ResolveRecord(records[i], listing, probe).Unmatched?
    ensures FileNameCheck(records, listing, probe, recipients)
         == Ok(Resolution(records, recipients + Emails(records[..j + 1]), Some((records[j].fileName, ObjectKey(records[j])))))
    ensures FileNameCheckAsWritten(records, listing, probe, recipients) == FileNameCheck(records, listing, probe, recipients)
  {
    var step := Steps(listing, probe);
    ProbedRecordResolves(records[j], listing, probe);
    CheckAgreesUpToResolution(records, listing, probe, recipients, j);
    ExpectedKeepsNamed(records, step, recipients, j);
  }

  /** With only unmatched requests before it, a request that resolves under
      its own file name leaves the expected list as it was. */
  lemma ExpectedKeepsNamed(records: seq<Record>, step: Stepper, recipients: seq<string>, j: nat)
    requires j < |records| && step(records[j]).Resolved? && step(records[j]).name == records[j].fileName
    requires forall i | 0 <= i < j :: step(records[i]).Unmatched?
    ensures Expected([], records, step, recipients)
         == Ok(Resolution(records, recipients + Emails(records[..j + 1]), Some((records[j].fileName, step(records[j]).key))))
  {
    ExpectedResolvedInPlace(records, step, recipients, j);
    assert records[j := records[j].(fileName := records[j].fileName)] == records;
  }

  /** A request resolved by date changes only its own file name: the list
      keeps its length, and every other request, and every other field of
      this one, is as it was. */
  lemma DateResolutionUpdatesOnlyFileName(records: seq<Record>, listing: Lister, probe: Prober, recipients: seq<string>, j: nat)
    requires j < |records| && records[j].fileName == ""
    requires ResolveRecord(records[j], listing, probe).Resolved?
    requires forall i | 0 <= i < j :: ResolveRecord(records[i], listing, probe).Unmatched?
    ensures var r := FileNameCheck(records, listing, probe, recipients);
      && r.Ok? && |r.value.records| == |records|
      && r.value.records[j] == records[j].(fileName := ResolveRecord(records[j], listing, probe).name)
      && r.value.records[j].fileName == Leaf(ResolveRecord(records[j], listing, probe).key)
      && forall i | 0 <= i < |records| && i != j :: r.value.records[i] == records[i]
    ensures FileNameCheckAsWritten(records, listing, probe, recipients) == FileNameCheck(records, listing, probe, recipients)
  {
    DateResolvedName(records[j], listing, probe);
    ExpectedUpdatesOnly(records, Steps(listing, probe), recipients, j);
    CheckAgreesUpToResolution(records, listing, probe, recipients, j);
  }

  /** With only unmatched requests before it, a resolving request is
      renamed in place and every other request is kept as it was. */
  lemma ExpectedUpdatesOnly(records: seq<Record>, step: Stepper, recipients: seq<string>, j: nat)
    requires j < |records| && step(records[j]).Resolved?
    requires forall i | 0 <= i < j :: step(records[i]).Unmatched?
    ensures var r := Expected([], records, step, recipients);
      && r.Ok? && |r.value.records| == |records|
      && r.value.records[j] == records[j].(fileName := step(records[j]).name)
      && forall i | 0 <= i < |records| && i != j :: r.value.records[i] == records[i]
  {
    ExpectedResolvedInPlace(records, step, recipients, j);
  }

  /** A request without a file name that resolves is named by the leaf of
      the key it resolved to. */
  lemma DateResolvedName(rec: Record, listing: Lister, probe: Prober)
    requires rec.fileName == "" && ResolveRecord(rec, listing, probe).Resolved?
    ensures ResolveRecord(rec, listing, probe).name == Leaf(ResolveRecord(rec, listing, probe).key)
  {
  }

  /** The position of the first request equal to `x`, as Python's
      `list.remove` finds it. */
  function IndexOf(s: seq<Record>, x: Record): (k: nat)
    requires x in s
    ensures k < |s| && s[k] == x && x !in s[..k]
  {
    if s[0] == x then 0
    else
      assert s[1..][IndexOf(s[1..], x)] == x;
      assert s[..IndexOf(s[1..], x) + 1] == [s[0]] + s[1..][..IndexOf(s[1..], x)];
      IndexOf(s[1..], x) + 1
  }

  /** Python's `list.remove(x)`: the first request equal to `x` goes, the
      list shrinks by one, and the others keep their order. */
  function RemoveFirst(s: seq<Record>, x: Record): (r: seq<Record>)
    requires x in s
    ensures |r| == |s| - 1
    ensures multiset(r) == multiset(s) - multiset{x}
    ensures forall j | 0 <= j < IndexOf(s, x) :: r[j] == s[j]
    ensures forall j | IndexOf(s, x) <= j < |r| :: r[j] == s[j + 1]
  {
    var k := IndexOf(s, x);
    RemoveAtMultiset(s, k);
    s[..k] + s[k + 1..]
  }

  /** Cutting out the element at `k` removes one copy of it from the
      multiset of the sequence. */
  lemma RemoveAtMultiset(s: seq<Record>, k: nat)
    requires k < |s|
    ensures multiset(s[..k] + s[k + 1..]) == multiset(s) - multiset{s[k]}
  {
    assert s == s[..k] + [s[k]] + s[k + 1..];
    assert multiset(s) == multiset(s[..k]) + multiset{s[k]} + multiset(s[k + 1..]);
  }

  /** The walk as the script performs it: `for data in restore_list` steps a
      position through the list while `restore_list.remove(data)` shortens
      it, so after a removal the position still advances and the request
      that moved into the removed one's place is never examined. */
  function WalkAsWritten(live: seq<Record>, pos: nat, step: Stepper, recipients: seq<string>): (r: Result<Resolution, Record>)
    decreases |live| - pos
    ensures r.Ok? ==> |r.value.records| <= |live|
    ensures r.Ok? ==> |recipients| <= |r.value.recipients| <= |recipients| + (if pos <= |live| then |live| - pos else 0)
    ensures r.Ok? && r.value.resolved.Some? ==> |r.value.recipients| > |recipients|
  {
    if pos >= |live| then Ok(Resolution(live, recipients, None))
    else
      var rec := live[pos];
      match step(rec)
      case ContentsAbsent => Err(rec)
      case Resolved(name, key) =>
        Ok(Resolution(live[pos := WithFileName(rec, name)], recipients + [rec.email], Some((name, key))))
      case Unmatched => WalkAsWritten(live, pos + 1, step, recipients + [rec.email])
      case Dropped(_) => WalkAsWritten(RemoveFirst(live, rec), pos + 1, step, recipients + [rec.email])
  }

  /** The file name check as the script performs it: no request is added
      to the list, and at most one requester is added per request. */
  function FileNameCheckAsWritten(records: seq<Record>, listing: Lister, probe: Prober, recipients: seq<string>): (r: Result<Resolution, Record>)
    ensures r.Ok? ==> |r.value.records| <= |records|
    ensures r.Ok? ==> |recipients| <= |r.value.recipients| <= |recipients| + |records|
  {
    WalkAsWritten(records, 0, Steps(listing, probe), recipients)
  }

  /** The script's walk and the corrected one agree whenever no existence
      probe fails before the first request that ends the walk: the two
      differ only in what follows a removal. */
  lemma {:induction false} AsWrittenAgreesWithoutDrops(live: seq<Record>, pos: nat, step: Stepper, recipients: seq<string>)
    requires pos <= |live|
    requires forall j | pos <= j < |live| && step(live[j]).Dropped? :: exists i | pos <= i < j :: Decisive(step(live[i]))
    ensures WalkAsWritten(live, pos, step, recipients) == Walk(live, pos, step, recipients)
    decreases |live| - pos
  {
    if pos < |live| && step(live[pos]).Unmatched? {
      AsWrittenAgreesWithoutDrops(live, pos + 1, step, recipients + [live[pos].email]);
    }
  }

  /** With only unmatched requests before the first that ends the walk,
      nothing is removed, so the script's walk and the corrected one agree. */
  lemma AsWrittenAgreesUpToResolution(records: seq<Record>, step: Stepper, recipients: seq<string>, j: nat)
    requires j < |records| && Decisive(step(records[j]))
    requires forall i | 0 <= i < j :: step(records[i]).Unmatched?
    ensures WalkAsWritten(records, 0, step, recipients) == Walk(records, 0, step, recipients)
  {
    forall k | 0 <= k < |records| && step(records[k]).Dropped?
      ensures exists i | 0 <= i < k :: Decisive(step(records[i]))
    {
      assert j < k;
    }
    AsWrittenAgreesWithoutDrops(records, 0, step, recipients);
  }

  /** The script's file name check and the corrected one agree on a run
      whose first request to end the walk has only unmatched requests
      before it. */
  lemma CheckAgreesUpToResolution(records: seq<Record>, listing: Lister, probe: Prober, recipients: seq<string>, j: nat)
    requires j < |records| && Decisive(ResolveRecord(records[j], listing, probe))
    requires forall i | 0 <= i < j :: ResolveRecord(records[i], listing, probe).Unmatched?
    ensures FileNameCheckAsWritten(records, listing, probe, recipients) == FileNameCheck(records, listing, probe, recipients)
  {
    AsWrittenAgreesUpToResolution(records, Steps(listing, probe), recipients, j);
  }

  /** A request whose probe fails, followed by any request at all: the
      script removes the first, then steps past the second, which stays on
      the list unexamined, whose requester is never added, and which is not
      returned even when it would resolve. */
  lemma AsWrittenSkipsAfterRemoval(a: Record, b: Record, step: Stepper)
    requires step(a).Dropped?
    ensures WalkAsWritten([a, b], 0, step, []) == Ok(Resolution([b], [a.email], None))
  {
    assert [a, b][0] == a && [a, b][..0] == [] && [a, b][1..] == [b];
    assert IndexOf([a, b], a) == 0;
    assert RemoveFirst([a, b], a) == [b];
    assert WalkAsWritten([b], 1, step, [a.email]) == Ok(Resolution([b], [a.email], None));
    assert [a, b][0] == a && [] + [a.email] == [a.email];
  }

  /** The same two requests under the corrected walk: both are removed and
      both requesters are added. */
  lemma CorrectedDropsBoth(a: Record, b: Record, step: Stepper)
    requires step(a).Dropped? && step(b).Dropped?
    ensures Walk([a, b], 0, step, []) == Ok(Resolution([], [a.email, b.email], None))
  {
    assert [a, b][..0] + [a, b][0 + 1..] == [b];
    assert [b][..0] + [b][0 + 1..] == [];
    assert Walk([], 0, step, [a.email, b.email]) == Ok(Resolution([], [a.email, b.email], None));
    assert [b][0] == b && [a.email] + [b.email] == [a.email, b.email];
    assert Walk([b], 0, step, [a.email]) == Ok(Resolution([], [a.email, b.email], None));
    assert [a, b][0] == a && [] + [a.email] == [a.email];
  }

  /** Such a pair, concretely: two requests that both name a backup file
      the bucket does not hold. */
  lemma MissingFilesDropBoth()
    ensures var a := Record("bkt", "backups", "srv", "inst", "db", "a.bak", "Standard", "", "a@example.com");
      var b := Record("bkt", "backups", "srv", "inst", "db", "b.bak", "Standard", "", "b@example.com");
      var listing: Lister := (bucket, prefix) => ListResponse(Some(["backups/srv/inst/db/c.bak"]));
      var probe: Prober := (bucket, key) => NotFound;
      ResolveRecord(a, listing, probe).Dropped? && ResolveRecord(b, listing, probe).Dropped?
  {
  }
}
