/** One row of the restore manifest and the two storage calls the script
    makes about it. The storage service itself is outside the model: a
    listing and an existence probe are passed in as functions. */
module Manifest {
  import opened Wrappers
  import opened Text

  /** A restore request, one per manifest row. `fileName` and
      `lastModified` may be empty; the retrieval tier is kept as the text
      the manifest holds. */
  datatype Record = Record(
    bucket: string,
    backupPath: string,
    server: string,
    instance: string,
    database: string,
    fileName: string,
    retrievalTier: string,
    lastModified: string,
    email: string)

  /** The part of a prefix listing the script reads: the keys under
      "Contents", in listing order, or `None` when the response has no
      "Contents" entry at all. */
  datatype ListResponse = ListResponse(contents: Option<seq<string>>)

  /** What loading an object's metadata reports: the object exists, a 404,
      or any other client error. */
  datatype ProbeOutcome = Exists | NotFound | OtherError

  /** A prefix listing of a bucket: `(bucket, prefix)` to response. */
  type Lister = (string, string) -> ListResponse

  /** An existence probe of one object: `(bucket, key)` to outcome. */
  type Prober = (string, string) -> ProbeOutcome

  /** The prefix the backups of one database live under:
      `backupPath/server/instance/database`. It is never empty, so the
      script's truthiness test on it always passes. */
  function PartialPath(rec: Record): (p: string)
    ensures |p| == |rec.backupPath| + |rec.server| + |rec.instance| + |rec.database| + 3
    ensures p[..|rec.backupPath|] == rec.backupPath && p[|rec.backupPath|] == '/'
    ensures p[|rec.backupPath| + 1..|rec.backupPath| + 1 + |rec.server|] == rec.server
    ensures p[|rec.backupPath| + 1 + |rec.server|] == '/'
    ensures p[|rec.backupPath| + |rec.server| + 2..|rec.backupPath| + |rec.server| + 2 + |rec.instance|] == rec.instance
    ensures p[|rec.backupPath| + |rec.server| + 2 + |rec.instance|] == '/'
    ensures p[|p| - |rec.database|..] == rec.database && p[|p| - |rec.database| - 1] == '/'
  {
    rec.backupPath + "/" + rec.server + "/" + rec.instance + "/" + rec.database
  }

  /** The object key a request names explicitly: its file name under its
      database prefix. */
  function ObjectKey(rec: Record): (key: string)
    ensures |key| == |PartialPath(rec)| + 1 + |rec.fileName|
    ensures key[..|PartialPath(rec)|] == PartialPath(rec)
    ensures key[|PartialPath(rec)|] == '/'
    ensures key[|PartialPath(rec)| + 1..] == rec.fileName
  {
    PartialPath(rec) + "/" + rec.fileName
  }

  /** The database name is the last segment of the prefix whenever it has
      no '/' of its own. */
  lemma DatabaseIsLeafOfPrefix(rec: Record)
    requires '/' !in rec.database
    ensures Leaf(PartialPath(rec)) == rec.database
  {
    assert PartialPath(rec) == (rec.backupPath + "/" + rec.server + "/" + rec.instance) + "/" + rec.database;
    LeafOfJoin(rec.backupPath + "/" + rec.server + "/" + rec.instance, rec.database);
  }

  /** The name a request gives is recovered from the key built for it. */
  lemma ObjectKeyLeaf(rec: Record)
    requires '/' !in rec.fileName
    ensures Leaf(ObjectKey(rec)) == rec.fileName
  {
    LeafOfJoin(PartialPath(rec), rec.fileName);
  }

  /** One of the six mandatory fields is empty: bucket, backup path,
      server, instance, database or retrieval tier. */
  function MissingRequired(rec: Record): (missing: bool)
    ensures missing <==> (rec.bucket == "" || rec.backupPath == "" || rec.server == ""
                          || rec.instance == "" || rec.database == "" || rec.retrievalTier == "")
  {
    "" in [rec.bucket, rec.backupPath, rec.server, rec.instance, rec.database, rec.retrievalTier]
  }

  /** The manifest's requester addresses, in record order. */
  function Emails(rs: seq<Record>): (es: seq<string>)
    ensures |es| == |rs|
    ensures forall j | 0 <= j < |rs| :: es[j] == rs[j].email
  {
    seq(|rs|, j requires 0 <= j < |rs| => rs[j].email)
  }

  /** The requesters of a non-empty manifest: the first one, then the rest. */
  lemma EmailsCons(rs: seq<Record>)
    requires 0 < |rs|
    ensures Emails(rs) == [rs[0].email] + Emails(rs[1..])
  {
  }

  /** Adding the first requester, then those of the rest, adds the
      requesters of the whole manifest. */
  lemma AddRecipients(recipients: seq<string>, rs: seq<Record>)
    requires 0 < |rs|
    ensures (recipients + [rs[0].email]) + Emails(rs[1..]) == recipients + Emails(rs)
  {
    EmailsCons(rs);
  }
}
