/** The two loops of the backup command: the detail fetch, which asks for every
    listed document's full record and files the answers by kind, and the write
    loop, which names each fetched document and writes it into its kind's
    sub-directory; and the index and merged files written beside them.

    The detail endpoint is an oracle: `answer(i)` is its reply to the i-th request.
    A directory is the set of names in it. */
module BackupRun {
  import opened Wrappers
  import opened KbTypes
  import opened BackupNaming
  import opened BackupStats

  /** The reply to one detail request: an ok response with its body, a non-ok
      response, or a request (or body parse) that threw. */
  datatype DetailResponse = DetailOk(body: Document) | DetailNotOk | DetailThrew

  /** The fetched documents, one list per kind. */
  datatype Buckets = Buckets(text: seq<Document>, file: seq<Document>, url: seq<Document>) {

    function Of(t: DocType): seq<Document> {
      match t
      case Text => text
      case File => file
      case Url => url
    }

    /** Appends `d` to the list of kind `t`. */
    function Push(t: DocType, d: Document): (b: Buckets)
      ensures b.Of(t) == Of(t) + [d]
      ensures forall u :: u != t ==> b.Of(u) == Of(u)
    {
      match t
      case Text => this.(text := text + [d])
      case File => this.(file := file + [d])
      case Url => this.(url := url + [d])
    }

    /** All fetched documents: the text ones, then the file ones, then the url ones. */
    function All(): (all: seq<Document>)
      ensures |all| == |Of(Text)| + |Of(File)| + |Of(Url)|
    {
      text + file + url
    }
  }

  /** The buckets after the first `|docs|` listed documents: each ok body goes to the
      bucket of the listed document's kind, in request order. */
  function Fetched(docs: seq<Document>, answer: nat -> DetailResponse): Buckets {
    if |docs| == 0 then Buckets([], [], [])
    else
      var i := |docs| - 1;
      var b := Fetched(docs[..i], answer);
      if answer(i).DetailOk? then b.Push(docs[i].docType, answer(i).body) else b
  }

  /** The number of ok replies among the first `n`. */
  function OkCount(answer: nat -> DetailResponse, n: nat): (c: nat)
    ensures c <= n
  {
    if n == 0 then 0 else OkCount(answer, n - 1) + (if answer(n - 1).DetailOk? then 1 else 0)
  }

  /** The detail-fetch loop: one request per listed document, in list order, a failed
      one only counted, and a delay after every document. */
  method FetchDetails(documents: seq<Document>, answer: nat -> DetailResponse)
    returns (fetched: Buckets, fetchedCount: nat, failedCount: nat, delays: nat)
    ensures fetched == Fetched(documents, answer)
    ensures fetchedCount == OkCount(answer, |documents|)
    ensures fetchedCount + failedCount == |documents|
    ensures delays == |documents|
  {
    fetched := Buckets([], [], []);
    fetchedCount, failedCount, delays := 0, 0, 0;
    for i := 0 to |documents|
      invariant fetched == Fetched(documents[..i], answer)
      invariant fetchedCount == OkCount(answer, i)
      invariant fetchedCount + failedCount == i
      invariant delays == i
    {
      assert documents[..i + 1][..i] == documents[..i];
      var response := answer(i);
      if response.DetailOk? {
        fetchedCount := fetchedCount + 1;
        fetched := fetched.Push(documents[i].docType, response.body);
      } else {
        failedCount := failedCount + 1;
      }
      delays := delays + 1;
    }
    assert documents[..|documents|] == documents;
  }

  /** A body lands in bucket `t` exactly when some request for a listed document of
      kind `t` answered ok with that body. */
  lemma {:induction false} FetchedMembership(docs: seq<Document>, answer: nat -> DetailResponse, t: DocType, d: Document)
    ensures d in Fetched(docs, answer).Of(t) <==>
            exists i :: 0 <= i < |docs| && docs[i].docType == t && answer(i) == DetailOk(d)
  {
    if |docs| > 0 {
      var i := |docs| - 1;
      FetchedMembership(docs[..i], answer, t, d);
      if d in Fetched(docs, answer).Of(t) && d !in Fetched(docs[..i], answer).Of(t) {
        assert docs[i].docType == t && answer(i) == DetailOk(d);
      }
      if exists j :: 0 <= j < |docs| && docs[j].docType == t && answer(j) == DetailOk(d) {
        var j :| 0 <= j < |docs| && docs[j].docType == t && answer(j) == DetailOk(d);
        if j < i {
          assert docs[..i][j] == docs[j];
        }
      }
    }
  }

  /** Every ok reply is kept exactly once: the buckets together hold as many
      documents as were fetched. */
  lemma {:induction false} BucketSizes(docs: seq<Document>, answer: nat -> DetailResponse)
    ensures |Fetched(docs, answer).All()| == OkCount(answer, |docs|)
  {
    if |docs| > 0 {
      BucketSizes(docs[..|docs| - 1], answer);
    }
  }

  /** When every request succeeds, each bucket has one body per listed document of
      its kind. */
  lemma {:induction false} AllFetched(docs: seq<Document>, answer: nat -> DetailResponse, t: DocType)
    requires forall i :: 0 <= i < |docs| ==> answer(i).DetailOk?
    ensures |Fetched(docs, answer).Of(t)| == CountOfType(docs, t)
  {
    if |docs| > 0 {
      AllFetched(docs[..|docs| - 1], answer, t);
    }
  }

  /** The three backup sub-directories. */
  datatype Disk = Disk(text: set<string>, file: set<string>, url: set<string>) {

    function In(t: DocType): set<string> {
      match t
      case Text => text
      case File => file
      case Url => url
    }

    /** The directory of kind `t` with `name` created (or rewritten). */
    function Add(t: DocType, name: string): (d: Disk)
      ensures d.In(t) == In(t) + {name}
      ensures forall u :: u != t ==> d.In(u) == In(u)
    {
      match t
      case Text => this.(text := text + {name})
      case File => this.(file := file + {name})
      case Url => this.(url := url + {name})
    }
  }

  datatype Tally = Tally(written: nat, skipped: nat)

  /** The per-kind written and skipped counters of the write loop. */
  datatype WriteCounts = WriteCounts(text: Tally, file: Tally, url: Tally) {

    function Of(t: DocType): Tally {
      match t
      case Text => text
      case File => file
      case Url => url
    }

    /** Counts one more document of kind `t`, as written or as skipped. */
    function Bump(t: DocType, wrote: bool): (c: WriteCounts)
      ensures wrote ==> c.Of(t) == Tally(Of(t).written + 1, Of(t).skipped)
      ensures !wrote ==> c.Of(t) == Tally(Of(t).written, Of(t).skipped + 1)
      ensures forall u :: u != t ==> c.Of(u) == Of(u)
    {
      var n := Of(t);
      var m := if wrote then Tally(n.written + 1, n.skipped) else Tally(n.written, n.skipped + 1);
      match t
      case Text => this.(text := m)
      case File => this.(file := m)
      case Url => this.(url := m)
    }
  }

  const NoCounts := WriteCounts(Tally(0, 0), Tally(0, 0), Tally(0, 0))

  /** The settings of one run: output directory, name template, the file-name
      sanitiser and the file-exists policy. */
  datatype WriteConfig = WriteConfig(
    outDir: string,
    template: string,
    sanitize: string -> string,
    pref: FileExistsPreference)

  /** The sub-directory of kind `t`, as it appears in messages. */
  function DirPath(outDir: string, t: DocType): string {
    outDir + "/" + TypeName(t)
  }

  /** How the write loop ends: the counters and the sub-directories, or the message
      of the error that ended the run. */
  datatype WriteOutcome = Wrote(counts: WriteCounts, disk: Disk) | WriteFatal(message: string)

  /** One iteration: resolve the document's file name in its kind's directory, then
      write it (counted as written) or skip it (counted as skipped). */
  function WriteStep(cfg: WriteConfig, counts: WriteCounts, disk: Disk, doc: Document): WriteOutcome {
    var t := doc.docType;
    var r := HandleFileExists(disk.In(t), DirPath(cfg.outDir, t), DocumentFileName(cfg.template, doc, cfg.sanitize), cfg.pref);
    if r.UseName? then Wrote(counts.Bump(t, true), disk.Add(t, r.name))
    else if r.SkipFile? then Wrote(counts.Bump(t, false), disk)
    else WriteFatal(r.message)
  }

  /** What one iteration does to the directory and the counters of each kind. */
  lemma StepEffect(cfg: WriteConfig, counts: WriteCounts, disk: Disk, doc: Document, t: DocType)
    requires WriteStep(cfg, counts, disk, doc).Wrote?
    ensures var r := WriteStep(cfg, counts, disk, doc);
            var (c, d) := (r.counts.Of(t), r.disk.In(t));
            && (doc.docType != t ==> c == counts.Of(t) && d == disk.In(t))
            && (doc.docType == t ==> c.written + c.skipped == counts.Of(t).written + counts.Of(t).skipped + 1)
            && disk.In(t) <= d
            && |d| <= |disk.In(t)| + c.written - counts.Of(t).written
            && (cfg.pref != Replace ==> |d| == |disk.In(t)| + c.written - counts.Of(t).written)
  {
    var k := doc.docType;
    var r := HandleFileExists(disk.In(k), DirPath(cfg.outDir, k), DocumentFileName(cfg.template, doc, cfg.sanitize), cfg.pref);
    assert WriteStep(cfg, counts, disk, doc) == if r.UseName? then Wrote(counts.Bump(k, true), disk.Add(k, r.name)) else Wrote(counts.Bump(k, false), disk);
  }

  /** The outcome of the write loop over `docs`, in that order. */
  function WriteAll(cfg: WriteConfig, docs: seq<Document>, disk0: Disk): WriteOutcome {
    if |docs| == 0 then Wrote(NoCounts, disk0)
    else
      var prev := WriteAll(cfg, docs[..|docs| - 1], disk0);
      if prev.WriteFatal? then prev else WriteStep(cfg, prev.counts, prev.disk, docs[|docs| - 1])
  }

  lemma WriteAllSnoc(cfg: WriteConfig, docs: seq<Document>, disk0: Disk, i: nat)
    requires i < |docs| && WriteAll(cfg, docs[..i], disk0).Wrote?
    ensures var prev := WriteAll(cfg, docs[..i], disk0);
            WriteAll(cfg, docs[..i + 1], disk0) == WriteStep(cfg, prev.counts, prev.disk, docs[i])
  {
    assert docs[..i + 1][..i] == docs[..i];
  }

  /** Once an iteration has ended the run, later documents change nothing. */
  lemma {:induction false} FatalSticks(cfg: WriteConfig, docs: seq<Document>, disk0: Disk, i: nat)
    requires i <= |docs|
    requires WriteAll(cfg, docs[..i], disk0).WriteFatal?
    ensures WriteAll(cfg, docs, disk0) == WriteAll(cfg, docs[..i], disk0)
    decreases |docs|
  {
    if i < |docs| {
      assert docs[..|docs| - 1][..i] == docs[..i];
      FatalSticks(cfg, docs[..|docs| - 1], disk0, i);
    } else {
      assert docs[..i] == docs;
    }
  }

  /** The write loop. `delays` counts the waits, one after every document written or
      skipped. */
  method WriteDocuments(cfg: WriteConfig, docs: seq<Document>, disk0: Disk) returns (outcome: WriteOutcome, delays: nat)
    ensures outcome == WriteAll(cfg, docs, disk0)
    ensures outcome.Wrote? ==> delays == |docs|
    ensures delays <= |docs|
  {
    var counts := NoCounts;
    var disk := disk0;
    delays := 0;
    var i := 0;
    while i < |docs|
      invariant i <= |docs|
      invariant WriteAll(cfg, docs[..i], disk0) == Wrote(counts, disk)
      invariant delays == i
    {
      var doc := docs[i];
      var t := doc.docType;
      var r := HandleFileExists(disk.In(t), DirPath(cfg.outDir, t), DocumentFileName(cfg.template, doc, cfg.sanitize), cfg.pref);
      WriteAllSnoc(cfg, docs, disk0, i);
      ghost var step := WriteStep(cfg, counts, disk, doc);
      if r.Fatal? {
        outcome := WriteFatal(r.message);
        FatalSticks(cfg, docs, disk0, i + 1);
        return;
      }
      if r.UseName? {
        disk := disk.Add(t, r.name);
        counts := counts.Bump(t, true);
      } else {
        counts := counts.Bump(t, false);
      }
      assert step == Wrote(counts, disk);
      delays := delays + 1;
      i := i + 1;
    }
    assert docs[..i] == docs;
    outcome := Wrote(counts, disk);
  }

  /** Every document is either written or skipped, in its own kind's counters. */
  lemma {:induction false} TallyMatchesKinds(cfg: WriteConfig, docs: seq<Document>, disk0: Disk, t: DocType)
    requires WriteAll(cfg, docs, disk0).Wrote?
    ensures var c := WriteAll(cfg, docs, disk0).counts.Of(t);
            c.written + c.skipped == CountOfType(docs, t)
  {
    if |docs| > 0 {
      var prev := WriteAll(cfg, docs[..|docs| - 1], disk0);
      TallyMatchesKinds(cfg, docs[..|docs| - 1], disk0, t);
      StepEffect(cfg, prev.counts, prev.disk, docs[|docs| - 1], t);
    }
  }

  /** Files are only added, each write creates at most one name, and only unless the
      policy is `replace` is every write a new file: no existing file and no file
      written earlier in the run is overwritten. */
  lemma {:induction false} WritesAddFiles(cfg: WriteConfig, docs: seq<Document>, disk0: Disk, t: DocType)
    requires WriteAll(cfg, docs, disk0).Wrote?
    ensures var r := WriteAll(cfg, docs, disk0);
            && disk0.In(t) <= r.disk.In(t)
            && |r.disk.In(t)| <= |disk0.In(t)| + r.counts.Of(t).written
            && (cfg.pref != Replace ==> |r.disk.In(t)| == |disk0.In(t)| + r.counts.Of(t).written)
  {
    if |docs| > 0 {
      var prev := WriteAll(cfg, docs[..|docs| - 1], disk0);
      WritesAddFiles(cfg, docs[..|docs| - 1], disk0, t);
      StepEffect(cfg, prev.counts, prev.disk, docs[|docs| - 1], t);
    }
  }

  /** Only the `keep-both` and `error` policies can end the run; `replace` and
      `skip` always get through every document. */
  lemma {:induction false} OnlyErrorOrKeepBothFail(cfg: WriteConfig, docs: seq<Document>, disk0: Disk)
    requires cfg.pref == Replace || cfg.pref == Skip
    ensures WriteAll(cfg, docs, disk0).Wrote?
  {
    if |docs| > 0 {
      OnlyErrorOrKeepBothFail(cfg, docs[..|docs| - 1], disk0);
    }
  }

  /** How the files beside the sub-directories end: the names used for the index
      and the merged file (absent when not wanted or skipped) and the directory, or
      the message of the error that ended the run. */
  datatype RootOutcome = RootWrote(index: Option<string>, merged: Option<string>, root: set<string>) | RootFatal(message: string)

  /** The name a namer's answer writes under, if any. */
  function WrittenName(n: NameOutcome): Option<string> {
    if n.UseName? then Some(n.name) else None
  }

  /** The directory after writing under the namer's answer. */
  function Placed(root: set<string>, n: NameOutcome): set<string> {
    if n.UseName? then root + {n.name} else root
  }

  /** The name of the index file. */
  const IndexName: string := "index.json"

  /** The name of the merged file. */
  const MergedName: string := "knowledgebase.json"

  /** Resolving and writing one file in the output directory: the file is written
      under the namer's answer, nothing is written when it says skip, and its error
      ends the run. */
  function WriteRootFile(root: set<string>, outDir: string, name: string, pref: FileExistsPreference): (r: RootOutcome)
    ensures r.RootWrote? ==> r.merged.None?
    ensures r.RootWrote? && r.index.Some? ==> r.root == root + {r.index.value}
    ensures r.RootWrote? && r.index.Some? ==> HandleFileExists(root, outDir, name, pref) == UseName(r.index.value)
    ensures r.RootWrote? && r.index.None? ==> r.root == root && name in root && pref == Skip
    ensures r.RootFatal? <==> HandleFileExists(root, outDir, name, pref).Fatal?
    ensures r.RootFatal? ==> r.message == HandleFileExists(root, outDir, name, pref).message
  {
    var n := HandleFileExists(root, outDir, name, pref);
    if n.UseName? then RootWrote(Some(n.name), None, root + {n.name})
    else if n.SkipFile? then RootWrote(None, None, root)
    else RootFatal(n.message)
  }

  /** The index file unless `--no-index`, then the merged file with `--merge`: each
      resolved by the namer against the directory as the previous write left it; the
      first error of the namer ends the run. */
  function WriteRootFiles(root: set<string>, outDir: string, noIndex: bool, merge: bool, pref: FileExistsPreference): (r: RootOutcome)
    ensures noIndex && !merge ==> r == RootWrote(None, None, root)
    ensures r.RootWrote? ==> root <= r.root
  {
    var afterIndex := if noIndex then RootWrote(None, None, root) else WriteRootFile(root, outDir, IndexName, pref);
    if afterIndex.RootFatal? || !merge then afterIndex
    else
      var m := WriteRootFile(afterIndex.root, outDir, MergedName, pref);
      if m.RootFatal? then m else RootWrote(afterIndex.index, m.index, m.root)
  }

  /** The root files follow the namer: the index is resolved against the directory
      as found (unless `--no-index`), the merged file (with `--merge`) against the
      directory with the index written, and the first fatal answer ends the run with
      its message. */
  lemma RootFilesResolved(root: set<string>, outDir: string, noIndex: bool, merge: bool, pref: FileExistsPreference)
    ensures var r := WriteRootFiles(root, outDir, noIndex, merge, pref);
            var idx := HandleFileExists(root, outDir, IndexName, pref);
            var mid := if noIndex then root else Placed(root, idx);
            var kb := HandleFileExists(mid, outDir, MergedName, pref);
            && (!noIndex && idx.Fatal? ==> r == RootFatal(idx.message))
            && ((noIndex || !idx.Fatal?) && merge && kb.Fatal? ==> r == RootFatal(kb.message))
            && ((noIndex || !idx.Fatal?) && (!merge || !kb.Fatal?) ==>
                  && r.RootWrote?
                  && r.index == (if noIndex then None else WrittenName(idx))
                  && r.merged == (if merge then WrittenName(kb) else None)
                  && r.root == (if merge then Placed(mid, kb) else mid))
  {
  }

  /** Only the `error` and `keep-both` policies can end the run at the root files. */
  lemma RootFatalPolicies(root: set<string>, outDir: string, noIndex: bool, merge: bool, pref: FileExistsPreference)
    requires WriteRootFiles(root, outDir, noIndex, merge, pref).RootFatal?
    ensures pref == Error || pref == KeepBoth
    ensures !noIndex || merge
  {
  }

  /** The merged file never overwrites the index written in the same run. */
  lemma MergedKeepsIndex(root: set<string>, outDir: string, merge: bool, pref: FileExistsPreference)
    requires WriteRootFiles(root, outDir, false, merge, pref).RootWrote?
    ensures var r := WriteRootFiles(root, outDir, false, merge, pref);
            r.index.Some? && r.merged.Some? ==> r.index.value != r.merged.value && r.index.value in r.root && r.merged.value in r.root
  {
    var r := WriteRootFiles(root, outDir, false, merge, pref);
    if r.index.Some? && r.merged.Some? && pref == Replace {
      assert r.index.value == IndexName && r.merged.value == MergedName;
      assert IndexName[0] != MergedName[0];
    }
  }

  /** In a fresh output directory both files keep their own names. */
  lemma FreshRoot(outDir: string, pref: FileExistsPreference)
    ensures WriteRootFiles({}, outDir, false, true, pref) ==
            RootWrote(Some("index.json"), Some("knowledgebase.json"), {"index.json", "knowledgebase.json"})
  {
    assert "index.json" != "knowledgebase.json" by {
      assert "index.json"[0] != "knowledgebase.json"[0];
    }
  }

  /** The statistics of the index file: over all fetched documents and per kind. */
  datatype DocumentStats = DocumentStats(combined: Stats, text: Stats, file: Stats, url: Stats) {

    function Of(t: DocType): Stats {
      match t
      case Text => text
      case File => file
      case Url => url
    }
  }

  /** The statistics of the index file for the fetched buckets: over all of them,
      and per kind. */
  function StatsOf(fetched: Buckets, nowMs: int): (s: DocumentStats)
    ensures s.combined == CalcStats(fetched.All(), nowMs)
    ensures forall t :: s.Of(t) == CalcStats(fetched.Of(t), nowMs)
  {
    DocumentStats(
      CalcStats(fetched.All(), nowMs),
      CalcStats(fetched.text, nowMs),
      CalcStats(fetched.file, nowMs),
      CalcStats(fetched.url, nowMs))
  }

  /** How a backup ends: the statistics and counts it returns, with the output
      directory and the sub-directories as it leaves them (and the write counters
      unless `--merge`), or the message of the error that ended it. */
  datatype BackupOutcome =
    | BackedUp(stats: DocumentStats, fetched: nat, failed: nat, root: set<string>, disk: Disk, counts: Option<WriteCounts>)
    | BackupFailed(message: string)

  /** The output phase of the backup: the index and the merged file, then (without
      `--merge`) every document into its kind's sub-directory. The statistics and
      the counts are passed through to a successful outcome. */
  method WriteOutput(stats: DocumentStats, fetched: nat, failed: nat, docs: seq<Document>, cfg: WriteConfig,
                     noIndex: bool, merge: bool, root0: set<string>, disk0: Disk)
    returns (outcome: BackupOutcome)
    ensures var rootFiles := WriteRootFiles(root0, cfg.outDir, noIndex, merge, cfg.pref);
            var written := WriteAll(cfg, docs, disk0);
            && (rootFiles.RootFatal? ==> outcome == BackupFailed(rootFiles.message))
            && (!merge && rootFiles.RootWrote? && written.WriteFatal? ==> outcome == BackupFailed(written.message))
            && (rootFiles.RootWrote? && (merge || written.Wrote?) ==>
                  && outcome.BackedUp?
                  && outcome.stats == stats && outcome.fetched == fetched && outcome.failed == failed
                  && outcome.root == rootFiles.root
                  && (merge ==> outcome.disk == disk0 && outcome.counts.None?)
                  && (!merge ==> outcome.counts == Some(written.counts) && outcome.disk == written.disk))
  {
    var rootFiles := WriteRootFiles(root0, cfg.outDir, noIndex, merge, cfg.pref);
    if rootFiles.RootFatal? {
      outcome := BackupFailed(rootFiles.message);
      return;
    }
    if merge {
      outcome := BackedUp(stats, fetched, failed, rootFiles.root, disk0, None);
      return;
    }
    var written, _ := WriteDocuments(cfg, docs, disk0);
    if written.WriteFatal? {
      outcome := BackupFailed(written.message);
    } else {
      outcome := BackedUp(stats, fetched, failed, rootFiles.root, written.disk, Some(written.counts));
    }
  }

  /** The backup after the listing: fetch every document's details, compute the
      statistics, then write the output. */
  method Backup(documents: seq<Document>, answer: nat -> DetailResponse, nowMs: int, cfg: WriteConfig,
                noIndex: bool, merge: bool, root0: set<string>, disk0: Disk)
    returns (outcome: BackupOutcome)
    ensures var fetched := Fetched(documents, answer);
            var rootFiles := WriteRootFiles(root0, cfg.outDir, noIndex, merge, cfg.pref);
            && (rootFiles.RootFatal? ==> outcome == BackupFailed(rootFiles.message))
            && (outcome.BackedUp? ==>
                  && rootFiles.RootWrote? && outcome.root == rootFiles.root
                  && outcome.fetched + outcome.failed == |documents|
                  && outcome.fetched == |fetched.All()|
                  && outcome.stats == StatsOf(fetched, nowMs)
                  && (merge ==> outcome.disk == disk0 && outcome.counts.None?)
                  && (!merge ==> outcome.counts.Some?)
                  && (!merge ==> WriteAll(cfg, fetched.All(), disk0) == Wrote(outcome.counts.value, outcome.disk)))
            && (!merge && rootFiles.RootWrote? && WriteAll(cfg, fetched.All(), disk0).WriteFatal? ==>
                  outcome == BackupFailed(WriteAll(cfg, fetched.All(), disk0).message))
            && (rootFiles.RootWrote? && (merge || WriteAll(cfg, fetched.All(), disk0).Wrote?) ==> outcome.BackedUp?)
  {
    var fetched, fetchedCount, failedCount, _ := FetchDetails(documents, answer);
    BucketSizes(documents, answer);
    var stats := StatsOf(fetched, nowMs);
    outcome := WriteOutput(stats, fetchedCount, failedCount, fetched.All(), cfg, noIndex, merge, root0, disk0);
  }
}
