/** The delete command: the single-page listing it selects from, the selection
    (by id, by name, or everything, then narrowed by kind and ownership), the two
    confirmation gates, and the loop of delete requests.

    The prompts are oracles: the ids the user ticks in each checkbox. The delete
    endpoint is one too: `ok(i)` says whether the i-th delete request succeeded. */
module Delete {
  import opened Wrappers
  import opened Strings
  import opened KbTypes
  import opened Sequences

  /** The summary the command keeps of a listed document. */
  datatype Candidate = Candidate(id: string, name: string, docType: DocType, isCreator: bool, hasDependentAgents: bool)

  function Summarize(d: Document): (c: Candidate)
    ensures c.id == d.id && c.name == d.name && c.docType == d.docType
    ensures c.isCreator == d.accessInfo.isCreator
    ensures c.hasDependentAgents <==> |d.dependentAgents| > 0
  {
    Candidate(d.id, d.name, d.docType, d.accessInfo.isCreator, |d.dependentAgents| > 0)
  }

  /** The listing: the candidates of one page, or the fatal error carrying the body. */
  datatype Listing = Candidates(docs: seq<Candidate>) | ListingFailed(message: string)

  /** `getAllDocuments`: one request for one page of up to 100; a second page is
      never asked for. */
  function GetAllDocuments(response: PageResponse): (r: Listing)
    ensures response.PageErr? <==> r.ListingFailed?
    ensures r.ListingFailed? ==> r.message == response.body
    ensures r.Candidates? ==> |r.docs| == |response.documents|
                              && forall i :: 0 <= i < |r.docs| ==> r.docs[i] == Summarize(response.documents[i])
  {
    if response.PageErr? then ListingFailed(response.body) else Candidates(Map(response.documents, Summarize))
  }

  /** The id argument split on commas; no argument gives no ids, and an empty
      argument gives one empty id. */
  function Ids(idCsv: Option<string>): (ids: seq<string>)
    ensures idCsv.None? ==> ids == []
    ensures idCsv.Some? ==> |ids| >= 1 && Join(ids, ',') == idCsv.value
    ensures forall k :: 0 <= k < |ids| ==> ',' !in ids[k]
  {
    if idCsv.None? then [] else Split(idCsv.value, ',')
  }

  /** The command's flags. A string flag holding "" counts as not given. */
  datatype Flags = Flags(
    all: bool,
    yesConfirm: bool,
    nameIncludes: Option<string>,
    nameExcludes: Option<string>,
    includePartial: bool,
    continueOnError: bool,
    types: Option<seq<DocType>>,
    onlyOwned: bool,
    ignoreDependentAgents: bool)

  /** Some id occurs inside `s` (`ids.some(id => s.includes(id))`). */
  function SomeIncluded(s: string, ids: seq<string>): (b: bool)
    ensures b <==> exists k :: 0 <= k < |ids| && Includes(s, ids[k])
  {
    if |ids| == 0 then false else SomeIncluded(s, ids[..|ids| - 1]) || Includes(s, ids[|ids| - 1])
  }

  /** The id test: an exact match, or with `--include-partial` any id as a substring. */
  predicate IdMatches(includePartial: bool, ids: seq<string>, c: Candidate) {
    if includePartial then SomeIncluded(c.id, ids) else c.id in ids
  }

  /** The id matches, in listing order. */
  function ById(flags: Flags, ids: seq<string>, all: seq<Candidate>): seq<Candidate> {
    Filter(all, (c: Candidate) => IdMatches(flags.includePartial, ids, c))
  }

  /** The matches of `--name-includes` in listing order, none when it is not given. */
  function ByIncludes(flags: Flags, all: seq<Candidate>): seq<Candidate> {
    if Given(flags.nameIncludes) then Filter(all, (c: Candidate) => Includes(c.name, flags.nameIncludes.value)) else []
  }

  /** The matches of `--name-excludes` in listing order, none when it is not given. */
  function ByExcludes(flags: Flags, all: seq<Candidate>): seq<Candidate> {
    if Given(flags.nameExcludes) then Filter(all, (c: Candidate) => !Includes(c.name, flags.nameExcludes.value)) else []
  }

  /** The documents picked before narrowing: all of them with `--all`; otherwise the
      id matches, followed by the name matches of `--name-includes`, followed by those
      of `--name-excludes`, each in listing order. A document matching two tests
      appears twice. */
  function Pick(flags: Flags, ids: seq<string>, all: seq<Candidate>): (r: seq<Candidate>)
    ensures flags.all ==> r == all
    ensures forall i :: 0 <= i < |r| ==> r[i] in all
    ensures |r| <= 3 * |all|
    ensures !flags.all ==> forall i :: 0 <= i < |all| && IdMatches(flags.includePartial, ids, all[i]) ==> all[i] in r
    ensures !flags.all ==> ById(flags, ids, all) <= r
  {
    if flags.all then all
    else ById(flags, ids, all) + ByIncludes(flags, all) + ByExcludes(flags, all)
  }

  /** How many of the three picking tests (id, name included, name excluded) `c`
      passes. */
  function TestsPassed(flags: Flags, ids: seq<string>, c: Candidate): (n: nat)
    ensures n <= 3
  {
    (if IdMatches(flags.includePartial, ids, c) then 1 else 0)
    + (if Given(flags.nameIncludes) && Includes(c.name, flags.nameIncludes.value) then 1 else 0)
    + (if Given(flags.nameExcludes) && !Includes(c.name, flags.nameExcludes.value) then 1 else 0)
  }

  /** Picking never deduplicates: without `--all` every listed copy of a document is
      picked once per test it passes, so at most three times as often as it is
      listed. */
  lemma PickCounts(flags: Flags, ids: seq<string>, all: seq<Candidate>, c: Candidate)
    ensures multiset(Pick(flags, ids, all))[c] == (if flags.all then 1 else TestsPassed(flags, ids, c)) * multiset(all)[c]
    ensures multiset(Pick(flags, ids, all))[c] <= 3 * multiset(all)[c]
  {
    if !flags.all {
      var m := multiset(all)[c];
      var x := multiset(ById(flags, ids, all))[c];
      var y := multiset(ByIncludes(flags, all))[c];
      var z := multiset(ByExcludes(flags, all))[c];
      FilterCount(all, (c: Candidate) => IdMatches(flags.includePartial, ids, c), c);
      if Given(flags.nameIncludes) {
        FilterCount(all, (c: Candidate) => Includes(c.name, flags.nameIncludes.value), c);
      }
      if Given(flags.nameExcludes) {
        FilterCount(all, (c: Candidate) => !Includes(c.name, flags.nameExcludes.value), c);
      }
      assert multiset(Pick(flags, ids, all))[c] == x + y + z;
      ScaledSum(IdMatches(flags.includePartial, ids, c),
                Given(flags.nameIncludes) && Includes(c.name, flags.nameIncludes.value),
                Given(flags.nameExcludes) && !Includes(c.name, flags.nameExcludes.value), m);
    }
  }

  /** A sum of three terms, each `m` or 0, is `m` times the number of `m`s. */
  lemma ScaledSum(a: bool, b: bool, d: bool, m: nat)
    ensures (if a then m else 0) + (if b then m else 0) + (if d then m else 0)
            == ((if a then 1 else 0) + (if b then 1 else 0) + (if d then 1 else 0)) * m
  {
  }

  /** The narrowing that applies even with `--all`: by kind, then by ownership. */
  function Narrow(flags: Flags, picked: seq<Candidate>): (r: seq<Candidate>)
    ensures |r| <= |picked|
    ensures forall i :: 0 <= i < |r| ==> r[i] in picked
    ensures forall i :: 0 <= i < |r| ==> (flags.types.Some? ==> r[i].docType in flags.types.value) && (flags.onlyOwned ==> r[i].isCreator)
    ensures flags.types.None? && !flags.onlyOwned ==> r == picked
  {
    var typed := if flags.types.Some? then Filter(picked, (c: Candidate) => c.docType in flags.types.value) else picked;
    if flags.onlyOwned then Filter(typed, (c: Candidate) => c.isCreator) else typed
  }

  /** The selection: the picked documents, narrowed. Each listed document appears at
      most once per test, so at most three times. */
  function Select(flags: Flags, ids: seq<string>, all: seq<Candidate>): (r: seq<Candidate>)
    ensures |r| <= 3 * |all|
    ensures forall i :: 0 <= i < |r| ==> r[i] in all
  {
    Narrow(flags, Pick(flags, ids, all))
  }

  /** `c` survives the narrowing by kind and ownership. */
  predicate Narrowed(flags: Flags, c: Candidate) {
    (flags.types.Some? ==> c.docType in flags.types.value) && (flags.onlyOwned ==> c.isCreator)
  }

  /** The narrowing keeps every picked copy of a document of a requested kind (and
      the user's, with `--only-owned`) and no copy of any other. */
  lemma SelectCounts(flags: Flags, ids: seq<string>, all: seq<Candidate>, c: Candidate)
    ensures multiset(Select(flags, ids, all))[c] == if Narrowed(flags, c) then multiset(Pick(flags, ids, all))[c] else 0
  {
    var picked := Pick(flags, ids, all);
    var typed := if flags.types.Some? then Filter(picked, (c: Candidate) => c.docType in flags.types.value) else picked;
    if flags.types.Some? {
      FilterCount(picked, (c: Candidate) => c.docType in flags.types.value, c);
    }
    if flags.onlyOwned {
      FilterCount(typed, (c: Candidate) => c.isCreator, c);
    }
  }

  /** A document is selected exactly when it was listed, passes the id or a name
      test (or `--all` is set), has one of the requested kinds and, with
      `--only-owned`, belongs to the user. */
  lemma SelectedMembership(flags: Flags, ids: seq<string>, all: seq<Candidate>, c: Candidate)
    ensures c in Select(flags, ids, all) <==>
            && c in all
            && (|| flags.all
                || IdMatches(flags.includePartial, ids, c)
                || (Given(flags.nameIncludes) && Includes(c.name, flags.nameIncludes.value))
                || (Given(flags.nameExcludes) && !Includes(c.name, flags.nameExcludes.value)))
            && (flags.types.Some? ==> c.docType in flags.types.value)
            && (flags.onlyOwned ==> c.isCreator)
  {
    if !flags.all {
      FilterMembership(all, (c: Candidate) => IdMatches(flags.includePartial, ids, c), c);
      if Given(flags.nameIncludes) {
        FilterMembership(all, (c: Candidate) => Includes(c.name, flags.nameIncludes.value), c);
      }
      if Given(flags.nameExcludes) {
        FilterMembership(all, (c: Candidate) => !Includes(c.name, flags.nameExcludes.value), c);
      }
    }
    var picked := Pick(flags, ids, all);
    var typed := if flags.types.Some? then Filter(picked, (c: Candidate) => c.docType in flags.types.value) else picked;
    if flags.types.Some? {
      FilterMembership(picked, (c: Candidate) => c.docType in flags.types.value, c);
    }
    if flags.onlyOwned {
      FilterMembership(typed, (c: Candidate) => c.isCreator, c);
    }
  }

  /** `--all` selects every listed document, whatever ids and name tests are given,
      unless `--type` or `--only-owned` narrow it. */
  lemma AllIgnoresOtherTests(flags: Flags, ids: seq<string>, all: seq<Candidate>)
    requires flags.all && flags.types.None? && !flags.onlyOwned
    ensures Select(flags, ids, all) == all
  {
  }

  /** An empty entry in the id list (as in "a," or "") matches every id when partial
      matches are on, since every string includes the empty string. */
  lemma EmptyIdMatchesAll(flags: Flags, ids: seq<string>, all: seq<Candidate>)
    requires !flags.all && flags.includePartial && "" in ids
    ensures |all| <= |Pick(flags, ids, all)| && Pick(flags, ids, all)[..|all|] == all
  {
    var k :| 0 <= k < |ids| && ids[k] == "";
    forall c | c in all
      ensures IdMatches(flags.includePartial, ids, c)
    {
      assert OccursAt(c.id, ids[k], 0);
    }
    FilterAll(all, (c: Candidate) => IdMatches(flags.includePartial, ids, c));
  }

  /** The id argument "a," splits into "a" and an empty id. */
  lemma TrailingCommaIds()
    ensures Ids(Some("a,")) == ["a", ""]
  {
    assert IndexOf("a,", ',') == Some(1);
    assert "a,"[..1] == "a" && "a,"[2..] == "";
  }

  /** The first gate: without `--yes-confirm`, only the confirmed ids stay. */
  function ConfirmGate(flags: Flags, selected: seq<Candidate>, confirmed: seq<string>): seq<Candidate> {
    if flags.yesConfirm then selected else Filter(selected, (c: Candidate) => c.id in confirmed)
  }

  /** The second gate: when some document has dependent agents and they are not
      ignored, such documents stay only when confirmed again. */
  function DependentGate(flags: Flags, docs: seq<Candidate>, confirmedDependent: seq<string>): seq<Candidate> {
    if |Filter(docs, (c: Candidate) => c.hasDependentAgents)| > 0 && !flags.ignoreDependentAgents
    then Filter(docs, (c: Candidate) => !c.hasDependentAgents || c.id in confirmedDependent)
    else docs
  }

  /** What the gates leave: the documents to delete, or nothing to do. */
  datatype Gated = Proceed(docs: seq<Candidate>) | NothingToDelete

  /** The gates between selection and deletion. An empty selection ends the run.
      Without `--yes-confirm` the user confirms from the selection (`confirmed`); no
      confirmation ends the run, otherwise only confirmed ids stay. Then, unless
      `--ignore-dependent-agents`, documents with dependent agents stay only when
      confirmed again (`confirmedDependent`), which is asked only when there are
      such documents. An empty result ends the run. */
  function ApplyGates(flags: Flags, selected: seq<Candidate>, confirmed: seq<string>, confirmedDependent: seq<string>): (r: Gated)
    ensures |selected| == 0 ==> r == NothingToDelete
    ensures !flags.yesConfirm && |confirmed| == 0 ==> r == NothingToDelete
    ensures r.Proceed? ==> |r.docs| > 0 && |r.docs| <= |selected|
    ensures r.Proceed? ==> forall c :: c in r.docs ==>
              && c in selected
              && (flags.yesConfirm || c.id in confirmed)
              && (c.hasDependentAgents ==> flags.ignoreDependentAgents || c.id in confirmedDependent)
    ensures forall c ::
              && c in selected
              && (flags.yesConfirm || c.id in confirmed)
              && (c.hasDependentAgents ==> flags.ignoreDependentAgents || c.id in confirmedDependent) ==>
                r.Proceed? && c in r.docs
  {
    if |selected| == 0 then NothingToDelete
    else if !flags.yesConfirm && |confirmed| == 0 then NothingToDelete
    else
      var afterDependent := DependentGate(flags, ConfirmGate(flags, selected, confirmed), confirmedDependent);
      if |afterDependent| == 0 then NothingToDelete else Proceed(afterDependent)
  }

  /** The dependent-agents gate removes only documents that have dependent agents:
      a confirmed document without any always reaches the delete loop. */
  lemma NoDependentsNeverGated(flags: Flags, selected: seq<Candidate>, confirmed: seq<string>, confirmedDependent: seq<string>, c: Candidate)
    requires c in selected && !c.hasDependentAgents
    requires flags.yesConfirm || c.id in confirmed
    ensures var r := ApplyGates(flags, selected, confirmed, confirmedDependent);
            r.Proceed? && c in r.docs
  {
  }

  /** With `--yes-confirm` the first prompt's answer plays no part, and with
      `--ignore-dependent-agents` the second one's does not. */
  lemma PromptsSkipped(flags: Flags, selected: seq<Candidate>, c1: seq<string>, c2: seq<string>, d1: seq<string>, d2: seq<string>)
    ensures flags.yesConfirm ==> ApplyGates(flags, selected, c1, d1) == ApplyGates(flags, selected, c2, d1)
    ensures flags.ignoreDependentAgents ==> ApplyGates(flags, selected, c1, d1) == ApplyGates(flags, selected, c1, d2)
  {
  }

  /** With both prompts skipped every selected document is deleted. */
  lemma UnattendedDeletesSelection(flags: Flags, selected: seq<Candidate>, confirmed: seq<string>, confirmedDependent: seq<string>)
    requires flags.yesConfirm && flags.ignoreDependentAgents && |selected| > 0
    ensures ApplyGates(flags, selected, confirmed, confirmedDependent) == Proceed(selected)
  {
  }

  /** The ids of `docs`, in order. */
  function IdsOf(docs: seq<Candidate>): (r: seq<string>)
    ensures |r| == |docs|
    ensures forall i :: 0 <= i < |r| ==> r[i] == docs[i].id
  {
    if |docs| == 0 then [] else IdsOf(docs[..|docs| - 1]) + [docs[|docs| - 1].id]
  }

  /** The gates keep every copy of a selected document that passes them. */
  lemma GatesKeepCopies(flags: Flags, selected: seq<Candidate>, confirmed: seq<string>, confirmedDependent: seq<string>, c: Candidate)
    requires c in selected
    requires flags.yesConfirm || c.id in confirmed
    requires c.hasDependentAgents ==> flags.ignoreDependentAgents || c.id in confirmedDependent
    ensures var r := ApplyGates(flags, selected, confirmed, confirmedDependent);
            r.Proceed? && multiset(r.docs)[c] == multiset(selected)[c]
  {
    var afterConfirm := ConfirmGate(flags, selected, confirmed);
    if !flags.yesConfirm {
      FilterCount(selected, (c: Candidate) => c.id in confirmed, c);
    }
    assert multiset(afterConfirm)[c] == multiset(selected)[c];
    var afterDependent := DependentGate(flags, afterConfirm, confirmedDependent);
    if |Filter(afterConfirm, (c: Candidate) => c.hasDependentAgents)| > 0 && !flags.ignoreDependentAgents {
      FilterCount(afterConfirm, (c: Candidate) => !c.hasDependentAgents || c.id in confirmedDependent, c);
    }
    assert multiset(afterDependent)[c] == multiset(afterConfirm)[c];
    assert c in afterDependent;
  }

  /** Every copy of a document contributes its id to the list of ids. */
  lemma {:induction false} IdsCount(docs: seq<Candidate>, c: Candidate)
    ensures multiset(IdsOf(docs))[c.id] >= multiset(docs)[c]
    decreases |docs|
  {
    if |docs| > 0 {
      var init := docs[..|docs| - 1];
      IdsCount(init, c);
      assert docs == init + [docs[|docs| - 1]];
    }
  }

  /** The selection is not deduplicated: a listed document that matches the id
      test and the `--name-includes` test, and passes the narrowing and the gates,
      reaches the delete loop at least twice, and its id is in the loop's list of
      ids at least twice. */
  lemma MatchedTwiceGatedTwice(flags: Flags, ids: seq<string>, all: seq<Candidate>, confirmed: seq<string>, confirmedDependent: seq<string>, c: Candidate)
    requires !flags.all && c in all
    requires IdMatches(flags.includePartial, ids, c)
    requires Given(flags.nameIncludes) && Includes(c.name, flags.nameIncludes.value)
    requires Narrowed(flags, c)
    requires flags.yesConfirm || c.id in confirmed
    requires c.hasDependentAgents ==> flags.ignoreDependentAgents || c.id in confirmedDependent
    ensures var g := ApplyGates(flags, Select(flags, ids, all), confirmed, confirmedDependent);
            g.Proceed? && multiset(g.docs)[c] >= 2 && multiset(IdsOf(g.docs))[c.id] >= 2
  {
    var selected := Select(flags, ids, all);
    PickCounts(flags, ids, all, c);
    SelectCounts(flags, ids, all, c);
    assert multiset(selected)[c] >= 2;
    GatesKeepCopies(flags, selected, confirmed, confirmedDependent, c);
    IdsCount(ApplyGates(flags, selected, confirmed, confirmedDependent).docs, c);
  }
  /** With `--continue-on-error` the loop sends every entry, so such a document
      gets at least two delete requests. (Without it, a failed first request ends
      the run and the second is never sent.) */
  lemma ContinueSendsTwice(flags: Flags, ids: seq<string>, all: seq<Candidate>, confirmed: seq<string>, confirmedDependent: seq<string>,
                           c: Candidate, ok: nat -> bool, outcome: DeleteOutcome, calls: seq<string>)
    requires !flags.all && c in all
    requires IdMatches(flags.includePartial, ids, c)
    requires Given(flags.nameIncludes) && Includes(c.name, flags.nameIncludes.value)
    requires Narrowed(flags, c)
    requires flags.yesConfirm || c.id in confirmed
    requires c.hasDependentAgents ==> flags.ignoreDependentAgents || c.id in confirmedDependent
    requires Reported(ApplyGates(flags, Select(flags, ids, all), confirmed, confirmedDependent), true, ok, outcome, calls)
    ensures multiset(calls)[c.id] >= 2
  {
    MatchedTwiceGatedTwice(flags, ids, all, confirmed, confirmedDependent, c);
  }


  /** The number of successful requests among the first `n`. */
  function Successes(ok: nat -> bool, n: nat): (c: nat)
    ensures c <= n
  {
    if n == 0 then 0 else Successes(ok, n - 1) + (if ok(n - 1) then 1 else 0)
  }

  /** The index of the first failed request among the first `n`, or `n`. */
  function FirstFailure(ok: nat -> bool, n: nat): (k: nat)
    ensures k <= n
    ensures forall i :: 0 <= i < k ==> ok(i)
    ensures k < n ==> !ok(k)
  {
    if n == 0 then 0
    else if FirstFailure(ok, n - 1) < n - 1 then FirstFailure(ok, n - 1)
    else if ok(n - 1) then n
    else n - 1
  }

  /** How the command ends: the two counts; a fatal listing error; or the error at
      the first failed delete, with the number deleted before it (which the command
      never reports, as the error ends it). */
  datatype DeleteOutcome =
    | Deleted(deletedCount: nat, failedCount: nat)
    | DeleteFatal(message: string)
    | DeleteAborted(message: string, deletedBefore: nat)

  function FailureMessage(id: string): string {
    "Failed to delete document " + id
  }

  /** The delete loop. `calls` records the id of every delete request in order. With
      `--continue-on-error` every document is tried and the failures are counted;
      without it the first failure ends the run with an error, so no counts are
      reported and nothing after it is tried. */
  method DeleteLoop(docs: seq<Candidate>, continueOnError: bool, ok: nat -> bool) returns (outcome: DeleteOutcome, calls: seq<string>)
    ensures continueOnError ==>
              calls == IdsOf(docs)
              && outcome == Deleted(Successes(ok, |docs|), |docs| - Successes(ok, |docs|))
    ensures !continueOnError && FirstFailure(ok, |docs|) == |docs| ==>
              calls == IdsOf(docs) && outcome == Deleted(|docs|, 0)
    ensures !continueOnError && FirstFailure(ok, |docs|) < |docs| ==>
              var k := FirstFailure(ok, |docs|);
              calls == IdsOf(docs[..k + 1]) && outcome == DeleteAborted(FailureMessage(docs[k].id), k)
  {
    var deletedCount, failedCount := 0, 0;
    calls := [];
    for i := 0 to |docs|
      invariant calls == IdsOf(docs[..i])
      invariant deletedCount == Successes(ok, i)
      invariant deletedCount + failedCount == i
      invariant !continueOnError ==> FirstFailure(ok, i) == i && failedCount == 0
    {
      assert docs[..i + 1][..i] == docs[..i];
      calls := calls + [docs[i].id];
      if ok(i) {
        deletedCount := deletedCount + 1;
      } else {
        if !continueOnError {
          FirstFailureStays(ok, i + 1, |docs|);
          outcome := DeleteAborted(FailureMessage(docs[i].id), deletedCount);
          return;
        }
        failedCount := failedCount + 1;
      }
    }
    assert docs[..|docs|] == docs;
    outcome := Deleted(deletedCount, failedCount);
  }

  /** A failure among the first `m` requests is still the first among more. */
  lemma {:induction false} FirstFailureStays(ok: nat -> bool, m: nat, n: nat)
    requires m <= n && FirstFailure(ok, m) < m
    ensures FirstFailure(ok, n) == FirstFailure(ok, m)
    decreases n - m
  {
    if m < n {
      FirstFailureStays(ok, m, n - 1);
    }
  }

  /** Three deletes of which the second fails: without `--continue-on-error` the
      first failure is request 1, so the loop makes two requests, one of them a
      success, and the third document is never tried. */
  lemma SecondOfThreeFails()
    ensures FirstFailure(i => i != 1, 3) == 1
    ensures Successes(i => i != 1, 1) == 1
  {
    assert FirstFailure(i => i != 1, 1) == 1;
    assert FirstFailure(i => i != 1, 2) == 1;
  }

  /** What the command reports after the gates, given the requests' success:
      nothing to delete gives zero counts without a request; otherwise the delete
      requests go out in order, all of them and counted with `--continue-on-error`,
      and without it up to and including the first failure, which ends the run. */
  predicate Reported(gated: Gated, continueOnError: bool, ok: nat -> bool, outcome: DeleteOutcome, calls: seq<string>) {
    match gated
    case NothingToDelete => outcome == Deleted(0, 0) && calls == []
    case Proceed(docs) =>
      var n := |docs|;
      var k := FirstFailure(ok, n);
      && calls <= IdsOf(docs)
      && (n > 0 ==> |calls| >= 1)
      && (continueOnError ==> calls == IdsOf(docs) && outcome == Deleted(Successes(ok, n), n - Successes(ok, n)))
      && (!continueOnError && k == n ==> calls == IdsOf(docs) && outcome == Deleted(n, 0))
      && (!continueOnError && k < n ==> calls == IdsOf(docs[..k + 1]) && outcome == DeleteAborted(FailureMessage(docs[k].id), k))
  }

  /** The part of the command after the gates. */
  method DeleteGated(gated: Gated, continueOnError: bool, ok: nat -> bool) returns (outcome: DeleteOutcome, calls: seq<string>)
    ensures Reported(gated, continueOnError, ok, outcome, calls)
  {
    if gated.NothingToDelete? {
      outcome, calls := Deleted(0, 0), [];
      return;
    }
    var docs := gated.docs;
    outcome, calls := DeleteLoop(docs, continueOnError, ok);
    var k := FirstFailure(ok, |docs|);
    if !continueOnError && k < |docs| {
      PrefixIds(docs, k);
    }
  }

  /** The command after the API key: list, split the ids, select, pass the gates,
      delete. A failed listing ends the run with its body and sends no delete
      request; otherwise the run reports what the delete loop gives on the documents
      the gates let through, which are never none. */
  method Run(flags: Flags, idCsv: Option<string>, listing: PageResponse, confirmed: seq<string>,
             confirmedDependent: seq<string>, ok: nat -> bool)
    returns (outcome: DeleteOutcome, calls: seq<string>)
    ensures listing.PageErr? ==> outcome == DeleteFatal(listing.body) && calls == []
    ensures listing.PageOk? ==>
              var gated := ApplyGates(flags, Select(flags, Ids(idCsv), Map(listing.documents, Summarize)), confirmed, confirmedDependent);
              && (gated.Proceed? ==> |gated.docs| > 0)
              && Reported(gated, flags.continueOnError, ok, outcome, calls)
  {
    var ids := Ids(idCsv);
    var all := GetAllDocuments(listing);
    if all.ListingFailed? {
      outcome, calls := DeleteFatal(all.message), [];
      return;
    }
    assert all.docs == Map(listing.documents, Summarize);
    var gated := ApplyGates(flags, Select(flags, ids, all.docs), confirmed, confirmedDependent);
    outcome, calls := DeleteGated(gated, flags.continueOnError, ok);
  }

  lemma PrefixIds(docs: seq<Candidate>, k: nat)
    requires k < |docs|
    ensures IdsOf(docs[..k + 1]) <= IdsOf(docs)
  {
  }
}
