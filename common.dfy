/** Optional values: an absent JSON field, a missing command-line argument, or the
    NaN that an average over no documents produces. */
module Wrappers {

  datatype Option<+T> = None | Some(value: T) {

    /** The value, or `default` when absent (the `??` operator). */
    function GetOr(default: T): T {
      match this
      case Some(v) => v
      case None => default
    }
  }
}

/** `Array.prototype.filter` and `map`, the list operations the commands share. */
module Sequences {

  /** `xs.filter(p)`. */
  function Filter<T(==)>(xs: seq<T>, p: T -> bool): (r: seq<T>)
    ensures |r| <= |xs|
    ensures forall i :: 0 <= i < |r| ==> r[i] in xs && p(r[i])
    ensures forall i :: 0 <= i < |xs| && p(xs[i]) ==> xs[i] in r
  {
    if |xs| == 0 then []
    else Filter(xs[..|xs| - 1], p) + (if p(xs[|xs| - 1]) then [xs[|xs| - 1]] else [])
  }

  /** `xs.map(f)`. */
  function Map<A, B>(xs: seq<A>, f: A -> B): (r: seq<B>)
    ensures |r| == |xs|
    ensures forall i :: 0 <= i < |r| ==> r[i] == f(xs[i])
  {
    if |xs| == 0 then [] else Map(xs[..|xs| - 1], f) + [f(xs[|xs| - 1])]
  }

  /** An element is kept exactly when it is in the list and passes the test. */
  lemma FilterMembership<T>(xs: seq<T>, p: T -> bool, x: T)
    ensures x in Filter(xs, p) <==> x in xs && p(x)
  {
    var r := Filter(xs, p);
    if x in r {
      var i :| 0 <= i < |r| && r[i] == x;
    }
    if x in xs && p(x) {
      var i :| 0 <= i < |xs| && xs[i] == x;
    }
  }

  /** Filtering keeps every copy of an element that passes the test and drops every
      copy of one that does not. */
  lemma {:induction false} FilterCount<T>(xs: seq<T>, p: T -> bool, x: T)
    ensures multiset(Filter(xs, p))[x] == if p(x) then multiset(xs)[x] else 0
    decreases |xs|
  {
    if |xs| > 0 {
      var init := xs[..|xs| - 1];
      FilterCount(init, p, x);
      assert xs == init + [xs[|xs| - 1]];
    }
  }

  /** Filtering keeps the order: filtering a concatenation concatenates the filtered
      parts. */
  lemma {:induction false} FilterAppend<T>(a: seq<T>, b: seq<T>, p: T -> bool)
    ensures Filter(a + b, p) == Filter(a, p) + Filter(b, p)
    decreases |b|
  {
    if |b| == 0 {
      assert a + b == a;
    } else {
      assert (a + b)[..|a + b| - 1] == a + b[..|b| - 1];
      FilterAppend(a, b[..|b| - 1], p);
    }
  }

  /** A filter that keeps everything changes nothing. */
  lemma {:induction false} FilterAll<T>(xs: seq<T>, p: T -> bool)
    requires forall i :: 0 <= i < |xs| ==> p(xs[i])
    ensures Filter(xs, p) == xs
  {
    if |xs| > 0 {
      FilterAll(xs[..|xs| - 1], p);
    }
  }

  /** Filtering twice is filtering once by both tests. */
  lemma {:induction false} FilterFilter<T>(xs: seq<T>, p: T -> bool, q: T -> bool)
    ensures Filter(Filter(xs, p), q) == Filter(xs, x => p(x) && q(x))
  {
    if |xs| > 0 {
      var init := xs[..|xs| - 1];
      FilterFilter(init, p, q);
      var x := xs[|xs| - 1];
      FilterAppend(Filter(init, p), if p(x) then [x] else [], q);
    }
  }
}

/** The knowledge-base document as the remote API returns it. */
module KbTypes {
  import opened Wrappers

  /** The closed set of document kinds; each one has its own bucket, statistics
      and backup sub-directory. */
  datatype DocType = Text | File | Url

  /** The string the API and the file system use for a document kind. */
  function TypeName(t: DocType): (s: string)
    ensures |s| > 0
    ensures s == "text" || s == "file" || s == "url"
  {
    match t
    case Text => "text"
    case File => "file"
    case Url => "url"
  }

  /** Distinct kinds have distinct names, so a name identifies its kind. */
  lemma TypeNameInjective(a: DocType, b: DocType)
    ensures TypeName(a) == TypeName(b) ==> a == b
  {
    if a != b {
      match a
      case Text => assert TypeName(a)[0] == 't';
      case File => assert TypeName(a)[0] == 'f';
      case Url => assert TypeName(a)[0] == 'u';
    }
  }

  datatype Metadata = Metadata(createdAtUnixSecs: int, lastUpdatedAtUnixSecs: int, sizeBytes: int)

  datatype AccessInfo = AccessInfo(isCreator: bool, creatorName: string, creatorEmail: string, role: string)

  /** A document. `url` is present for url documents; `extractedInnerHtml` only on the
      detail endpoint's answer. */
  datatype Document = Document(
    id: string,
    name: string,
    metadata: Metadata,
    supportedUsages: seq<string>,
    accessInfo: AccessInfo,
    dependentAgents: seq<string>,
    docType: DocType,
    url: Option<string>,
    extractedInnerHtml: Option<string>)

  /** One answer of the document-list endpoint: an ok page, or a non-ok response with
      its body. */
  datatype PageResponse =
    | PageOk(documents: seq<Document>, hasMore: bool, nextCursor: Option<string>)
    | PageErr(body: string)

  /** The number of documents of kind `t` in `docs`. */
  function CountOfType(docs: seq<Document>, t: DocType): (n: nat)
    ensures n <= |docs|
  {
    if |docs| == 0 then 0
    else CountOfType(docs[..|docs| - 1], t) + (if docs[|docs| - 1].docType == t then 1 else 0)
  }

  /** Every document has exactly one kind, so the three counts add up to the length. */
  lemma {:induction false} CountsOfTypesSum(docs: seq<Document>)
    ensures CountOfType(docs, Text) + CountOfType(docs, File) + CountOfType(docs, Url) == |docs|
  {
    if |docs| > 0 {
      CountsOfTypesSum(docs[..|docs| - 1]);
    }
  }
}
