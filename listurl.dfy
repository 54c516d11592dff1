/** The url search command: the url documents of one listed page whose url and
    name equal the given ones. */
module ListUrl {
  import opened Wrappers
  import opened Strings
  import opened KbTypes
  import opened Sequences

  /** The summary the command keeps of a listed document. */
  datatype Entry = Entry(id: string, name: string, docType: DocType, url: Option<string>)

  function Summarize(d: Document): (e: Entry)
    ensures e.id == d.id && e.name == d.name && e.docType == d.docType && e.url == d.url
  {
    Entry(d.id, d.name, d.docType, d.url)
  }

  /** The command's answer: the matches with their count and the search terms as
      given, or an error message. */
  datatype SearchResult = Found(count: nat, url: Option<string>, name: Option<string>, documents: seq<Entry>) | SearchFailed(message: string)

  const MissingTermMessage := "Either a url or name must be provided"

  /** The filters: url documents, then (when given) equal url, then (when given)
      equal name. */
  function Matches(url: Option<string>, name: Option<string>, all: seq<Entry>): seq<Entry> {
    var urls := Filter(all, (e: Entry) => e.docType == Url);
    var byUrl := if Given(url) then Filter(urls, (e: Entry) => e.url == url) else urls;
    if Given(name) then Filter(byUrl, (e: Entry) => e.name == name.value) else byUrl
  }

  /** The command. Without a url or a name it fails before anything is fetched; a
      non-ok listing fails with its body; otherwise it reports the matches. */
  function Search(url: Option<string>, name: Option<string>, listing: PageResponse): (r: SearchResult)
    ensures !Given(url) && !Given(name) ==> r == SearchFailed(MissingTermMessage)
    ensures (Given(url) || Given(name)) && listing.PageErr? ==> r == SearchFailed(listing.body)
    ensures (Given(url) || Given(name)) && listing.PageOk? ==> r.Found?
    ensures r.Found? ==> r.count == |r.documents| && r.url == url && r.name == name
    ensures r.Found? ==> forall i :: 0 <= i < |r.documents| ==>
              && r.documents[i].docType == Url
              && (Given(url) ==> r.documents[i].url == url)
              && (Given(name) ==> r.documents[i].name == name.value)
              && r.documents[i] in Map(listing.documents, Summarize)
  {
    if !Given(url) && !Given(name) then SearchFailed(MissingTermMessage)
    else if listing.PageErr? then SearchFailed(listing.body)
    else
      var found := Matches(url, name, Map(listing.documents, Summarize));
      Found(|found|, url, name, found)
  }

  /** A listed document is found exactly when it is a url document whose url and name
      equal the given ones (a term not given matches everything). */
  lemma FoundIff(url: Option<string>, name: Option<string>, listing: PageResponse, d: Document)
    requires Given(url) || Given(name)
    requires listing.PageOk? && d in listing.documents
    ensures var r := Search(url, name, listing);
            r.Found? && (Summarize(d) in r.documents <==>
              d.docType == Url && (Given(url) ==> d.url == url) && (Given(name) ==> d.name == name.value))
  {
    var all := Map(listing.documents, Summarize);
    var i :| 0 <= i < |listing.documents| && listing.documents[i] == d;
    assert all[i] == Summarize(d);
    var e := Summarize(d);
    var urls := Filter(all, (e: Entry) => e.docType == Url);
    var byUrl := if Given(url) then Filter(urls, (e: Entry) => e.url == url) else urls;
    FilterMembership(all, (e: Entry) => e.docType == Url, e);
    if Given(url) {
      FilterMembership(urls, (e: Entry) => e.url == url, e);
    }
    if Given(name) {
      FilterMembership(byUrl, (e: Entry) => e.name == name.value, e);
    }
  }

  /** The matches keep the listing's order: searching a listing split anywhere into
      two parts finds the first part's matches, then the second's. */
  lemma MatchesKeepOrder(url: Option<string>, name: Option<string>, a: seq<Entry>, b: seq<Entry>)
    ensures Matches(url, name, a + b) == Matches(url, name, a) + Matches(url, name, b)
  {
    var isUrl := (e: Entry) => e.docType == Url;
    var sameUrl := (e: Entry) => e.url == url;
    FilterAppend(a, b, isUrl);
    if Given(url) {
      FilterAppend(Filter(a, isUrl), Filter(b, isUrl), sameUrl);
    }
    var ua := if Given(url) then Filter(Filter(a, isUrl), sameUrl) else Filter(a, isUrl);
    var ub := if Given(url) then Filter(Filter(b, isUrl), sameUrl) else Filter(b, isUrl);
    if Given(name) {
      FilterAppend(ua, ub, (e: Entry) => e.name == name.value);
    }
  }
}
