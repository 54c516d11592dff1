/** The statistics of the backup command: the `reduce` helpers `bytes`,
    `characters`, `tokens`, `age` and `updated`, the record `calcStats` builds from
    them, and `formatAge`, which renders an average age.

    Every rounded figure is `Math.round` of a quotient of integers, taken here in
    exact arithmetic: the nearest integer, halves rounded up. An average over no
    documents divides by zero and is `None` (NaN in the code, `null` once written as
    JSON). */
module BackupStats {
  import opened Wrappers
  import opened Strings
  import opened KbTypes

  /** `r` is the nearest integer to a / b, halves rounded up:
      r - 1/2 <= a / b < r + 1/2. */
  predicate NearestQuotient(r: int, a: int, b: int) {
    2 * (r * b) - b <= 2 * a < 2 * (r * b) + b
  }

  /** `Math.round(a / b)` for a positive divisor. */
  function RoundDiv(a: int, b: int): (r: int)
    requires b > 0
    ensures NearestQuotient(r, a, b)
  {
    (2 * a + b) / (2 * b)
  }

  lemma MulGe(b: int, d: int)
    requires b > 0
    ensures d >= 1 ==> d * b >= b
  {
    if d >= 1 {
      var e := d - 1;
      assert d * b == e * b + b;
      assert e * b >= 0;
    }
  }

  lemma MulDiff(x: int, y: int, b: int)
    ensures x * b - y * b == (x - y) * b
  {
  }

  /** Only one integer is nearest to a quotient, so `RoundDiv` is the rounding. */
  lemma NearestUnique(r: int, s: int, a: int, b: int)
    requires b > 0
    requires NearestQuotient(r, a, b) && NearestQuotient(s, a, b)
    ensures r == s
  {
    MulDiff(r, s, b);
    MulDiff(s, r, b);
    MulGe(b, r - s);
    MulGe(b, s - r);
  }

  /** The length of a document's extracted text, 0 when it has none. */
  function TextLength(doc: Document): nat {
    match doc.extractedInnerHtml
    case Some(html) => |html|
    case None => 0
  }

  /** `bytes`: the sum of `size_bytes`, accumulated from 0 in document order. */
  function Bytes(docs: seq<Document>): int {
    if |docs| == 0 then 0 else Bytes(docs[..|docs| - 1]) + docs[|docs| - 1].metadata.sizeBytes
  }

  /** `characters`: the sum of extracted-text lengths. */
  function Characters(docs: seq<Document>): nat {
    if |docs| == 0 then 0 else Characters(docs[..|docs| - 1]) + TextLength(docs[|docs| - 1])
  }

  /** `tokens` adds a quarter of each extracted-text length without rounding; in
      exact arithmetic that sum is `Characters(docs) / 4`, so it is not a separate
      function here and each token figure is one rounding of a quotient of
      `Characters(docs)`. */

  /** The sum inside `age`: for each document, `now` minus its last update, in
      milliseconds. */
  function AgeMillis(docs: seq<Document>, nowMs: int): int {
    if |docs| == 0 then 0
    else AgeMillis(docs[..|docs| - 1], nowMs) + (nowMs - docs[|docs| - 1].metadata.lastUpdatedAtUnixSecs * 1000)
  }

  /** `updated`: the latest `last_updated_at_unix_secs`, seeded with 0. */
  function Updated(docs: seq<Document>): (r: int)
    ensures r >= 0
    ensures forall i :: 0 <= i < |docs| ==> docs[i].metadata.lastUpdatedAtUnixSecs <= r
    ensures r == 0 || exists i :: 0 <= i < |docs| && r == docs[i].metadata.lastUpdatedAtUnixSecs
  {
    if |docs| == 0 then 0
    else
      var prev := Updated(docs[..|docs| - 1]);
      var last := docs[|docs| - 1].metadata.lastUpdatedAtUnixSecs;
      if prev >= last then prev else last
  }

  /** `Math.round(total / n)`, NaN for no documents. */
  function Average(total: int, n: nat): (r: Option<int>)
    ensures r.None? <==> n == 0
    ensures r.Some? ==> NearestQuotient(r.value, total, n)
  {
    if n == 0 then None else Some(RoundDiv(total, n))
  }

  /** `age`: the rounded mean age in seconds at time `nowMs` (milliseconds). */
  function Age(docs: seq<Document>, nowMs: int): (r: Option<int>)
    ensures r.None? <==> |docs| == 0
    ensures r.Some? ==> NearestQuotient(r.value, AgeMillis(docs, nowMs), 1000 * |docs|)
  {
    if |docs| == 0 then None else Some(RoundDiv(AgeMillis(docs, nowMs), 1000 * |docs|))
  }

  datatype Stats = Stats(
    numberOfDocuments: nat,
    totalSizeBytes: int,
    averageSizeBytes: Option<int>,
    averageDocumentAge: Option<int>,
    lastUpdatedAt: int,
    totalCharacters: nat,
    averageCharacters: Option<int>,
    approxTotalTokens: int,
    approxAverageTokens: Option<int>)

  /** `calcStats`. Every average is the nearest integer to its exact quotient and is
      absent exactly when there are no documents; the token figures are a quarter of
      the character figures, rounded once; the last update is the latest one, or 0. */
  function CalcStats(docs: seq<Document>, nowMs: int): (s: Stats)
    ensures s.numberOfDocuments == |docs|
    ensures s.totalSizeBytes == Bytes(docs) && s.totalCharacters == Characters(docs)
    ensures NearestQuotient(s.approxTotalTokens, s.totalCharacters, 4)
    ensures |docs| == 0 <==> s.averageSizeBytes.None?
    ensures |docs| == 0 <==> s.averageCharacters.None?
    ensures |docs| == 0 <==> s.averageDocumentAge.None?
    ensures |docs| == 0 <==> s.approxAverageTokens.None?
    ensures s.averageSizeBytes.Some? ==> NearestQuotient(s.averageSizeBytes.value, s.totalSizeBytes, |docs|)
    ensures s.averageCharacters.Some? ==> NearestQuotient(s.averageCharacters.value, s.totalCharacters, |docs|)
    ensures s.approxAverageTokens.Some? ==> NearestQuotient(s.approxAverageTokens.value, s.totalCharacters, 4 * |docs|)
    ensures s.averageDocumentAge.Some? ==> NearestQuotient(s.averageDocumentAge.value, AgeMillis(docs, nowMs), 1000 * |docs|)
    ensures s.lastUpdatedAt >= 0
    ensures forall i :: 0 <= i < |docs| ==> docs[i].metadata.lastUpdatedAtUnixSecs <= s.lastUpdatedAt
    ensures s.lastUpdatedAt == 0 || exists i :: 0 <= i < |docs| && s.lastUpdatedAt == docs[i].metadata.lastUpdatedAtUnixSecs
  {
    var n := |docs|;
    var bytes := Bytes(docs);
    var chars := Characters(docs);
    Stats(
      numberOfDocuments := n,
      totalSizeBytes := bytes,
      averageSizeBytes := Average(bytes, n),
      averageDocumentAge := Age(docs, nowMs),
      lastUpdatedAt := Updated(docs),
      totalCharacters := chars,
      averageCharacters := Average(chars, n),
      approxTotalTokens := RoundDiv(chars, 4),
      approxAverageTokens := Average(chars, 4 * n))
  }

  /** An empty document set has zero totals, a zero last-update time and NaN averages. */
  lemma EmptyStats(nowMs: int)
    ensures CalcStats([], nowMs) == Stats(0, 0, None, None, 0, 0, None, 0, None)
  {
    assert RoundDiv(0, 4) == 0;
  }

  lemma {:induction false} BytesAppend(a: seq<Document>, b: seq<Document>)
    ensures Bytes(a + b) == Bytes(a) + Bytes(b)
    decreases |b|
  {
    if |b| == 0 {
      assert a + b == a;
    } else {
      assert (a + b)[..|a + b| - 1] == a + b[..|b| - 1];
      BytesAppend(a, b[..|b| - 1]);
    }
  }

  lemma {:induction false} CharactersAppend(a: seq<Document>, b: seq<Document>)
    ensures Characters(a + b) == Characters(a) + Characters(b)
    decreases |b|
  {
    if |b| == 0 {
      assert a + b == a;
    } else {
      assert (a + b)[..|a + b| - 1] == a + b[..|b| - 1];
      CharactersAppend(a, b[..|b| - 1]);
    }
  }

  lemma {:induction false} UpdatedAppend(a: seq<Document>, b: seq<Document>)
    ensures Updated(a + b) == if Updated(a) >= Updated(b) then Updated(a) else Updated(b)
    decreases |b|
  {
    if |b| == 0 {
      assert a + b == a;
    } else {
      assert (a + b)[..|a + b| - 1] == a + b[..|b| - 1];
      UpdatedAppend(a, b[..|b| - 1]);
    }
  }

  /** The combined statistics over the three buckets (text, then file, then url)
      agree with the per-type ones: counts, sizes and characters add up, and the last
      update is the latest of the three. */
  lemma CombinedStats(text: seq<Document>, file: seq<Document>, url: seq<Document>, nowMs: int)
    ensures var all := CalcStats(text + file + url, nowMs);
            var t, f, u := CalcStats(text, nowMs), CalcStats(file, nowMs), CalcStats(url, nowMs);
            && all.numberOfDocuments == t.numberOfDocuments + f.numberOfDocuments + u.numberOfDocuments
            && all.totalSizeBytes == t.totalSizeBytes + f.totalSizeBytes + u.totalSizeBytes
            && all.totalCharacters == t.totalCharacters + f.totalCharacters + u.totalCharacters
            && all.lastUpdatedAt >= t.lastUpdatedAt && all.lastUpdatedAt >= f.lastUpdatedAt
            && all.lastUpdatedAt >= u.lastUpdatedAt
            && (all.lastUpdatedAt == t.lastUpdatedAt || all.lastUpdatedAt == f.lastUpdatedAt
                || all.lastUpdatedAt == u.lastUpdatedAt)
  {
    BytesAppend(text, file);
    BytesAppend(text + file, url);
    CharactersAppend(text, file);
    CharactersAppend(text + file, url);
    UpdatedAppend(text, file);
    UpdatedAppend(text + file, url);
  }

  lemma {:induction false} BytesBounds(docs: seq<Document>, lo: int, hi: int)
    requires forall i :: 0 <= i < |docs| ==> lo <= docs[i].metadata.sizeBytes <= hi
    ensures |docs| * lo <= Bytes(docs) <= |docs| * hi
  {
    if |docs| > 0 {
      var n := |docs|;
      BytesBounds(docs[..n - 1], lo, hi);
      assert n * lo == (n - 1) * lo + lo;
      assert n * hi == (n - 1) * hi + hi;
    }
  }

  /** The average size lies between the smallest and the largest document size. */
  lemma AverageSizeWithinBounds(docs: seq<Document>, nowMs: int, lo: int, hi: int)
    requires |docs| > 0
    requires forall i :: 0 <= i < |docs| ==> lo <= docs[i].metadata.sizeBytes <= hi
    ensures var a := CalcStats(docs, nowMs).averageSizeBytes; a.Some? && lo <= a.value <= hi
  {
    var n := |docs|;
    BytesBounds(docs, lo, hi);
    var r := CalcStats(docs, nowMs).averageSizeBytes.value;
    // r > hi would put the quotient at least half a unit above hi, r < lo below lo
    MulDiff(r, hi, n);
    MulGe(n, r - hi);
    MulDiff(lo, r, n);
    MulGe(n, lo - r);
  }

  /** Seconds in a minute, hour, day, 30-day month and 365-day year. */
  const Minute: int := 60
  const Hour: int := 60 * 60
  const Day: int := 60 * 60 * 24
  const Month: int := 60 * 60 * 24 * 30
  const Year: int := 60 * 60 * 24 * 365

  /** The unit `formatAge` chooses for an age and the rounded count in it. The first
      unit whose length the age strictly exceeds is used, so each count is at least 1
      and at most the number of such units in the next larger one. */
  function AgeInUnits(seconds: int): (u: (int, string))
    ensures seconds > Year ==> u.1 == "year" && u.0 >= 1
    ensures Month < seconds <= Year ==> u.1 == "month" && 1 <= u.0 <= 12
    ensures Day < seconds <= Month ==> u.1 == "day" && 1 <= u.0 <= 30
    ensures Hour < seconds <= Day ==> u.1 == "hour" && 1 <= u.0 <= 24
    ensures Minute < seconds <= Hour ==> u.1 == "minute" && 1 <= u.0 <= 60
    ensures seconds <= Minute ==> u == (seconds, "second")
    ensures seconds > Year ==> NearestQuotient(u.0, seconds, Year)
    ensures Month < seconds <= Year ==> NearestQuotient(u.0, seconds, Month)
    ensures Day < seconds <= Month ==> NearestQuotient(u.0, seconds, Day)
    ensures Hour < seconds <= Day ==> NearestQuotient(u.0, seconds, Hour)
    ensures Minute < seconds <= Hour ==> NearestQuotient(u.0, seconds, Minute)
  {
    if seconds > Year then (RoundDiv(seconds, Year), "year")
    else if seconds > Month then (RoundDiv(seconds, Month), "month")
    else if seconds > Day then (RoundDiv(seconds, Day), "day")
    else if seconds > Hour then (RoundDiv(seconds, Hour), "hour")
    else if seconds > Minute then (RoundDiv(seconds, Minute), "minute")
    else (seconds, "second")
  }

  /** `pluralize`: the count, a space, the noun, and an `s` unless the count is 1. */
  function Pluralize(count: int, noun: string): string {
    IntToString(count) + " " + noun + (if count != 1 then "s" else "")
  }

  /** `formatAge`. NaN (the age of an empty set) matches no threshold and renders as
      "NaN seconds". */
  function FormatAge(seconds: Option<int>): (r: string)
    ensures seconds.None? ==> r == "NaN seconds"
    ensures seconds.Some? ==> var (count, noun) := AgeInUnits(seconds.value); r == Pluralize(count, noun)
  {
    match seconds
    case None => "NaN seconds"
    case Some(s) => var (count, noun) := AgeInUnits(s); Pluralize(count, noun)
  }

  /** One unit is written without a plural `s`, every other count with one. */
  lemma PluralizeSingular(count: int, noun: string)
    ensures Pluralize(count, noun) == IntToString(count) + " " + noun <==> count == 1
  {
    var base := IntToString(count) + " " + noun;
    if count != 1 {
      assert |Pluralize(count, noun)| == |base| + 1;
    }
  }
}
