/** The JavaScript string operations the core relies on, on `seq<char>`:
    `includes`, `endsWith`, `replace` with a string pattern (first occurrence only,
    with the `$` patterns of the replacement expanded),
    `split` and `join` on a one-character separator, and number-to-string. */
module Strings {
  import opened Wrappers

  /** An optional string that is present and not empty: what a JavaScript truth
      test accepts of a string flag or argument. */
  predicate Given(flag: Option<string>) {
    flag.Some? && flag.value != ""
  }

  /** `pat` occurs in `s` starting at index `i`. */
  predicate OccursAt(s: string, pat: string, i: int) {
    0 <= i && i + |pat| <= |s| && s[i..i + |pat|] == pat
  }

  /** The first index at or after `from` where `pat` occurs. */
  function FindFirst(s: string, pat: string, from: nat): (r: Option<nat>)
    requires from <= |s|
    ensures r.Some? ==> from <= r.value <= |s| && OccursAt(s, pat, r.value)
    ensures r.Some? ==> forall j :: from <= j < r.value ==> !OccursAt(s, pat, j)
    ensures r.None? ==> forall j :: from <= j <= |s| ==> !OccursAt(s, pat, j)
    decreases |s| - from
  {
    if OccursAt(s, pat, from) then Some(from)
    else if from == |s| then None
    else FindFirst(s, pat, from + 1)
  }

  /** `s.includes(pat)`; the empty pattern is included in every string. */
  function Includes(s: string, pat: string): (b: bool)
    ensures b <==> exists i :: 0 <= i <= |s| && OccursAt(s, pat, i)
  {
    FindFirst(s, pat, 0).Some?
  }

  /** `s.endsWith(suffix)`. */
  predicate EndsWith(s: string, suffix: string) {
    |suffix| <= |s| && s[|s| - |suffix|..] == suffix
  }

  /** The replacement text JavaScript's `replace` inserts for a string replacement
      `rep` (the GetSubstitution operation of ECMA-262): `$$` stands for `$`,
      `$&` for the matched text, `` $` `` for the text before it and `$'` for the
      text after it. A string pattern has no capture groups, so every other `$`
      (`$1`, `$<`, a trailing `$`) is kept as it is. */
  function Substitute(rep: string, before: string, matched: string, after: string): string
    decreases |rep|
  {
    if |rep| == 0 then ""
    else if rep[0] == '$' && |rep| >= 2 && rep[1] == '$' then "$" + Substitute(rep[2..], before, matched, after)
    else if rep[0] == '$' && |rep| >= 2 && rep[1] == '&' then matched + Substitute(rep[2..], before, matched, after)
    else if rep[0] == '$' && |rep| >= 2 && rep[1] == '`' then before + Substitute(rep[2..], before, matched, after)
    else if rep[0] == '$' && |rep| >= 2 && rep[1] == '\'' then after + Substitute(rep[2..], before, matched, after)
    else [rep[0]] + Substitute(rep[1..], before, matched, after)
  }

  /** A replacement without `$` is inserted literally. */
  lemma {:induction false} SubstituteLiteral(rep: string, before: string, matched: string, after: string)
    ensures '$' !in rep ==> Substitute(rep, before, matched, after) == rep
    decreases |rep|
  {
    if |rep| > 0 && '$' !in rep {
      assert rep[0] in rep;
      assert forall c :: c in rep[1..] ==> c in rep;
      SubstituteLiteral(rep[1..], before, matched, after);
      assert rep == [rep[0]] + rep[1..];
    }
  }

  /** `$&` stands for the matched text, and `$$` for a single `$`. */
  lemma SubstitutePatterns(before: string, matched: string, after: string)
    ensures Substitute("$&", before, matched, after) == matched
    ensures Substitute("$$", before, matched, after) == "$"
    ensures Substitute("a$$b", before, matched, after) == "a$b"
  {
    assert "$&"[2..] == "" && "$$"[2..] == "";
    assert "a$$b"[1..] == "$$b" && "$$b"[2..] == "b" && "b"[1..] == "";
  }

  /** `s` with the occurrence of `pat` at `i` replaced by `mid`. */
  function Splice(s: string, pat: string, i: int, mid: string): string
    requires OccursAt(s, pat, i)
  {
    s[..i] + mid + s[i + |pat|..]
  }

  /** `s.replace(pat, rep)` with a string pattern: only the first occurrence is
      replaced, by the substitution of `rep`; without an occurrence the string is
      unchanged. A replacement without `$` is inserted as it is. */
  function ReplaceFirst(s: string, pat: string, rep: string): (r: string)
    ensures (forall i :: 0 <= i <= |s| ==> !OccursAt(s, pat, i)) ==> r == s
    ensures forall i ::
              OccursAt(s, pat, i) && (forall j :: 0 <= j < i ==> !OccursAt(s, pat, j)) ==>
                r == Splice(s, pat, i, Substitute(rep, s[..i], pat, s[i + |pat|..]))
    ensures forall i ::
              OccursAt(s, pat, i) && (forall j :: 0 <= j < i ==> !OccursAt(s, pat, j)) && '$' !in rep ==>
                r == Splice(s, pat, i, rep)
  {
    match FindFirst(s, pat, 0)
    case None => s
    case Some(i) =>
      var after := s[i + |pat|..];
      SubstituteLiteral(rep, s[..i], pat, after);
      s[..i] + Substitute(rep, s[..i], pat, after) + after
  }

  /** The index of the first `sep` in `s`. */
  function IndexOf(s: string, sep: char): (r: Option<nat>)
    ensures r.Some? ==> r.value < |s| && s[r.value] == sep && sep !in s[..r.value]
    ensures r.None? <==> sep !in s
  {
    if |s| == 0 then None
    else if s[0] == sep then Some(0)
    else match IndexOf(s[1..], sep)
      case None => None
      case Some(k) => assert s[1..][..k] == s[1..k + 1]; Some(k + 1)
  }

  /** `parts.join(sep)`; the empty list joins to the empty string. */
  function Join(parts: seq<string>, sep: char): string {
    if |parts| == 0 then ""
    else if |parts| == 1 then parts[0]
    else parts[0] + [sep] + Join(parts[1..], sep)
  }

  /** `s.split(sep)` with a one-character separator: never empty, no part contains the
      separator, and joining the parts gives back `s`. */
  function Split(s: string, sep: char): (parts: seq<string>)
    ensures |parts| >= 1
    ensures forall k :: 0 <= k < |parts| ==> sep !in parts[k]
    ensures Join(parts, sep) == s
    decreases |s|
  {
    match IndexOf(s, sep)
    case None => [s]
    case Some(i) => [s[..i]] + Split(s[i + 1..], sep)
  }

  /** Joining with one more part appends the separator and that part. */
  lemma {:induction false} JoinSnoc(parts: seq<string>, x: string, sep: char)
    requires |parts| >= 1
    ensures Join(parts + [x], sep) == Join(parts, sep) + [sep] + x
    decreases |parts|
  {
    if |parts| == 1 {
      assert parts + [x] == [parts[0], x];
      assert [parts[0], x][1..] == [x];
    } else {
      assert (parts + [x])[1..] == parts[1..] + [x];
      JoinSnoc(parts[1..], x, sep);
    }
  }

  /** A join of separator-free parts contains the separator iff there are two or more parts. */
  lemma {:induction false} JoinHasSep(parts: seq<string>, sep: char)
    requires forall k :: 0 <= k < |parts| ==> sep !in parts[k]
    ensures sep in Join(parts, sep) <==> |parts| >= 2
    decreases |parts|
  {
    if |parts| >= 2 {
      assert Join(parts, sep)[|parts[0]|] == sep;
    } else if |parts| == 1 {
    }
  }

  /** The text after the last `sep`, or all of `s` when there is none. */
  function LastPart(s: string, sep: char): string {
    var parts := Split(s, sep);
    parts[|parts| - 1]
  }

  /** The last part holds no separator, follows the last separator when there is
      one, and is the whole string otherwise. */
  lemma LastPartSplits(s: string, sep: char)
    ensures sep !in LastPart(s, sep)
    ensures sep in s ==> EndsWith(s, [sep] + LastPart(s, sep))
    ensures sep !in s ==> LastPart(s, sep) == s
  {
    var parts := Split(s, sep);
    var n := |parts|;
    JoinHasSep(parts, sep);
    if n >= 2 {
      assert parts == parts[..n - 1] + [parts[n - 1]];
      JoinSnoc(parts[..n - 1], parts[n - 1], sep);
      assert s == Join(parts[..n - 1], sep) + ([sep] + parts[n - 1]);
    }
  }

  /** Of two separator-free texts that each follow a separator at the end of `s`,
      neither is longer than the other. */
  lemma SepFreeSuffixes(s: string, sep: char, a: string, b: string)
    requires EndsWith(s, [sep] + a) && EndsWith(s, [sep] + b)
    requires sep !in a && sep !in b
    ensures |a| <= |b|
  {
    var off := |s| - |a|;
    forall k | off <= k < |s|
      ensures s[k] != sep
    {
      assert s[k] == a[k - off];
    }
    assert s[|s| - |b| - 1] == ([sep] + b)[0];
  }

  /** For a separator-free `e`: `s` ends with `sep` followed by `e` exactly when `s`
      contains the separator and `e` is the text after the last one. */
  lemma EndsWithSepPart(s: string, sep: char, e: string)
    requires sep !in e
    ensures EndsWith(s, [sep] + e) <==> sep in s && LastPart(s, sep) == e
  {
    LastPartSplits(s, sep);
    var l := LastPart(s, sep);
    if EndsWith(s, [sep] + e) {
      assert s[|s| - |e| - 1] == ([sep] + e)[0];
      SepFreeSuffixes(s, sep, e, l);
      SepFreeSuffixes(s, sep, l, e);
      assert l == s[|s| - |e|..] == e;
    }
  }

  /** The decimal digit of `d`. */
  function DigitChar(d: nat): char
    requires d < 10
  {
    "0123456789"[d]
  }

  predicate IsDigit(c: char) {
    '0' <= c <= '9'
  }

  /** The decimal rendering of a natural number, as `${n}` gives it. */
  function NatToString(n: nat): (s: string)
    ensures |s| >= 1
    ensures forall k :: 0 <= k < |s| ==> IsDigit(s[k])
    ensures s[0] == '0' ==> n == 0
    decreases n
  {
    if n < 10 then [DigitChar(n)]
    else NatToString(n / 10) + [DigitChar(n % 10)]
  }

  /** The decimal rendering of an integer, with a leading '-' when negative. */
  function IntToString(i: int): (s: string)
    ensures |s| >= 1
    ensures (s[0] == '-') <==> i < 0
  {
    if i < 0 then "-" + NatToString(-i) else NatToString(i)
  }
}
