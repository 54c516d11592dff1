/** The collision-safe namer of the backup command (`addCountToName`,
    `handleFileExists`) and the document file-name template.

    A directory is the finite set of names that exist in it. */
module BackupNaming {
  import opened Wrappers
  import opened Strings
  import opened KbTypes

  /** The `--file-exists` policy, chosen once per run. */
  datatype FileExistsPreference = Replace | KeepBoth | Skip | Error

  /** The namer's answer: write under `name`, write nothing, or end the run. */
  datatype NameOutcome = UseName(name: string) | SkipFile | Fatal(message: string)

  /** The last number the keep-both search tries. */
  const MaxCount: nat := 100

  /** The message of the `error` policy; the code uses it for every file, not only
      for the index. */
  const ExistsMessage: string := "Index file already exists"

  /** The message when every numbered variant is taken; `%i` stays in the pattern. */
  function TooManyMessage(dir: string, stem: string, ext: string): string {
    "Too many files named " + stem + "(%i)." + ext + " in " + dir + ". Aborting"
  }

  /** `name.split(".")`: the stem is every part but the last joined with ".", the
      extension is the last part. A name without a dot has an empty stem and is its
      own extension. */
  function SplitName(name: string): (r: (string, string))
    ensures '.' in name ==> name == r.0 + "." + r.1 && '.' !in r.1
    ensures '.' !in name ==> r.0 == "" && r.1 == name
  {
    var parts := Split(name, '.');
    var n := |parts|;
    JoinHasSep(parts, '.');
    if n >= 2 then
      assert parts == parts[..n - 1] + [parts[n - 1]];
      JoinSnoc(parts[..n - 1], parts[n - 1], '.');
      (Join(parts[..n - 1], '.'), parts[n - 1])
    else
      (Join(parts[..n - 1], '.'), parts[n - 1])
  }

  /** The pattern `stem(%i).ext` with `%i` replaced by `count`. */
  function Variant(stem: string, ext: string, count: nat): string {
    stem + "(" + NatToString(count) + ")." + ext
  }

  /** `addCountToName`: the first numbered variant from `count` up to 100 that does not
      exist; fatal when all of them exist. */
  function AddCountToName(existing: set<string>, dir: string, stem: string, ext: string, count: nat): (r: NameOutcome)
    ensures !r.SkipFile?
    ensures r.Fatal? <==> forall k :: count <= k <= MaxCount ==> Variant(stem, ext, k) in existing
    ensures r.Fatal? ==> r.message == TooManyMessage(dir, stem, ext)
    ensures r.UseName? ==> r.name !in existing
    ensures r.UseName? ==> exists n :: count <= n <= MaxCount && r.name == Variant(stem, ext, n)
                                       && forall k :: count <= k < n ==> Variant(stem, ext, k) in existing
    decreases MaxCount - count
  {
    if count > MaxCount then Fatal(TooManyMessage(dir, stem, ext))
    else if Variant(stem, ext, count) in existing then AddCountToName(existing, dir, stem, ext, count + 1)
    else UseName(Variant(stem, ext, count))
  }

  /** `handleFileExists`: a name that does not exist is used whatever the policy; on a
      collision `replace` keeps the name, `keep-both` searches a numbered variant,
      `skip` writes nothing and `error` ends the run. */
  function HandleFileExists(existing: set<string>, dir: string, name: string, pref: FileExistsPreference): (r: NameOutcome)
    ensures name !in existing ==> r == UseName(name)
    ensures name in existing && pref == Replace ==> r == UseName(name)
    ensures name in existing && pref == Skip ==> r == SkipFile
    ensures name in existing && pref == Error ==> r == Fatal(ExistsMessage)
    ensures r.SkipFile? <==> name in existing && pref == Skip
    ensures r.UseName? && pref != Replace ==> r.name !in existing
    ensures r.Fatal? ==> name in existing && (pref == Error || pref == KeepBoth)
  {
    if name in existing then
      match pref
      case Replace => UseName(name)
      case KeepBoth =>
        var (stem, ext) := SplitName(name);
        AddCountToName(existing, dir, stem, ext, 2)
      case Skip => SkipFile
      case Error => Fatal(ExistsMessage)
    else UseName(name)
  }

  /** Under keep-both a collision resolves to `stem(N).ext` for the smallest N from 2
      that is free, and fails only when every N up to 100 is taken. */
  lemma KeepBothSmallest(existing: set<string>, dir: string, name: string)
    requires name in existing
    ensures var (stem, ext) := SplitName(name);
            var r := HandleFileExists(existing, dir, name, KeepBoth);
            && (r.Fatal? <==> forall k :: 2 <= k <= MaxCount ==> Variant(stem, ext, k) in existing)
            && (r.UseName? ==> exists n :: 2 <= n <= MaxCount && r.name == Variant(stem, ext, n) && r.name !in existing
                                           && forall k :: 2 <= k < n ==> Variant(stem, ext, k) in existing)
  {
  }

  lemma IndexOfDocJson()
    ensures IndexOf("doc.json", '.') == Some(3)
    ensures IndexOf("json", '.') == None
  {
    assert IndexOf(".json", '.') == Some(0);
  }

  lemma SplitDocJson()
    ensures Split("doc.json", '.') == ["doc", "json"]
  {
    IndexOfDocJson();
    assert "doc.json"[..3] == "doc";
    assert "doc.json"[4..] == "json";
  }

  lemma SplitNameDocJson()
    ensures SplitName("doc.json") == ("doc", "json")
  {
    SplitDocJson();
    var parts := Split("doc.json", '.');
    assert parts[..1] == ["doc"];
  }

  lemma DocVariants()
    ensures Variant("doc", "json", 2) == "doc(2).json"
    ensures Variant("doc", "json", 3) == "doc(3).json"
  {
    assert NatToString(2) == "2" && NatToString(3) == "3";
  }

  /** On a collision where variant 2 is taken and 3 is free, keep-both picks 3. */
  lemma KeepBothThird(existing: set<string>, dir: string, name: string, stem: string, ext: string)
    requires SplitName(name) == (stem, ext)
    requires name in existing && Variant(stem, ext, 2) in existing && Variant(stem, ext, 3) !in existing
    ensures HandleFileExists(existing, dir, name, KeepBoth) == UseName(Variant(stem, ext, 3))
  {
    assert AddCountToName(existing, dir, stem, ext, 3) == UseName(Variant(stem, ext, 3));
  }

  lemma DocFilesPresent()
    ensures var existing := {"doc.json", "doc(2).json"};
            "doc.json" in existing && "doc(2).json" in existing && "doc(3).json" !in existing
  {
    assert "doc(3).json"[4] != "doc(2).json"[4];
  }

  /** With `doc.json` and `doc(2).json` present, keep-both picks `doc(3).json`. */
  lemma KeepBothScenario(dir: string)
    ensures HandleFileExists({"doc.json", "doc(2).json"}, dir, "doc.json", KeepBoth) == UseName("doc(3).json")
  {
    SplitNameDocJson();
    DocVariants();
    DocFilesPresent();
    KeepBothThird({"doc.json", "doc(2).json"}, dir, "doc.json", "doc", "json");
  }

  /** Resolving the same name again after the first answer has been created never
      gives the same name twice: the second answer is new, or the search fails. */
  lemma {:induction false} KeepBothAfterCreate(existing: set<string>, dir: string, name: string)
    requires HandleFileExists(existing, dir, name, KeepBoth).UseName?
    ensures var first := HandleFileExists(existing, dir, name, KeepBoth).name;
            var again := HandleFileExists(existing + {first}, dir, name, KeepBoth);
            first !in existing && (again.UseName? ==> again.name != first && again.name !in existing)
  {
  }

  /** The name template `{{id}}`/`{{name}}`/`{{type}}`: each placeholder's first
      occurrence is replaced, in that order, on the result of the previous step, and
      the `$` patterns of the inserted values are expanded as `replace` does. */
  function FillTemplate(template: string, doc: Document): string {
    ReplaceFirst(ReplaceFirst(ReplaceFirst(template, "{{id}}", doc.id), "{{name}}", doc.name), "{{type}}", TypeName(doc.docType))
  }

  /** The file name of a document: the filled template passed through the file-name
      sanitiser (an uninterpreted function here), with `.json` appended. */
  function DocumentFileName(template: string, doc: Document, sanitize: string -> string): (r: string)
    ensures EndsWith(r, ".json")
    ensures r[..|r| - 5] == sanitize(FillTemplate(template, doc))
  {
    sanitize(FillTemplate(template, doc)) + ".json"
  }

  /** An occurrence of `pat` is also one of its first two characters. */
  lemma OccursPrefix(s: string, pat: string, i: int)
    requires |pat| >= 2 && OccursAt(s, pat, i)
    ensures OccursAt(s, pat[..2], i)
  {
    assert s[i..i + 2] == s[i..i + |pat|][..2];
  }

  /** A string without `{{` holds no placeholder. */
  lemma NoOpenNoPlaceholder(s: string, pat: string)
    requires !Includes(s, "{{") && |pat| >= 2 && pat[..2] == "{{"
    ensures forall i :: 0 <= i <= |s| ==> !OccursAt(s, pat, i)
  {
    forall i | 0 <= i <= |s|
      ensures !OccursAt(s, pat, i)
    {
      if OccursAt(s, pat, i) {
        OccursPrefix(s, pat, i);
      }
    }
  }

  /** A string without `{` holds no placeholder. */
  lemma NoBraceNoPlaceholder(s: string, pat: string)
    requires '{' !in s && |pat| > 0 && pat[0] == '{'
    ensures forall i :: 0 <= i <= |s| ==> !OccursAt(s, pat, i)
  {
    forall i | 0 <= i <= |s|
      ensures !OccursAt(s, pat, i)
    {
      if i < |s| {
        assert s[i] in s;
      }
    }
  }

  /** A pattern starting with `{` does not start inside a brace-free prefix. */
  lemma BraceFreePrefix(p: string, pat: string, q: string)
    requires '{' !in p && |pat| > 0 && pat[0] == '{'
    ensures forall j :: 0 <= j < |p| ==> !OccursAt(p + pat + q, pat, j)
  {
    var s := p + pat + q;
    forall j | 0 <= j < |p|
      ensures !OccursAt(s, pat, j)
    {
      assert s[j] == p[j] && p[j] in p;
    }
  }

  /** Replacing the first occurrence of `pat` in `p + pat + q`, when it does not
      occur earlier, by a value without `$` gives `p + rep + q`. */
  lemma ReplaceAt(p: string, pat: string, q: string, rep: string)
    requires forall j :: 0 <= j < |p| ==> !OccursAt(p + pat + q, pat, j)
    requires '$' !in rep
    ensures ReplaceFirst(p + pat + q, pat, rep) == p + rep + q
  {
    var s := p + pat + q;
    assert s[|p|..|p| + |pat|] == pat;
    assert s[..|p|] == p && s[|p| + |pat|..] == q;
    assert OccursAt(s, pat, |p|);
    assert Splice(s, pat, |p|, rep) == p + rep + q;
  }

  /** A template without `{{` is used as it is. */
  lemma FillNoPlaceholder(template: string, doc: Document)
    requires !Includes(template, "{{")
    ensures FillTemplate(template, doc) == template
  {
    NoOpenNoPlaceholder(template, "{{id}}");
    NoOpenNoPlaceholder(template, "{{name}}");
    NoOpenNoPlaceholder(template, "{{type}}");
  }

  /** A template holding `{{id}}` once between brace-free texts names a document
      after its id, as long as the id holds no brace and no `$`. The default template
      `{{id}}` is the case of two empty texts. */
  lemma FillId(p: string, q: string, doc: Document)
    requires '{' !in p && '{' !in q
    requires '{' !in doc.id && '$' !in doc.id
    ensures FillTemplate(p + "{{id}}" + q, doc) == p + doc.id + q
  {
    BraceFreePrefix(p, "{{id}}", q);
    ReplaceAt(p, "{{id}}", q, doc.id);
    var r := p + doc.id + q;
    assert '{' !in r;
    NoBraceNoPlaceholder(r, "{{name}}");
    NoBraceNoPlaceholder(r, "{{type}}");
  }

  /** The default template `{{id}}` names a document after its id, as long as the id
      holds no brace and no `$`. */
  lemma DefaultTemplate(doc: Document)
    requires '{' !in doc.id && '$' !in doc.id
    ensures FillTemplate("{{id}}", doc) == doc.id
  {
    FillId("", "", doc);
    assert "" + "{{id}}" + "" == "{{id}}";
    assert "" + doc.id + "" == doc.id;
  }

  /** An id that is itself a `$` pattern is expanded: `$&` stands for the matched
      placeholder, so the default template gives back `{{id}}`. */
  lemma DollarIdExpands(doc: Document)
    requires doc.id == "$&"
    ensures FillTemplate("{{id}}", doc) == "{{id}}"
  {
    var t := "{{id}}";
    assert OccursAt(t, "{{id}}", 0);
    SubstitutePatterns("", "{{id}}", "");
    assert ReplaceFirst(t, "{{id}}", doc.id) == t by {
      assert t[..0] == "" && t[6..] == "";
    }
    var u := ReplaceFirst(t, "{{id}}", doc.id);
    forall i | 0 <= i <= |u|
      ensures !OccursAt(u, "{{name}}", i) && !OccursAt(u, "{{type}}", i)
    {
    }
    assert ReplaceFirst(u, "{{name}}", doc.name) == u;
  }

  /** `{{name}}` names a document after its name, when the name holds no brace and
      no `$`. */
  lemma FillName(doc: Document)
    requires '{' !in doc.name && '$' !in doc.name
    ensures FillTemplate("{{name}}", doc) == doc.name
  {
    var t := "{{name}}";
    forall i | 0 <= i <= |t|
      ensures !OccursAt(t, "{{id}}", i)
    {
      if 0 <= i <= 2 {
        assert t[i + 2] != "{{id}}"[2];
      }
    }
    assert ReplaceFirst(t, "{{id}}", doc.id) == t;
    ReplaceAt("", t, "", doc.name);
    assert "" + t + "" == t && "" + doc.name + "" == doc.name;
    NoBraceNoPlaceholder(doc.name, "{{type}}");
  }

  /** `{{type}}` names a document after its kind. */
  lemma FillType(doc: Document)
    ensures FillTemplate("{{type}}", doc) == TypeName(doc.docType)
  {
    var t := "{{type}}";
    forall i | 0 <= i <= |t|
      ensures !OccursAt(t, "{{id}}", i) && !OccursAt(t, "{{name}}", i)
    {
      if 0 <= i <= 2 {
        assert t[i + 2] != "{{id}}"[2];
      }
    }
    assert ReplaceFirst(t, "{{id}}", doc.id) == t;
    assert ReplaceFirst(t, "{{name}}", doc.name) == t;
    ReplaceAt("", t, "", TypeName(doc.docType));
    assert "" + t + "" == t && "" + TypeName(doc.docType) + "" == TypeName(doc.docType);
  }

  /** `{{id}}` first occurs at the end of `{{type}}-{{id}}`. */
  lemma TypeDashIdStep(id: string)
    requires '$' !in id
    ensures ReplaceFirst("{{type}}-{{id}}", "{{id}}", id) == "{{type}}-" + id
  {
    var p := "{{type}}-";
    var t := p + "{{id}}" + "";
    forall j | 0 <= j < |p|
      ensures !OccursAt(t, "{{id}}", j)
    {
      if j <= 1 {
        assert t[j + 2] != "{{id}}"[2];
      } else {
        assert '{' !in p[2..];
        assert t[j] == p[2..][j - 2];
        assert t[j] == t[j..j + 6][0];
      }
    }
    ReplaceAt(p, "{{id}}", "", id);
    assert p + "{{id}}" + "" == "{{type}}-{{id}}";
    assert p + id + "" == p + id;
  }

  /** `{{name}}` does not occur in `{{type}}-` followed by a brace-free text. */
  lemma TypeDashNoNameAt(id: string)
    requires '{' !in id
    ensures forall i :: 0 <= i <= |"{{type}}-" + id| ==> !OccursAt("{{type}}-" + id, "{{name}}", i)
  {
    var p := "{{type}}-";
    var u := p + id;
    forall i | 0 <= i <= |u|
      ensures !OccursAt(u, "{{name}}", i)
    {
      if i + 8 <= |u| {
        var w := u[i..i + 8];
        if i <= 1 {
          assert w[2] == p[i + 2];
          assert w[2] != "{{name}}"[2];
        } else {
          assert w[0] == u[i];
          if i < |p| {
            assert '{' !in p[2..];
            assert u[i] == p[2..][i - 2];
          } else {
            assert u[i] == id[i - |p|] && id[i - |p|] in id;
          }
        }
      }
    }
  }

  /** So the `{{name}}` step leaves `{{type}}-` followed by a brace-free text alone. */
  lemma TypeDashNoName(id: string, name: string)
    requires '{' !in id
    ensures ReplaceFirst("{{type}}-" + id, "{{name}}", name) == "{{type}}-" + id
  {
    TypeDashNoNameAt(id);
  }

  /** `{{type}}` leads `{{type}}-` followed by any text. */
  lemma TypeDashType(id: string, kind: string)
    requires '$' !in kind
    ensures ReplaceFirst("{{type}}-" + id, "{{type}}", kind) == kind + "-" + id
  {
    assert "{{type}}-" + id == "" + "{{type}}" + ("-" + id);
    ReplaceAt("", "{{type}}", "-" + id, kind);
    assert "" + kind + ("-" + id) == kind + "-" + id;
  }

  /** A template with two placeholders fills both: `{{type}}-{{id}}` gives the kind,
      a dash and the id, when the id holds no brace and no `$`. */
  lemma FillTypeAndId(doc: Document)
    requires '{' !in doc.id && '$' !in doc.id
    ensures FillTemplate("{{type}}-{{id}}", doc) == TypeName(doc.docType) + "-" + doc.id
  {
    TypeDashIdStep(doc.id);
    TypeDashNoName(doc.id, doc.name);
    TypeDashType(doc.id, TypeName(doc.docType));
  }
}
