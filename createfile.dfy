/** The file-upload command: choosing the file (the argument, or a selector whose
    cancellation yields the empty path), the checks that it exists and has an
    accepted extension, and the upload request.

    The file system is the set of existing paths; the selector's answer and the
    upload's response are oracles. */
module CreateFile {
  import opened Wrappers
  import opened Strings

  /** The accepted extensions, compared case-sensitively. */
  const ValidExtensions: seq<string> := ["pdf", "txt", "epub", "docx", "html"]

  /** `errorMessage`: the empty path means nothing was selected. */
  function ErrorMessage(filePath: string): (m: string)
    ensures filePath != "" ==> OccursAt(m, filePath, 5)
  {
    if filePath == "" then "No file selected" else "File " + filePath + " does not exist"
  }

  /** The empty path, and only it, reads "No file selected"; distinct paths give
      distinct messages, so the message names the path. */
  lemma ErrorMessageInjective(p: string, q: string)
    ensures ErrorMessage("") == "No file selected"
    ensures p != "" ==> ErrorMessage(p) != "No file selected"
    ensures ErrorMessage(p) == ErrorMessage(q) ==> p == q
  {
    assert "No file selected"[0] == 'N';
    var mp, mq := ErrorMessage(p), ErrorMessage(q);
    if p != "" && q != "" && mp == mq {
      assert |p| == |q|;
      assert p == mp[5..5 + |p|] && q == mq[5..5 + |q|];
    }
    assert mp[0] == if p == "" then 'N' else 'F';
    assert mq[0] == if q == "" then 'N' else 'F';
  }

  /** `hasValidFileExtension`. */
  predicate HasValidFileExtension(name: string): (b: bool)
    ensures b <==> exists k :: 0 <= k < |ValidExtensions| && EndsWith(name, "." + ValidExtensions[k])
  {
    assert "." + ValidExtensions[0] == ".pdf" && "." + ValidExtensions[1] == ".txt";
    assert "." + ValidExtensions[2] == ".epub" && "." + ValidExtensions[3] == ".docx";
    assert "." + ValidExtensions[4] == ".html";
    || EndsWith(name, ".pdf") || EndsWith(name, ".txt") || EndsWith(name, ".epub")
    || EndsWith(name, ".docx") || EndsWith(name, ".html")
  }

  /** A name is accepted exactly when it has a dot and the text after its last dot is
      one of the accepted extensions, letter case included. */
  lemma ValidIffExtension(name: string)
    ensures HasValidFileExtension(name) <==> '.' in name && LastPart(name, '.') in ValidExtensions
  {
    EndsWithSepPart(name, '.', "pdf");
    EndsWithSepPart(name, '.', "txt");
    EndsWithSepPart(name, '.', "epub");
    EndsWithSepPart(name, '.', "docx");
    EndsWithSepPart(name, '.', "html");
    assert "." + "pdf" == ".pdf" && "." + "txt" == ".txt" && "." + "epub" == ".epub";
    assert "." + "docx" == ".docx" && "." + "html" == ".html";
  }

  /** Upper-case extensions are refused. */
  lemma UpperCaseRefused()
    ensures !HasValidFileExtension("report.PDF")
  {
    assert "report.PDF"[10 - 4..] != ".pdf" && "report.PDF"[10 - 4..] != ".txt";
    assert "report.PDF"[10 - 5..] != ".epub" && "report.PDF"[10 - 5..] != ".docx";
    assert "report.PDF"[10 - 5..] != ".html";
  }

  /** The path the command works on: the argument when it is not empty, otherwise the
      selector's answer, its cancellation read as the empty path. */
  function ChosenPath(fileArg: Option<string>, selected: Option<string>): (p: string)
    ensures Given(fileArg) ==> p == fileArg.value
    ensures !Given(fileArg) && selected.None? ==> p == ""
    ensures !Given(fileArg) && selected.Some? ==> p == selected.value
  {
    if Given(fileArg) then fileArg.value
    else if selected.None? then ""
    else selected.value
  }

  /** `existsSync`: the empty path never exists. */
  predicate Exists(files: set<string>, path: string) {
    path != "" && path in files
  }

  const InvalidTypeMessage := "Invalid file type, must be one of: pdf, txt, epub, docx, html"

  /** The upload request: the file's path and, when given, the document name. */
  datatype UploadRequest = UploadRequest(path: string, name: Option<string>)

  /** The upload endpoint's answer. */
  datatype UploadResponse = UploadOk(name: string, id: string) | UploadErr(body: string)

  /** How the command ends: the created document, or the error message. */
  datatype CreateOutcome = Created(name: string, id: string) | CreateFailed(message: string)

  /** The request made (none when a check fails) and the outcome. */
  datatype Attempt = Attempt(request: Option<UploadRequest>, outcome: CreateOutcome)

  /** The command after the API key: choose the path, require it to exist, then to
      have an accepted extension, then upload. */
  function Create(fileArg: Option<string>, selected: Option<string>, files: set<string>, nameFlag: Option<string>,
                  response: UploadResponse): (a: Attempt)
    ensures var p := ChosenPath(fileArg, selected);
            && (a.request.Some? <==> Exists(files, p) && HasValidFileExtension(p))
            && (!Exists(files, p) ==> a.outcome == CreateFailed(ErrorMessage(p)))
            && (Exists(files, p) && !HasValidFileExtension(p) ==> a.outcome == CreateFailed(InvalidTypeMessage))
            && (a.request.Some? ==> a.request.value.path == p
                                    && (a.request.value.name.Some? <==> Given(nameFlag))
                                    && (Given(nameFlag) ==> a.request.value.name == nameFlag))
            && (a.request.Some? ==> (a.outcome.Created? <==> response.UploadOk?))
            && (a.request.Some? && response.UploadOk? ==> a.outcome == Created(response.name, response.id))
            && (a.request.Some? && response.UploadErr? ==> a.outcome == CreateFailed(response.body))
  {
    var path := ChosenPath(fileArg, selected);
    if !Exists(files, path) then Attempt(None, CreateFailed(ErrorMessage(path)))
    else if !HasValidFileExtension(path) then Attempt(None, CreateFailed(InvalidTypeMessage))
    else
      var request := UploadRequest(path, if Given(nameFlag) then nameFlag else None);
      match response
      case UploadOk(name, id) => Attempt(Some(request), Created(name, id))
      case UploadErr(body) => Attempt(Some(request), CreateFailed(body))
  }

  /** Cancelling the selector ends the run with "No file selected" and uploads
      nothing. */
  lemma CancelledSelection(fileArg: Option<string>, files: set<string>, nameFlag: Option<string>, response: UploadResponse)
    requires !Given(fileArg)
    ensures Create(fileArg, None, files, nameFlag, response) == Attempt(None, CreateFailed("No file selected"))
  {
  }

  /** Existence is checked before the extension: a missing file with a refused
      extension is reported as missing. */
  lemma MissingBeforeExtension(fileArg: Option<string>, selected: Option<string>, files: set<string>,
                               nameFlag: Option<string>, response: UploadResponse)
    requires ChosenPath(fileArg, selected) !in files && !HasValidFileExtension(ChosenPath(fileArg, selected))
    ensures Create(fileArg, selected, files, nameFlag, response).outcome == CreateFailed(ErrorMessage(ChosenPath(fileArg, selected)))
  {
  }

  /** A file argument makes the selector's answer irrelevant. */
  lemma ArgumentSkipsSelector(fileArg: Option<string>, s1: Option<string>, s2: Option<string>, files: set<string>,
                              nameFlag: Option<string>, response: UploadResponse)
    requires Given(fileArg)
    ensures Create(fileArg, s1, files, nameFlag, response) == Create(fileArg, s2, files, nameFlag, response)
  {
  }
}
