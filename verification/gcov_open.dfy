/**
 * Opening gcov data (`OpenGCAction`): a `.gcda` or `.gcno` file is paired
 * with its sibling of the other extension, both must be regular files
 * before any coverage is shown, and the binary to analyse is the one
 * given, or else the first binary of the file's C project. The file
 * system, the symbol manager, the project's binaries and the dialog the
 * user answers are oracles, and so is whether a file lies in the
 * workspace.
 */
module GcovOpen {
  import opened JavaLang

  /** An `IPath`: the directory part and the last segment, the one extensions act on. */
  datatype FilePath = FilePath(directory: string, name: string)

  /** `getFileExtension`: the text after the last period of the last segment, or null without a period. */
  function Extension(name: string): (r: Option<string>)
    ensures r.None? <==> forall i :: !OccursAt(name, ".", i)
  {
    var i := LastIndexOf(name, ".");
    if i == -1 then None else Some(name[i + 1..])
  }

  /**
   * `removeFileExtension`: the last segment without its extension and
   * period; a name with no extension, or an empty one after a final
   * period, is kept as it is.
   */
  function RemoveExtension(name: string): (r: string)
    ensures Extension(name).None? || Extension(name) == Some("") ==> r == name
    ensures Extension(name).Some? && Extension(name) != Some("") ==> r + "." + Extension(name).value == name
  {
    var i := LastIndexOf(name, ".");
    if i == -1 || i == |name| - 1 then name
    else
      assert name[..i] + "." + name[i + 1..] == name by {
        assert OccursAt(name, ".", i);
        assert name[i..i + 1] == ".";
        assert name == name[..i] + name[i..i + 1] + name[i + 1..];
      }
      name[..i]
  }

  /** `addFileExtension`. */
  function WithExtension(file: FilePath, extension: string): FilePath
  {
    file.(name := RemoveExtension(file.name) + "." + extension)
  }

  /** The last period of `stem.ext` is the one before `ext` when `ext` has none. */
  lemma ExtensionOfStem(stem: string, extension: string)
    requires '.' !in extension
    ensures Extension(stem + "." + extension) == Some(extension)
    ensures RemoveExtension(stem + "." + extension) == if extension == "" then stem + "." else stem
  {
    var s := stem + "." + extension;
    assert OccursAt(s, ".", |stem|);
    forall k | |stem| < k < |s|
      ensures !OccursAt(s, ".", k)
    {
      assert s[k] == extension[k - |stem| - 1];
    }
    assert s[|stem| + 1..] == extension;
    assert s[..|stem|] == stem;
  }

  /** `GCFilePair`: the data file and the notes file; both null for any other extension. */
  datatype GcFiles = GcFiles(gcda: Option<FilePath>, gcno: Option<FilePath>)

  function GcFilePair(file: FilePath): (r: GcFiles)
    ensures Extension(file.name) == Some("gcno") ==> r.gcno == Some(file) && r.gcda == Some(WithExtension(file, "gcda"))
    ensures Extension(file.name) == Some("gcda") ==> r.gcda == Some(file) && r.gcno == Some(WithExtension(file, "gcno"))
    ensures Extension(file.name) != Some("gcno") && Extension(file.name) != Some("gcda") ==> r == GcFiles(None, None)
  {
    var extension := Extension(file.name);
    if extension == Some("gcno") then GcFiles(Some(WithExtension(file, "gcda")), Some(file))
    else if extension == Some("gcda") then GcFiles(Some(file), Some(WithExtension(file, "gcno")))
    else GcFiles(None, None)
  }

  /**
   * Either file of a pair finds the same pair: `x.gcda` and `x.gcno` both
   * give the data file `x.gcda` and the notes file `x.gcno`.
   */
  lemma SiblingsShareAPair(directory: string, stem: string)
    ensures var data := FilePath(directory, stem + ".gcda");
            var notes := FilePath(directory, stem + ".gcno");
            GcFilePair(data) == GcFilePair(notes) == GcFiles(Some(data), Some(notes))
  {
    var data := FilePath(directory, stem + ".gcda");
    var notes := FilePath(directory, stem + ".gcno");
    assert stem + ".gcda" == stem + "." + "gcda";
    assert stem + ".gcno" == stem + "." + "gcno";
    ExtensionOfStem(stem, "gcda");
    ExtensionOfStem(stem, "gcno");
    assert "gcda" != "gcno" by {
      assert "gcda"[2] != "gcno"[2];
    }
    assert WithExtension(data, "gcno") == notes;
    assert WithExtension(notes, "gcda") == data;
  }

  /** A file without a gcov extension pairs with nothing. */
  lemma OtherExtensionsPairWithNothing(directory: string, stem: string, extension: string)
    requires '.' !in extension && extension != "gcda" && extension != "gcno"
    ensures GcFilePair(FilePath(directory, stem + "." + extension)) == GcFiles(None, None)
  {
    ExtensionOfStem(stem, extension);
  }

  /** What `java.io.File` answers about a path. */
  datatype FileStat = FileStat(isFile: bool, present: bool)

  /** `isFileValid`: not null, a regular file, and present. */
  predicate IsFileValid(file: Option<FilePath>, stat: FilePath -> FileStat)
  {
    file.Some? && stat(file.value).isFile && stat(file.value).present
  }

  /**
   * `getDefaultBinary`: the location of the first binary of the file's C
   * project, or the empty string. `binaries(file)` is `None` when the file
   * is not in the workspace, its project is missing or not a C project, or
   * listing the binaries throws.
   */
  function DefaultBinary(file: FilePath, binaries: FilePath -> Option<seq<Option<string>>>): (r: string)
    ensures r != "" ==> binaries(file).Some? && |binaries(file).value| > 0 && binaries(file).value[0] == Some(r)
    ensures binaries(file).Some? && |binaries(file).value| > 0 && binaries(file).value[0].Some? ==>
              r == binaries(file).value[0].value
    ensures !(binaries(file).Some? && |binaries(file).value| > 0 && binaries(file).value[0].Some?) ==> r == ""
  {
    match binaries(file)
    case None => ""
    case Some(b) => if |b| > 0 && b[0].Some? then b[0].value else ""
  }

  /** The coverage view a successful open shows. */
  datatype Coverage = Coverage(file: FilePath, binaryPath: string, gcda: FilePath, complete: bool)

  /**
   * The outcome of `displayCoverage`: the coverage, or the
   * `NullPointerException` thrown when the file has no workspace resource
   * to take the project from.
   */
  datatype Display = Displayed(coverage: Coverage) | NoProject

  /**
   * `displayCoverage`: the project is taken from the file's workspace
   * resource without a null check, unlike `getDefaultBinary`, so a file
   * outside the workspace throws. `inWorkspace` says whether
   * `getFileForLocation` finds a resource.
   */
  function DisplayCoverage(file: FilePath, binaryPath: string, gcda: FilePath, complete: bool,
                           inWorkspace: FilePath -> bool): (d: Display)
    ensures d.NoProject? <==> !inWorkspace(file)
    ensures d.Displayed? ==> d.coverage.file == file && d.coverage.binaryPath == binaryPath
                             && d.coverage.gcda == gcda && d.coverage.complete == complete
  {
    if inWorkspace(file) then Displayed(Coverage(file, binaryPath, gcda, complete)) else NoProject
  }

  /** The user's answer to the binary dialog, offered the default binary. */
  datatype DialogAnswer = DialogCancelled | DialogOk(binaryPath: string, complete: bool)

  /**
   * The outcome of `open`: an error dialog naming the missing file
   * (possibly null), a cancel, the coverage, or the null dereference of
   * `displayCoverage`.
   */
  datatype Opened = MissingGcda(gcda: Option<FilePath>) | MissingGcno(gcno: Option<FilePath>) | Cancelled
                  | Shown(coverage: Coverage) | NullPointer

  /**
   * `open`: the data file is checked first and then the notes file, the
   * first invalid one ending the action with an error; then the dialog
   * chooses the binary and the kind of result, and the coverage is
   * displayed.
   */
  function Open(file: FilePath, stat: FilePath -> FileStat, binaries: FilePath -> Option<seq<Option<string>>>,
                dialog: string -> DialogAnswer, inWorkspace: FilePath -> bool): (r: Opened)
    ensures var pair := GcFilePair(file);
            && (r.MissingGcda? <==> !IsFileValid(pair.gcda, stat))
            && (r.MissingGcno? <==> IsFileValid(pair.gcda, stat) && !IsFileValid(pair.gcno, stat))
            && (r.MissingGcda? ==> r.gcda == pair.gcda)
            && (r.MissingGcno? ==> r.gcno == pair.gcno)
            && (r.Shown? ==> r.coverage.gcda == pair.gcda.value && r.coverage.file == file)
    ensures r.Shown? || r.Cancelled? || r.NullPointer? ==>
              Extension(file.name) == Some("gcda") || Extension(file.name) == Some("gcno")
    ensures r.Shown? ==> dialog(DefaultBinary(file, binaries)) == DialogOk(r.coverage.binaryPath, r.coverage.complete)
    ensures r.Cancelled? <==> !r.MissingGcda? && !r.MissingGcno? && dialog(DefaultBinary(file, binaries)).DialogCancelled?
    ensures r.NullPointer? <==> !r.MissingGcda? && !r.MissingGcno? && !r.Cancelled? && !inWorkspace(file)
  {
    var pair := GcFilePair(file);
    if !IsFileValid(pair.gcda, stat) then MissingGcda(pair.gcda)
    else if !IsFileValid(pair.gcno, stat) then MissingGcno(pair.gcno)
    else match dialog(DefaultBinary(file, binaries))
      case DialogCancelled => Cancelled
      case DialogOk(binaryPath, complete) =>
        match DisplayCoverage(file, binaryPath, pair.gcda.value, complete, inWorkspace)
        case Displayed(coverage) => Shown(coverage)
        case NoProject => NullPointer
  }

  /**
   * `autoOpen`: coverage is displayed only when both files are valid,
   * using the given binary when the symbol manager knows it and the
   * default binary otherwise; `None` when nothing is attempted.
   */
  function AutoOpen(file: FilePath, binaryPath: string, complete: bool, stat: FilePath -> FileStat,
                    knownBinary: string -> bool, binaries: FilePath -> Option<seq<Option<string>>>,
                    inWorkspace: FilePath -> bool): (r: Option<Display>)
    ensures var pair := GcFilePair(file);
            r.Some? <==> IsFileValid(pair.gcda, stat) && IsFileValid(pair.gcno, stat)
    ensures r.Some? ==> (r.value.NoProject? <==> !inWorkspace(file))
    ensures r.Some? && r.value.Displayed? ==>
              r.value.coverage.gcda == GcFilePair(file).gcda.value && r.value.coverage.complete == complete
              && r.value.coverage.file == file
    ensures r.Some? && r.value.Displayed? ==>
              r.value.coverage.binaryPath == (if knownBinary(binaryPath) then binaryPath else DefaultBinary(file, binaries))
  {
    var pair := GcFilePair(file);
    if IsFileValid(pair.gcda, stat) && IsFileValid(pair.gcno, stat) then
      var safeBinaryPath := if knownBinary(binaryPath) then binaryPath else DefaultBinary(file, binaries);
      Some(DisplayCoverage(file, safeBinaryPath, pair.gcda.value, complete, inWorkspace))
    else None
  }

  /**
   * Both entry points refuse the same files: the automatic open attempts
   * nothing exactly when the interactive one reports a missing file, and
   * with the same binary and choice they show the same coverage or both
   * throw.
   */
  lemma OpenAndAutoOpenAgree(file: FilePath, stat: FilePath -> FileStat, binaries: FilePath -> Option<seq<Option<string>>>,
                             dialog: string -> DialogAnswer, knownBinary: string -> bool, inWorkspace: FilePath -> bool)
    ensures var interactive := Open(file, stat, binaries, dialog, inWorkspace);
            var auto := AutoOpen(file, DefaultBinary(file, binaries), true, stat, knownBinary, binaries, inWorkspace);
            && (auto.None? <==> interactive.MissingGcda? || interactive.MissingGcno?)
            && (interactive.Shown? && interactive.coverage.binaryPath == DefaultBinary(file, binaries) && interactive.coverage.complete
                ==> auto == Some(Displayed(interactive.coverage)))
            && (interactive.NullPointer? ==> auto == Some(NoProject))
  {
  }

  /** A data file next to its notes file, both on disk and in the workspace, is shown whatever of the two is opened. */
  lemma EitherFileOpensCoverage(directory: string, stem: string, stat: FilePath -> FileStat,
                                knownBinary: string -> bool, binaries: FilePath -> Option<seq<Option<string>>>,
                                complete: bool, inWorkspace: FilePath -> bool)
    requires stat(FilePath(directory, stem + ".gcda")) == FileStat(true, true)
    requires stat(FilePath(directory, stem + ".gcno")) == FileStat(true, true)
    requires inWorkspace(FilePath(directory, stem + ".gcda")) && inWorkspace(FilePath(directory, stem + ".gcno"))
    ensures var data := FilePath(directory, stem + ".gcda");
            var notes := FilePath(directory, stem + ".gcno");
            && AutoOpen(data, "", complete, stat, knownBinary, binaries, inWorkspace).Some?
            && AutoOpen(data, "", complete, stat, knownBinary, binaries, inWorkspace).value.Displayed?
            && AutoOpen(notes, "", complete, stat, knownBinary, binaries, inWorkspace).Some?
            && AutoOpen(notes, "", complete, stat, knownBinary, binaries, inWorkspace).value.Displayed?
            && AutoOpen(notes, "", complete, stat, knownBinary, binaries, inWorkspace).value.coverage.gcda == data
  {
    SiblingsShareAPair(directory, stem);
  }

  /** A valid pair outside the workspace is not shown: `displayCoverage` throws. */
  lemma OutsideWorkspaceThrows(directory: string, stem: string, stat: FilePath -> FileStat,
                               knownBinary: string -> bool, binaries: FilePath -> Option<seq<Option<string>>>,
                               complete: bool, inWorkspace: FilePath -> bool)
    requires stat(FilePath(directory, stem + ".gcda")) == FileStat(true, true)
    requires stat(FilePath(directory, stem + ".gcno")) == FileStat(true, true)
    requires !inWorkspace(FilePath(directory, stem + ".gcda"))
    ensures AutoOpen(FilePath(directory, stem + ".gcda"), "", complete, stat, knownBinary, binaries, inWorkspace)
            == Some(NoProject)
  {
    SiblingsShareAPair(directory, stem);
  }
}
