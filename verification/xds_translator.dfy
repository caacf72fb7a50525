/**
 * The entry point translateViaXDST: the scan of the command-line arguments,
 * the run values it sets, the prefixing of a relative config path, and for
 * every translation of the config the read -> merge -> write pipeline with
 * its dispatch on the `.xml` / `.strings` suffix.
 *
 * The file system is a map from path to text that every write returns anew.
 * The XML side of the pipeline (reading an `.xml` file into a mapping, the
 * DOM parse and the serialiser) is passed in as an `XmlCodec`; the working
 * directory and the text of the version file are parameters.
 */
module XdsTranslator {
  import opened Sequences
  import opened Errors
  import opened Text
  import opened Entries
  import opened RegexPatterns
  import opened MapMerge
  import opened DotStringsFileSplitting
  import opened DotStringsMapCreator
  import opened MapToDotStringsFileWriting
  import opened MapToXmlFileWriting
  import opened ConfigBuilder

  type Files = map<string, string>

  /** The values the arguments set for one run. */
  datatype RunValues = RunValues(configFilePath: string, addNewEntries: bool, debugMode: bool, debugMessage: string)

  /** resetRunValues: the defaults every run starts from. */
  function ResetRunValues(): RunValues {
    RunValues("XMLDotStringConfig.yaml", false, false, "")
  }

  /** The legal arguments, in the order of their declaration. */
  datatype Argument = Help | AddNewEntries | Config | DebugMode | Version

  function PureCommand(a: Argument): string {
    match a
    case Help => "--help"
    case AddNewEntries => "--add-new-entries"
    case Config => "--config"
    case DebugMode => "--debug-mode"
    case Version => "--version"
  }

  /** Whether the scan goes on after the argument. */
  function ContinueAfter(a: Argument): bool {
    a == AddNewEntries || a == Config || a == DebugMode
  }

  /** Whether the argument consumes the argument that follows it. */
  function AllowsExtraString(a: Argument): bool {
    a == Config
  }

  const Arguments: seq<Argument> := [Help, AddNewEntries, Config, DebugMode, Version]

  /** The first declared argument whose command is exactly `s`. */
  function ArgumentOf(s: string): (r: Option<Argument>)
    ensures r.Some? ==> PureCommand(r.value) == s
    ensures r.None? <==> forall a: Argument :: PureCommand(a) != s
  {
    if s == "--help" then Some(Help)
    else if s == "--add-new-entries" then Some(AddNewEntries)
    else if s == "--config" then Some(Config)
    else if s == "--debug-mode" then Some(DebugMode)
    else if s == "--version" then Some(Version)
    else None
  }

  /** Every declared argument is found by its own command, so the search order does not matter. */
  lemma ArgumentOfCommand(a: Argument)
    ensures a in Arguments && ArgumentOf(PureCommand(a)) == Some(a)
  {
  }

  function IllegalArgumentError(s: string): Error {
    Error(IllegalArgument, "the argument " + s + " is not allowed, please use the flag \n\n\t--help\n\nfor further information")
  }

  const VersionFormatError := Error(FormatError, "Tried and failed to extract version number from resources/version.gradle")

  /**
   * Where a scan ends: with the run values and whether the run goes on, with
   * a tagged error, or with an exception the translator does not catch (a
   * `--config` with nothing after it, a missing version file).
   */
  datatype ScanOutcome = Scanned(values: RunValues, shouldContinue: bool) | Failed(error: Error) | Crashed

  /**
   * An argument's extraRun on the run values, given the string that came
   * with it (its own command, or the next argument for `--config`).
   * `--version` reads the version file, which may be missing, and fails with
   * a FORMAT ERROR when the version pattern does not match its text.
   */
  function ExtraRun(a: Argument, value: string, values: RunValues, versionFile: Option<string>): (r: ScanOutcome)
    ensures r.Scanned? ==> r.shouldContinue == ContinueAfter(a)
    ensures r.Crashed? <==> a == Version && versionFile.None?
    ensures r.Failed? <==> a == Version && versionFile.Some? && VersionNumber(versionFile.value).None?
    ensures r.Failed? ==> r.error == VersionFormatError
  {
    match a
    case Help => Scanned(values, false)
    case AddNewEntries => Scanned(values.(addNewEntries := true), true)
    case Config => Scanned(values.(configFilePath := value), true)
    case DebugMode => Scanned(values.(debugMode := true), true)
    case Version =>
      match versionFile
      case None => Crashed
      case Some(text) => if VersionNumber(text).None? then Failed(VersionFormatError) else Scanned(values, false)
  }

  /** The argument loop from the given run values on, one argument (and its extra string) per step. */
  function ScanFrom(values: RunValues, args: seq<string>, versionFile: Option<string>): (r: ScanOutcome)
    decreases |args|
  {
    if |args| == 0 then Scanned(values, true)
    else
      match ArgumentOf(args[0])
      case None => Failed(IllegalArgumentError(args[0]))
      case Some(a) =>
        if AllowsExtraString(a) && |args| < 2 then Crashed
        else
          var value := if AllowsExtraString(a) then args[1] else args[0];
          var rest := if AllowsExtraString(a) then args[2..] else args[1..];
          match ExtraRun(a, value, values, versionFile)
          case Scanned(next, true) => ScanFrom(next, rest, versionFile)
          case other => other
  }

  /** The scan of a run: the argument loop from the reset run values. */
  function ScanArguments(args: seq<string>, versionFile: Option<string>): (r: ScanOutcome)
    ensures |args| == 0 ==> r == Scanned(ResetRunValues(), true)
    ensures r.Scanned? ==> r.values.debugMessage == ""
  {
    ScanKeepsMessage(ResetRunValues(), args, versionFile);
    ScanFrom(ResetRunValues(), args, versionFile)
  }

  lemma {:induction false} ScanKeepsMessage(values: RunValues, args: seq<string>, versionFile: Option<string>)
    ensures ScanFrom(values, args, versionFile).Scanned? ==> ScanFrom(values, args, versionFile).values.debugMessage == values.debugMessage
    decreases |args|
  {
    if |args| > 0 && ArgumentOf(args[0]).Some? {
      var a := ArgumentOf(args[0]).value;
      if !(AllowsExtraString(a) && |args| < 2) {
        var value := if AllowsExtraString(a) then args[1] else args[0];
        var rest := if AllowsExtraString(a) then args[2..] else args[1..];
        var step := ExtraRun(a, value, values, versionFile);
        if step.Scanned? && step.shouldContinue {
          ScanKeepsMessage(step.values, rest, versionFile);
        }
      }
    }
  }

  /**
   * The argument loop as written: an iterator over the arguments, each one
   * looked up among the declared arguments, `--config` taking the next one,
   * the loop left after an argument that does not continue.
   */
  method ScanArgumentsLoop(args: seq<string>, versionFile: Option<string>) returns (r: ScanOutcome)
    ensures r == ScanArguments(args, versionFile)
  {
    var values := ResetRunValues();
    var i := 0;
    while i < |args|
      invariant 0 <= i <= |args|
      invariant ScanFrom(values, args[i..], versionFile) == ScanArguments(args, versionFile)
      decreases |args| - i
    {
      ScanFromAt(values, args, i, versionFile);
      var externalArgument := args[i];
      i := i + 1;
      var argument := ArgumentOf(externalArgument);
      if argument.None? {
        return Failed(IllegalArgumentError(externalArgument));
      }
      var a := argument.value;
      if AllowsExtraString(a) {
        if i == |args| {
          return Crashed;
        }
        externalArgument := args[i];
        i := i + 1;
      }
      var step := ExtraRun(a, externalArgument, values, versionFile);
      if !step.Scanned? || !step.shouldContinue {
        return step;
      }
      values := step.values;
    }
    return Scanned(values, true);
  }

  /** One step of the argument loop, read at index i of the whole argument list. */
  lemma ScanFromAt(values: RunValues, args: seq<string>, i: nat, versionFile: Option<string>)
    requires i < |args|
    ensures ArgumentOf(args[i]).None? ==> ScanFrom(values, args[i..], versionFile) == Failed(IllegalArgumentError(args[i]))
    ensures ArgumentOf(args[i]).Some? && AllowsExtraString(ArgumentOf(args[i]).value) && i + 1 == |args| ==>
              ScanFrom(values, args[i..], versionFile) == Crashed
    ensures ArgumentOf(args[i]).Some? && !(AllowsExtraString(ArgumentOf(args[i]).value) && i + 1 == |args|) ==>
              var a := ArgumentOf(args[i]).value;
              var d := if AllowsExtraString(a) then 2 else 1;
              var step := ExtraRun(a, args[i + d - 1], values, versionFile);
              ScanFrom(values, args[i..], versionFile) == if step.Scanned? && step.shouldContinue then ScanFrom(step.values, args[i + d..], versionFile) else step
  {
    var t := args[i..];
    assert t[0] == args[i];
    if |t| >= 2 {
      assert t[1] == args[i + 1];
      assert t[2..] == args[i + 2..];
    }
    assert t[1..] == args[i + 1..];
  }

  /**
   * What the first argument does to the scan: an unknown argument is an
   * ILLEGAL ARGUMENT error, `--help` stops, and the two mode flags set their
   * value and go on.
   */
  lemma ScanFirstArgument(values: RunValues, x: string, rest: seq<string>, versionFile: Option<string>)
    ensures ArgumentOf(x).None? ==> ScanFrom(values, [x] + rest, versionFile) == Failed(IllegalArgumentError(x))
    ensures x == "--help" ==> ScanFrom(values, [x] + rest, versionFile) == Scanned(values, false)
    ensures x == "--add-new-entries" ==>
              ScanFrom(values, [x] + rest, versionFile) == ScanFrom(values.(addNewEntries := true), rest, versionFile)
    ensures x == "--debug-mode" ==>
              ScanFrom(values, [x] + rest, versionFile) == ScanFrom(values.(debugMode := true), rest, versionFile)
  {
    assert ([x] + rest)[0] == x;
    assert ([x] + rest)[1..] == rest;
  }

  /** `--config` takes the next argument as the config path, and there must be one. */
  lemma ScanConfigArgument(values: RunValues, rest: seq<string>, versionFile: Option<string>)
    ensures |rest| == 0 ==> ScanFrom(values, ["--config"] + rest, versionFile) == Crashed
    ensures |rest| > 0 ==>
              ScanFrom(values, ["--config"] + rest, versionFile) == ScanFrom(values.(configFilePath := rest[0]), rest[1..], versionFile)
  {
    var args := ["--config"] + rest;
    assert args[0] == "--config";
    if |rest| > 0 {
      assert args[1] == rest[0];
      assert args[2..] == rest[1..];
    }
  }

  /** `--version` reads the version file and stops once the version number is found in it. */
  lemma ScanVersionArgument(values: RunValues, rest: seq<string>, versionFile: Option<string>)
    ensures versionFile.None? ==> ScanFrom(values, ["--version"] + rest, versionFile) == Crashed
    ensures versionFile.Some? ==>
              ScanFrom(values, ["--version"] + rest, versionFile)
              == if VersionNumber(versionFile.value).None? then Failed(VersionFormatError) else Scanned(values, false)
  {
    assert (["--version"] + rest)[0] == "--version";
  }

  /**
   * The loop consumes the arguments from left to right: a prefix that is
   * scanned to the end without stopping hands its run values on to the rest.
   */
  lemma {:induction false} ScanConcat(values: RunValues, a: seq<string>, b: seq<string>, versionFile: Option<string>)
    requires ScanFrom(values, a, versionFile).Scanned? && ScanFrom(values, a, versionFile).shouldContinue
    ensures ScanFrom(values, a + b, versionFile) == ScanFrom(ScanFrom(values, a, versionFile).values, b, versionFile)
    decreases |a|
  {
    if |a| == 0 {
      assert a + b == b;
    } else {
      var x := ArgumentOf(a[0]).value;
      assert (a + b)[0] == a[0];
      var value := if AllowsExtraString(x) then a[1] else a[0];
      var rest := if AllowsExtraString(x) then a[2..] else a[1..];
      TailOfConcat(a, b);
      if AllowsExtraString(x) {
        assert (a + b)[1] == a[1];
        assert (a + b)[2..] == a[2..] + b;
      }
      var step := ExtraRun(x, value, values, versionFile);
      ScanConcat(step.values, rest, b, versionFile);
    }
  }

  /**
   * An unknown argument right after a prefix that scanned without stopping
   * fails the run with ILLEGAL ARGUMENT, whatever follows it.
   */
  lemma UnknownArgumentFails(a: seq<string>, x: string, b: seq<string>, versionFile: Option<string>)
    requires ScanArguments(a, versionFile).Scanned? && ScanArguments(a, versionFile).shouldContinue
    requires ArgumentOf(x).None?
    ensures ScanArguments(a + [x] + b, versionFile) == Failed(IllegalArgumentError(x))
  {
    assert a + [x] + b == a + ([x] + b);
    ScanConcat(ResetRunValues(), a, [x] + b, versionFile);
    ScanFirstArgument(ScanArguments(a, versionFile).values, x, b, versionFile);
  }

  /** `--help` stops the scan: nothing after it is looked at, not even an unknown argument. */
  lemma HelpIgnoresTheRest(a: seq<string>, b: seq<string>, versionFile: Option<string>)
    requires ScanArguments(a, versionFile).Scanned? && ScanArguments(a, versionFile).shouldContinue
    ensures ScanArguments(a + ["--help"] + b, versionFile) == Scanned(ScanArguments(a, versionFile).values, false)
  {
    assert a + ["--help"] + b == a + (["--help"] + b);
    ScanConcat(ResetRunValues(), a, ["--help"] + b, versionFile);
    ScanFirstArgument(ScanArguments(a, versionFile).values, "--help", b, versionFile);
  }

  /**
   * The modes only change through their own flags: a mode is on afterwards
   * only when it was on before or its flag occurs among the arguments, and a
   * mode once on stays on.
   */
  lemma {:induction false} ScanFlagsFromArguments(values: RunValues, args: seq<string>, versionFile: Option<string>)
    requires ScanFrom(values, args, versionFile).Scanned?
    ensures var v := ScanFrom(values, args, versionFile).values;
            && (values.addNewEntries ==> v.addNewEntries)
            && (v.addNewEntries ==> values.addNewEntries || "--add-new-entries" in args)
            && (values.debugMode ==> v.debugMode)
            && (v.debugMode ==> values.debugMode || "--debug-mode" in args)
    decreases |args|
  {
    if |args| > 0 {
      var x := ArgumentOf(args[0]).value;
      var value := if AllowsExtraString(x) then args[1] else args[0];
      var rest := if AllowsExtraString(x) then args[2..] else args[1..];
      var step := ExtraRun(x, value, values, versionFile);
      if step.shouldContinue {
        ScanFlagsFromArguments(step.values, rest, versionFile);
        assert "--add-new-entries" in rest ==> "--add-new-entries" in args;
        assert "--debug-mode" in rest ==> "--debug-mode" in args;
      }
    }
  }

  /** The config path afterwards is the old one or an argument that directly follows `--config`. */
  lemma {:induction false} ScanConfigFromArguments(values: RunValues, args: seq<string>, versionFile: Option<string>)
    requires ScanFrom(values, args, versionFile).Scanned?
    ensures var v := ScanFrom(values, args, versionFile).values;
            || v.configFilePath == values.configFilePath
            || exists i :: 1 <= i < |args| && args[i - 1] == "--config" && args[i] == v.configFilePath
    decreases |args|
  {
    if |args| > 0 {
      var x := ArgumentOf(args[0]).value;
      var value := if AllowsExtraString(x) then args[1] else args[0];
      var rest := if AllowsExtraString(x) then args[2..] else args[1..];
      var step := ExtraRun(x, value, values, versionFile);
      if step.shouldContinue {
        ScanConfigFromArguments(step.values, rest, versionFile);
        var v := ScanFrom(values, args, versionFile).values;
        var d := if AllowsExtraString(x) then 2 else 1;
        assert rest == args[d..];
        if v.configFilePath != step.values.configFilePath {
          var i :| 1 <= i < |rest| && rest[i - 1] == "--config" && rest[i] == v.configFilePath;
          assert args[i + d - 1] == "--config" && args[i + d] == v.configFilePath;
        } else if v.configFilePath != values.configFilePath {
          assert args[0] == "--config" && args[1] == v.configFilePath;
        }
      }
    }
  }

  /** With only declared arguments (and a value after every `--config`) there is no ILLEGAL ARGUMENT error. */
  lemma {:induction false} DeclaredArgumentsAreLegal(values: RunValues, args: seq<string>, versionFile: Option<string>)
    requires forall i :: 0 <= i < |args| ==> ArgumentOf(args[i]).Some?
    ensures ScanFrom(values, args, versionFile).Failed? ==> ScanFrom(values, args, versionFile).error == VersionFormatError
    decreases |args|
  {
    if |args| > 0 {
      var x := ArgumentOf(args[0]).value;
      if !(AllowsExtraString(x) && |args| < 2) {
        var d := if AllowsExtraString(x) then 2 else 1;
        var value := if AllowsExtraString(x) then args[1] else args[0];
        var step := ExtraRun(x, value, values, versionFile);
        if step.Scanned? && step.shouldContinue {
          DeclaredSuffix(args, d);
          DeclaredArgumentsAreLegal(step.values, args[d..], versionFile);
        }
      }
    }
  }

  /** Every argument of a suffix of declared arguments is declared. */
  lemma DeclaredSuffix(args: seq<string>, d: nat)
    requires d <= |args|
    requires forall i :: 0 <= i < |args| ==> ArgumentOf(args[i]).Some?
    ensures forall i :: 0 <= i < |args[d..]| ==> ArgumentOf(args[d..][i]).Some?
  {
    forall i | 0 <= i < |args[d..]|
      ensures ArgumentOf(args[d..][i]).Some?
    {
      assert args[d..][i] == args[i + d];
    }
  }

  /** The config path: one not starting with '/' is taken relative to the working directory. */
  function AbsoluteConfigPath(path: string, workingDir: string): (r: string)
    ensures EndsWith(r, path)
    ensures StartsWith(path, "/") ==> r == path
    ensures !StartsWith(path, "/") ==> StartsWith(r, workingDir + "/")
  {
    if StartsWith(path, "/") then path else workingDir + "/" + path
  }

  /** With an absolute working directory the config path is absolute, and prefixing it again changes nothing. */
  lemma AbsoluteConfigPathIsAbsolute(path: string, workingDir: string)
    requires StartsWith(workingDir, "/")
    ensures StartsWith(AbsoluteConfigPath(path, workingDir), "/")
    ensures AbsoluteConfigPath(AbsoluteConfigPath(path, workingDir), workingDir) == AbsoluteConfigPath(path, workingDir)
  {
    var r := AbsoluteConfigPath(path, workingDir);
    assert r[0] == (if StartsWith(path, "/") then path[0] else workingDir[0]);
  }

  /** The XML side of the pipeline: createXmlMap on a path of the file system, the DOM parse and the serialiser. */
  datatype XmlCodec = XmlCodec(createXmlMap: (string, Files) -> Result<Mapping>,
                               elementsOf: string -> seq<StringElement>,
                               serialize: (string, seq<StringElement>) -> string)

  function IllegalSourceError(from: string): Error {
    Error(IllegalConfig, "from: " + from + " is not a valid .xml or .strings file, please check your yaml config.")
  }

  function IllegalDestinationError(to: string): Error {
    Error(IllegalConfig, "to: " + to + " is not a valid .xml or .strings file, please check your yaml config.")
  }

  /** No name ends in both `.xml` and `.strings`, so the order of the suffix tests does not matter. */
  lemma SuffixesExclusive(name: string)
    ensures !(EndsWith(name, ".xml") && EndsWith(name, ".strings"))
  {
    if EndsWith(name, ".xml") {
      assert name[|name| - 1] == 'l';
    }
  }

  /** One source of a translation, read from under the root path according to its suffix. */
  function ReadSource(root: string, from: string, files: Files, xml: XmlCodec): (r: Result<Mapping>)
    ensures EndsWith(from, ".xml") ==> r == xml.createXmlMap(root + "/" + from, files)
    ensures EndsWith(from, ".strings") ==> r == CreateDotStringsMap(root + "/" + from, files)
    ensures !EndsWith(from, ".xml") && !EndsWith(from, ".strings") ==> r == Err(IllegalSourceError(from))
  {
    SuffixesExclusive(from);
    if EndsWith(from, ".xml") then xml.createXmlMap(root + "/" + from, files)
    else if EndsWith(from, ".strings") then CreateDotStringsMap(root + "/" + from, files)
    else Err(IllegalSourceError(from))
  }

  /** The sources of a translation, read in order; the first failing one ends the read. */
  function ReadSources(root: string, froms: seq<string>, files: Files, xml: XmlCodec): (r: Result<seq<Mapping>>)
    ensures r.Ok? ==> |r.value| == |froms| && forall i :: 0 <= i < |froms| ==> Ok(r.value[i]) == ReadSource(root, froms[i], files, xml)
  {
    var read := from => ReadSource(root, from, files, xml);
    MapResultOk(read, froms);
    MapResult(read, froms)
  }

  /** A failed read reports the error of the first source that fails; every source before it was read. */
  lemma ReadSourcesFirstError(root: string, froms: seq<string>, files: Files, xml: XmlCodec)
    requires ReadSources(root, froms, files, xml).Err?
    ensures exists i :: && 0 <= i < |froms|
                        && ReadSource(root, froms[i], files, xml) == Err(ReadSources(root, froms, files, xml).error)
                        && forall j :: 0 <= j < i ==> ReadSource(root, froms[j], files, xml).Ok?
  {
    var i := MapResultFirstError(from => ReadSource(root, from, files, xml), froms);
    assert ReadSource(root, froms[i], files, xml) == Err(ReadSources(root, froms, files, xml).error);
  }

  /** A source with neither suffix after sources that all read fails the translation with ILLEGAL CONFIG. */
  lemma BadSourceFails(root: string, froms: seq<string>, k: nat, files: Files, xml: XmlCodec)
    requires k < |froms| && !EndsWith(froms[k], ".xml") && !EndsWith(froms[k], ".strings")
    requires forall j :: 0 <= j < k ==> ReadSource(root, froms[j], files, xml).Ok?
    ensures ReadSources(root, froms, files, xml) == Err(IllegalSourceError(froms[k]))
  {
    ReadSourcesStopsAt(root, froms, k, files, xml);
  }

  lemma ReadSourcesStopsAt(root: string, froms: seq<string>, k: nat, files: Files, xml: XmlCodec)
    requires k < |froms| && ReadSource(root, froms[k], files, xml).Err?
    requires forall j :: 0 <= j < k ==> ReadSource(root, froms[j], files, xml).Ok?
    ensures ReadSources(root, froms, files, xml) == Err(ReadSource(root, froms[k], files, xml).error)
  {
    MapResultStopsAt(from => ReadSource(root, from, files, xml), froms, k);
  }

  /** One destination of a translation, written under the root path according to its suffix; the debug lists are dropped. */
  function WriteDestination(merged: Mapping, root: string, to: string, addNewEntries: bool, files: Files, xml: XmlCodec)
    : (r: Result<Files>)
    ensures r.Ok? ==> r.value.Keys == files.Keys
    ensures r.Ok? ==> forall p :: p in files && p != root + "/" + to ==> r.value[p] == files[p]
    ensures EndsWith(to, ".xml") ==>
              var w := WriteMappingToXmlFile(merged, root + "/" + to, addNewEntries, files, xml.elementsOf, xml.serialize);
              (w.Ok? ==> r == Ok(w.value.0)) && (w.Err? ==> r == Err(w.error))
    ensures EndsWith(to, ".strings") ==>
              var w := WriteMappingToDotStringsFile(merged, root + "/" + to, addNewEntries, files);
              (w.Ok? ==> r == Ok(w.value.0)) && (w.Err? ==> r == Err(w.error))
    ensures !EndsWith(to, ".xml") && !EndsWith(to, ".strings") ==> r == Err(IllegalDestinationError(to))
  {
    SuffixesExclusive(to);
    if EndsWith(to, ".xml") then
      var written :- WriteMappingToXmlFile(merged, root + "/" + to, addNewEntries, files, xml.elementsOf, xml.serialize);
      Ok(written.0)
    else if EndsWith(to, ".strings") then
      var written :- WriteMappingToDotStringsFile(merged, root + "/" + to, addNewEntries, files);
      Ok(written.0)
    else Err(IllegalDestinationError(to))
  }

  /** The file system after a run or part of it, with the error that ended it, if any. */
  datatype Written = Written(files: Files, error: Option<Error>)

  /** The destinations of a translation, written in order; the writes before a failing one stay. */
  function WriteDestinations(merged: Mapping, root: string, tos: seq<string>, addNewEntries: bool, files: Files, xml: XmlCodec)
    : (r: Written)
    ensures r.files.Keys == files.Keys
    ensures forall p :: p in files && (forall i :: 0 <= i < |tos| ==> p != root + "/" + tos[i]) ==> r.files[p] == files[p]
    decreases |tos|
  {
    if |tos| == 0 then Written(files, None)
    else
      match WriteDestination(merged, root, tos[0], addNewEntries, files, xml)
      case Err(e) => Written(files, Some(e))
      case Ok(next) =>
        var r := WriteDestinations(merged, root, tos[1..], addNewEntries, next, xml);
        assert forall i :: 1 <= i < |tos| ==> tos[i] == tos[1..][i - 1];
        r
  }

  /**
   * The step of the destination loop: the first destination is written with
   * the merged mapping; its error ends the loop with the files as they were,
   * and otherwise the rest is written on the files it produced.
   */
  lemma WriteDestinationsStep(merged: Mapping, root: string, tos: seq<string>, addNewEntries: bool, files: Files, xml: XmlCodec)
    requires |tos| > 0
    ensures var w := WriteDestination(merged, root, tos[0], addNewEntries, files, xml);
            var r := WriteDestinations(merged, root, tos, addNewEntries, files, xml);
            && (w.Err? ==> r == Written(files, Some(w.error)))
            && (w.Ok? ==> r == WriteDestinations(merged, root, tos[1..], addNewEntries, w.value, xml))
  {
  }

  /** A single destination: the run holds exactly what its write produced, or its error on the untouched files. */
  lemma WriteOneDestinationOutcome(merged: Mapping, root: string, to: string, addNewEntries: bool, files: Files, xml: XmlCodec)
    ensures var w := WriteDestination(merged, root, to, addNewEntries, files, xml);
            WriteDestinations(merged, root, [to], addNewEntries, files, xml)
            == if w.Ok? then Written(w.value, None) else Written(files, Some(w.error))
  {
    assert [to][1..] == [];
  }

  /** Destinations are written one after the other: a prefix written without error hands its files on. */
  lemma {:induction false} WriteDestinationsConcat(merged: Mapping, root: string, a: seq<string>, b: seq<string>,
                                                   addNewEntries: bool, files: Files, xml: XmlCodec)
    requires WriteDestinations(merged, root, a, addNewEntries, files, xml).error.None?
    ensures WriteDestinations(merged, root, a + b, addNewEntries, files, xml)
            == WriteDestinations(merged, root, b, addNewEntries, WriteDestinations(merged, root, a, addNewEntries, files, xml).files, xml)
    decreases |a|
  {
    if |a| == 0 {
      assert a + b == b;
    } else {
      assert (a + b)[0] == a[0];
      TailOfConcat(a, b);
      var step := WriteDestination(merged, root, a[0], addNewEntries, files, xml);
      assert step.Ok?;
      WriteDestinationsConcat(merged, root, a[1..], b, addNewEntries, step.value, xml);
      assert WriteDestinations(merged, root, a + b, addNewEntries, files, xml)
             == WriteDestinations(merged, root, a[1..] + b, addNewEntries, step.value, xml);
    }
  }

  /**
   * A destination with neither suffix is only noticed when its turn comes:
   * the destinations before it have been written, and the run ends with
   * ILLEGAL CONFIG.
   */
  lemma BadDestinationAfterEarlierWrites(merged: Mapping, root: string, tos: seq<string>, k: nat,
                                         addNewEntries: bool, files: Files, xml: XmlCodec)
    requires k < |tos| && !EndsWith(tos[k], ".xml") && !EndsWith(tos[k], ".strings")
    requires WriteDestinations(merged, root, tos[..k], addNewEntries, files, xml).error.None?
    ensures WriteDestinations(merged, root, tos, addNewEntries, files, xml)
            == Written(WriteDestinations(merged, root, tos[..k], addNewEntries, files, xml).files,
                       Some(IllegalDestinationError(tos[k])))
  {
    assert tos == tos[..k] + tos[k..];
    WriteDestinationsConcat(merged, root, tos[..k], tos[k..], addNewEntries, files, xml);
  }

  /** A bad second destination is reported on the files the first destination's write produced. */
  lemma BadSecondDestinationAfterFirstWrite(merged: Mapping, root: string, first: string, bad: string,
                                            addNewEntries: bool, files: Files, xml: XmlCodec)
    requires WriteDestination(merged, root, first, addNewEntries, files, xml).Ok?
    requires !EndsWith(bad, ".xml") && !EndsWith(bad, ".strings")
    ensures WriteDestinations(merged, root, [first, bad], addNewEntries, files, xml)
            == Written(WriteDestination(merged, root, first, addNewEntries, files, xml).value, Some(IllegalDestinationError(bad)))
  {
    assert [first, bad][1..] == [bad];
  }

  function OrEmpty(names: Option<seq<string>>): seq<string> {
    if names.Some? then names.value else []
  }

  /**
   * One translation: every source is read and the mappings merged before any
   * destination is written, and every destination is written with that one
   * merged mapping. A failing read leaves every file as it was.
   */
  function RunTranslation(t: Translation, root: string, addNewEntries: bool, files: Files, xml: XmlCodec): (r: Written)
    ensures r.files.Keys == files.Keys
    ensures ReadSources(root, OrEmpty(t.from), files, xml).Err? ==>
              r == Written(files, Some(ReadSources(root, OrEmpty(t.from), files, xml).error))
    ensures ReadSources(root, OrEmpty(t.from), files, xml).Ok? ==>
              r == WriteDestinations(MergeMappings(ReadSources(root, OrEmpty(t.from), files, xml).value),
                                     root, OrEmpty(t.to), addNewEntries, files, xml)
  {
    match ReadSources(root, OrEmpty(t.from), files, xml)
    case Err(e) => Written(files, Some(e))
    case Ok(mappings) => WriteDestinations(MergeMappings(mappings), root, OrEmpty(t.to), addNewEntries, files, xml)
  }

  /** A single `.strings` source under the root path reads as its file's mapping. */
  lemma ReadOneDotStringsSource(root: string, name: string, files: Files, xml: XmlCodec)
    requires EndsWith(name, ".strings") && root + "/" + name in files
    requires ReadDotStrings(files[root + "/" + name]).Ok?
    ensures ReadSources(root, [name], files, xml) == Ok([ReadDotStrings(files[root + "/" + name]).value])
  {
    var path := root + "/" + name;
    assert path[|path| - 8..] == name[|name| - 8..];
    var m := ReadDotStrings(files[path]);
    assert ReadSource(root, name, files, xml) == m;
    assert [name][1..] == [];
    assert ReadSources(root, [], files, xml) == Ok([]);
    assert [m.value] + [] == [m.value];
  }

  /** A single destination whose write leaves the files as they are ends the translation without change. */
  lemma WriteOneDestination(merged: Mapping, root: string, to: string, addNewEntries: bool, files: Files, xml: XmlCodec)
    requires WriteDestination(merged, root, to, addNewEntries, files, xml) == Ok(files)
    ensures WriteDestinations(merged, root, [to], addNewEntries, files, xml) == Written(files, None)
  {
    assert [to][1..] == [];
  }

  /** Writing a `.strings` file with the mapping read from it leaves it as it is, under the same conditions. */
  lemma WriteOwnDotStringsDestination(root: string, name: string, addNewEntries: bool, files: Files, xml: XmlCodec)
    requires EndsWith(name, ".strings")
    requires root + "/" + name in files
    requires var text := files[root + "/" + name];
             && ReadDotStrings(text).Ok?
             && Concat(Scan(text)) == text
             && forall i :: 0 <= i < |Scan(text)| ==> Terminated(Scan(text)[i])
    ensures WriteDestination(ReadDotStrings(files[root + "/" + name]).value, root, name, addNewEntries, files, xml) == Ok(files)
  {
    var path := root + "/" + name;
    var text := files[path];
    var read := ReadDotStrings(text).value;
    assert path[|path| - 8..] == name[|name| - 8..];
    SuffixesExclusive(name);
    WriteWithOwnMappingIsIdentity(text, addNewEntries);
    WriteSameTextLeavesFiles(read, path, addNewEntries, files);
  }

  /**
   * Translating a `.strings` file into itself leaves it as it is, when it is
   * made of terminated statements and the scanner drops nothing of it.
   */
  lemma SelfTranslationIsIdentity(root: string, name: string, addNewEntries: bool, files: Files, xml: XmlCodec)
    requires EndsWith(name, ".strings")
    requires root + "/" + name in files
    requires var text := files[root + "/" + name];
             && ReadDotStrings(text).Ok?
             && Concat(Scan(text)) == text
             && forall i :: 0 <= i < |Scan(text)| ==> Terminated(Scan(text)[i])
    ensures RunTranslation(Translation(Some([name]), Some([name])), root, addNewEntries, files, xml) == Written(files, None)
  {
    var read := ReadDotStrings(files[root + "/" + name]).value;
    ReadOneDotStringsSource(root, name, files, xml);
    WriteOwnDotStringsDestination(root, name, addNewEntries, files, xml);
    WriteOneDestination(read, root, name, addNewEntries, files, xml);
    assert MergeMappings([read]) == read;
  }

  /** The translations of the config, in order; the first one that fails ends the run. */
  function RunTranslations(ts: seq<Translation>, root: string, addNewEntries: bool, files: Files, xml: XmlCodec)
    : (r: Written)
    ensures r.files.Keys == files.Keys
    ensures |ts| == 0 ==> r == Written(files, None)
    ensures |ts| > 0 && RunTranslation(ts[0], root, addNewEntries, files, xml).error.Some? ==>
              r == RunTranslation(ts[0], root, addNewEntries, files, xml)
    decreases |ts|
  {
    if |ts| == 0 then Written(files, None)
    else
      var w := RunTranslation(ts[0], root, addNewEntries, files, xml);
      if w.error.Some? then w else RunTranslations(ts[1..], root, addNewEntries, w.files, xml)
  }

  /** Translations run one after the other: a prefix run without error hands its files on to the rest. */
  lemma {:induction false} RunTranslationsConcat(a: seq<Translation>, b: seq<Translation>, root: string,
                                                 addNewEntries: bool, files: Files, xml: XmlCodec)
    requires RunTranslations(a, root, addNewEntries, files, xml).error.None?
    ensures RunTranslations(a + b, root, addNewEntries, files, xml)
            == RunTranslations(b, root, addNewEntries, RunTranslations(a, root, addNewEntries, files, xml).files, xml)
    decreases |a|
  {
    if |a| == 0 {
      assert a + b == b;
    } else {
      var w := RunTranslation(a[0], root, addNewEntries, files, xml);
      assert w.error.None?;
      assert a == [a[0]] + a[1..];
      assert a + b == [a[0]] + (a[1..] + b);
      RunTranslationsStep(a[0], a[1..], root, addNewEntries, files, xml);
      RunTranslationsStep(a[0], a[1..] + b, root, addNewEntries, files, xml);
      RunTranslationsConcat(a[1..], b, root, addNewEntries, w.files, xml);
    }
  }

  /** A translation that ends without error hands its files on to the next one. */
  lemma RunTranslationsStep(t: Translation, rest: seq<Translation>, root: string, addNewEntries: bool, files: Files, xml: XmlCodec)
    requires RunTranslation(t, root, addNewEntries, files, xml).error.None?
    ensures RunTranslations([t] + rest, root, addNewEntries, files, xml)
            == RunTranslations(rest, root, addNewEntries, RunTranslation(t, root, addNewEntries, files, xml).files, xml)
  {
    assert ([t] + rest)[1..] == rest;
  }

  /**
   * How a run of translateViaXDST ends: stopped early by `--help` or
   * `--version`, finished, aborted by a tagged error (the files as far as they
   * were written), or crashed by an exception it does not catch.
   */
  datatype RunOutcome =
    | Stopped(values: RunValues)
    | Finished(values: RunValues, files: Files)
    | Aborted(files: Files, error: Error)
    | CrashedRun

  /**
   * translateViaXDST: scan the arguments, read the config (given already
   * parsed, by path) and run its translations on the file system.
   */
  function Translate(args: seq<string>, versionFile: Option<string>, workingDir: string,
                     configs: map<string, VirtualConfigFile>, files: Files, xml: XmlCodec): (r: RunOutcome)
    ensures ScanArguments(args, versionFile).Failed? ==> r == Aborted(files, ScanArguments(args, versionFile).error)
    ensures ScanArguments(args, versionFile).Crashed? ==> r == CrashedRun
    ensures ScanArguments(args, versionFile).Scanned? && !ScanArguments(args, versionFile).shouldContinue ==>
              r == Stopped(ScanArguments(args, versionFile).values)
    ensures (r.Finished? || r.Aborted?) ==> r.files.Keys == files.Keys
    ensures r.Finished? ==> ScanArguments(args, versionFile).Scanned? && AbsoluteConfigPath(ScanArguments(args, versionFile).values.configFilePath, workingDir) in configs
  {
    match ScanArguments(args, versionFile)
    case Crashed => CrashedRun
    case Failed(e) => Aborted(files, e)
    case Scanned(values, shouldContinue) =>
      if !shouldContinue then Stopped(values)
      else
        match ReadConfig(AbsoluteConfigPath(values.configFilePath, workingDir), configs)
        case Err(e) => Aborted(files, e)
        case Ok(config) =>
          var w := RunTranslations(TranslationsOf(config.translations), config.rootPath, values.addNewEntries, files, xml);
          if w.error.Some? then Aborted(w.files, w.error.value) else Finished(values, w.files)
  }

  function TranslationsOf(ts: Option<seq<Translation>>): seq<Translation> {
    if ts.Some? then ts.value else []
  }

  /**
   * Once the arguments say to go on and the config is found, the run is the
   * config's translations, in order, under its root path and with the
   * `--addNewEntries` value of the arguments; it finishes with their files
   * or aborts with the first error and the files written so far.
   */
  lemma TranslateRunsConfig(args: seq<string>, versionFile: Option<string>, workingDir: string,
                            configs: map<string, VirtualConfigFile>, files: Files, xml: XmlCodec)
    requires ScanArguments(args, versionFile).Scanned? && ScanArguments(args, versionFile).shouldContinue
    requires ReadConfig(AbsoluteConfigPath(ScanArguments(args, versionFile).values.configFilePath, workingDir), configs).Ok?
    ensures var values := ScanArguments(args, versionFile).values;
            var config := ReadConfig(AbsoluteConfigPath(values.configFilePath, workingDir), configs).value;
            var w := RunTranslations(TranslationsOf(config.translations), config.rootPath, values.addNewEntries, files, xml);
            var r := Translate(args, versionFile, workingDir, configs, files, xml);
            (w.error.None? ==> r == Finished(values, w.files)) && (w.error.Some? ==> r == Aborted(w.files, w.error.value))
  {
  }

  /** `--help` as the first argument ends the run before any config is read, whatever else is given. */
  lemma HelpFirstStops(rest: seq<string>, versionFile: Option<string>, workingDir: string,
                       configs: map<string, VirtualConfigFile>, files: Files, xml: XmlCodec)
    ensures Translate(["--help"] + rest, versionFile, workingDir, configs, files, xml) == Stopped(ResetRunValues())
  {
    ScanFirstArgument(ResetRunValues(), "--help", rest, versionFile);
  }

  /** Without a config file at the resolved path the run aborts with FILE NOT FOUND and writes nothing. */
  lemma MissingConfigAborts(args: seq<string>, versionFile: Option<string>, workingDir: string,
                            configs: map<string, VirtualConfigFile>, files: Files, xml: XmlCodec)
    requires ScanArguments(args, versionFile).Scanned? && ScanArguments(args, versionFile).shouldContinue
    requires AbsoluteConfigPath(ScanArguments(args, versionFile).values.configFilePath, workingDir) !in configs
    ensures Translate(args, versionFile, workingDir, configs, files, xml)
            == Aborted(files, Error(FileNotFound, "Could not find config file under:\n"
                                                  + AbsoluteConfigPath(ScanArguments(args, versionFile).values.configFilePath, workingDir)))
  {
  }
}
