/** The `Swift` driver: the argument vectors it passes to the `swift`
    executable, the errors it raises, how it turns a finished process into a
    result or an error, and the questions it asks of the package manifest. */
module SwiftTool {
  import opened Wrappers
  import opened Text
  import opened Diagnostics
  import opened ErrorsParser
  import opened SwiftPackage

  // ---------------------------------------------------------------------
  // Commands and their arguments

  datatype Command =
    | Dump
    | Version
    | Build(release: bool, productName: string)
    | Previews(moduleName: string, previewNames: seq<string>)

  /** What a build adds to target WebAssembly. */
  const WasmTriple: seq<string> :=
    ["--triple", "wasm32-unknown-wasi", "-Xlinker", "-licuuc", "-Xlinker", "-licui18n", "-Xlinker", "--stack-first"]

  /** What a build adds otherwise: a separate build directory. */
  const NativeBuildPath: seq<string> := ["--build-path", "./.build/.native"]

  const LiveBuildPath: seq<string> := ["--build-path", "./.build/.live"]

  function BuildPrefix(release: bool, productName: string): seq<string> {
    ["build", "-c", if release then "release" else "debug", "--product", productName, "--enable-test-discovery"]
  }

  /** Each preview qualified by its module. */
  function QualifiedPreviews(moduleName: string, previewNames: seq<string>): (r: seq<string>)
    ensures |r| == |previewNames|
    ensures forall i :: 0 <= i < |r| ==> r[i] == moduleName + "/" + previewNames[i]
  {
    seq(|previewNames|, i requires 0 <= i < |previewNames| => moduleName + "/" + previewNames[i])
  }

  /** The one argument that selects the previews to run. */
  function PreviewSelector(moduleName: string, previewNames: seq<string>): string {
    Join(QualifiedPreviews(moduleName, previewNames), ",")
  }

  /** `Command.arguments(tripleWasm:)`. */
  function Arguments(command: Command, tripleWasm: bool): seq<string> {
    match command
    case Dump => ["package", "dump-package"]
    case Version => ["--version"]
    case Build(release, productName) =>
      var args := BuildPrefix(release, productName);
      if tripleWasm then args + WasmTriple else args + NativeBuildPath
    case Previews(moduleName, previewNames) =>
      ["run", "-Xswiftc", "-DWEBPREVIEW", moduleName, "--previews"] + [PreviewSelector(moduleName, previewNames)] +
      LiveBuildPath
  }

  /** Only a build depends on the target flag. */
  lemma ArgumentsIgnoreTriple(command: Command)
    requires !command.Build?
    ensures Arguments(command, true) == Arguments(command, false)
  {
  }

  /** A build's arguments are the fixed prefix and then exactly one of the
      two suffixes, chosen by the target flag. */
  lemma BuildArgumentsShape(release: bool, productName: string, tripleWasm: bool)
    ensures var args := Arguments(Build(release, productName), tripleWasm);
      |args| >= 6 && args[..6] == BuildPrefix(release, productName) &&
      (args[6..] == WasmTriple <==> tripleWasm) && (args[6..] == NativeBuildPath <==> !tripleWasm)
  {
    var args := Arguments(Build(release, productName), tripleWasm);
    assert args[6..] == if tripleWasm then WasmTriple else NativeBuildPath;
    assert WasmTriple != NativeBuildPath by {
      assert |WasmTriple| != |NativeBuildPath|;
    }
  }

  /** Reads the build settings back from a build's arguments. */
  function BuildSettings(args: seq<string>): Option<(bool, string, bool)> {
    if |args| < 6 || args[..6] != BuildPrefix(args[2] == "release", args[4]) then None
    else if args[6..] == WasmTriple then Some((args[2] == "release", args[4], true))
    else if args[6..] == NativeBuildPath then Some((args[2] == "release", args[4], false))
    else None
  }

  /** The arguments of a build say which configuration, product and target
      were asked for. */
  lemma BuildArgumentsRoundTrip(release: bool, productName: string, tripleWasm: bool)
    ensures BuildSettings(Arguments(Build(release, productName), tripleWasm)) == Some((release, productName, tripleWasm))
  {
    BuildArgumentsShape(release, productName, tripleWasm);
  }

  /** The previews run in module `moduleName`, and when neither the module
      nor a preview name holds a comma, splitting the selector on commas
      gives back each preview qualified by the module, in order. */
  lemma PreviewArguments(moduleName: string, previewNames: seq<string>, tripleWasm: bool)
    requires |previewNames| > 0 && ',' !in moduleName
    requires forall i :: 0 <= i < |previewNames| ==> ',' !in previewNames[i]
    ensures var args := Arguments(Previews(moduleName, previewNames), tripleWasm);
      |args| == 8 && args[3] == moduleName &&
      Split(args[5], ",") == QualifiedPreviews(moduleName, previewNames)
  {
    var qualified := QualifiedPreviews(moduleName, previewNames);
    forall k | 0 <= k < |qualified|
      ensures ',' !in qualified[k]
    {
      assert qualified[k] == moduleName + "/" + previewNames[k];
    }
    SplitJoin(qualified, ',');
  }

  // ---------------------------------------------------------------------
  // Errors

  datatype SwiftError =
    | Lines(lines: seq<string>)
    | Another(description: string)
    | Text(text: string)
    | Raw(raw: string)
    | Errors(errors: seq<CompilationError>)

  /** An array of strings as string interpolation prints it. */
  function LinesDescription(lines: seq<string>): string {
    "[" + Join(seq(|lines|, i requires 0 <= i < |lines| => "\"" + lines[i] + "\""), ", ") + "]"
  }

  /** `SwiftError.description`. */
  function Description(e: SwiftError): string {
    match e
    case Lines(lines) => LinesDescription(lines)
    case Another(description) => description
    case Text(text) => text
    case Raw(raw) => raw
    case Errors(errors) =>
      if |errors| > 1 then "found " + IntToString(|errors|) + " errors \U{2757}\U{FE0F}\U{2757}\U{FE0F}\U{2757}\U{FE0F}"
      else "found 1 error \U{2757}\U{FE0F}"
  }

  /** For a non-empty list of records the description gives their number,
      which reads back as that number, and says "errors" exactly when there
      is more than one. */
  lemma ErrorsDescription(errors: seq<CompilationError>)
    requires 0 < |errors| <= IntMax
    ensures var d := Description(Errors(errors));
      var count := IntToString(|errors|);
      HasPrefix(d, "found " + count + " error") && ParseInt(d[6..6 + |count|]) == Some(|errors|) &&
      (HasPrefix(d, "found " + count + " errors") <==> |errors| > 1)
  {
    var d := Description(Errors(errors));
    var count := IntToString(|errors|);
    var tail := if |errors| > 1 then " errors \U{2757}\U{FE0F}\U{2757}\U{FE0F}\U{2757}\U{FE0F}" else " error \U{2757}\U{FE0F}";
    assert |errors| == 1 ==> count == "1" by {
      if |errors| == 1 {
        assert NatToString(1) == [DigitChar(1)];
      }
    }
    assert d == "found " + count + tail;
    assert d[6..6 + |count|] == count;
    IntToStringParses(|errors|);
    if |errors| == 1 {
      assert d[6 + |count| + 6] == ' ';
    }
  }

  // ---------------------------------------------------------------------
  // The outcome of a finished process

  const ErrorSeparator: string := ": error:"

  /** The message of a failure on standard error: the trimmed text after the
      last `: error:` when there is one, otherwise all of it. */
  function StderrMessage(s: string): string {
    if Contains(s, ErrorSeparator) then Trim(Last(Split(s, ErrorSeparator))) else s
  }

  /** The text of the error raised when standard output has nothing usable.
      Undecodable standard error reads as `exit code N`. */
  function FailureText(status: int, stderr: seq<bv8>, decode: seq<bv8> -> Option<string>): string {
    if |stderr| > 0 then "Build failed: " + StderrMessage(decode(stderr).GetOr("exit code " + IntToString(status)))
    else "Build failed with exit code " + IntToString(status)
  }

  /** The message is what follows the last separator, trimmed. */
  lemma StderrMessageAfterLast(s: string)
    requires Contains(s, ErrorSeparator)
    ensures exists before, tail ::
      (s == before + ErrorSeparator + tail && !Contains(tail, ErrorSeparator) && StderrMessage(s) == Trim(tail))
  {
    var parts := Split(s, ErrorSeparator);
    SplitCount(s, ErrorSeparator);
    var init, tail := parts[..|parts| - 1], parts[|parts| - 1];
    assert parts == init + [tail];
    JoinSplit(s, ErrorSeparator);
    JoinSnoc(init, tail, ErrorSeparator);
    SplitPartsAvoidSeparator(s, ErrorSeparator);
    assert !Contains(tail, ErrorSeparator);
    var before := Join(init, ErrorSeparator);
    assert s == before + ErrorSeparator + tail;
    assert StderrMessage(s) == Trim(tail);
  }

  /** With nothing on standard error the message ends in the exit status,
      which reads back as that status. */
  lemma FailureTextStatus(status: int, stderr: seq<bv8>, decode: seq<bv8> -> Option<string>)
    requires |stderr| == 0 && IntMin <= status <= IntMax
    ensures var t := FailureText(status, stderr, decode);
      HasPrefix(t, "Build failed with exit code ") && ParseInt(t[28..]) == Some(status)
  {
    var t := FailureText(status, stderr, decode);
    assert t[28..] == IntToString(status);
    IntToStringParses(status);
  }

  /** The classification at the end of `execute`, once the process has
      exited with `status` having written `stdout` and `stderr`; `decode` is
      UTF-8 decoding, which may fail. A non-zero status always raises an
      error: from the parsed diagnostics for a build, from standard output
      as it is for any other command, and from standard error when standard
      output is empty or undecodable. A zero status never raises: it gives
      standard output, or "" when there is none or it does not decode.
      A parse that traps traps here too. */
  method ClassifyExit(command: Command, status: int, stdout: seq<bv8>, stderr: seq<bv8>,
                      decode: seq<bv8> -> Option<string>)
    returns (r: Outcome<Result<string, SwiftError>>)
    ensures status == 0 ==> r.Finished? && r.value.Success?
    ensures status == 0 && |stdout| > 0 && decode(stdout).Some? ==> r.value.value == decode(stdout).value
    ensures status == 0 && (|stdout| == 0 || decode(stdout).None?) ==> r.value.value == ""
    ensures status != 0 && (|stdout| == 0 || decode(stdout).None?) ==>
      r == Finished(Failure(Text(FailureText(status, stderr, decode))))
    ensures status != 0 && |stdout| > 0 && decode(stdout).Some? && !command.Build? ==>
      r == Finished(Failure(Raw(decode(stdout).value)))
    ensures status != 0 && |stdout| > 0 && decode(stdout).Some? && command.Build? ==>
      var parsed := Parse(decode(stdout).value);
      (r.Trapped? <==> parsed.Trapped?) &&
      (r.Finished? && parsed.value == [] ==> r.value == Failure(Text("Unable to parse errors"))) &&
      (r.Finished? && parsed.value != [] ==>
        r.value.Failure? && r.value.error.Errors? && Snapshot(r.value.error.errors) == parsed.value)
  {
    if status != 0 {
      if |stdout| == 0 || decode(stdout).None? {
        return Finished(Failure(Text(FailureText(status, stderr, decode))));
      }
      var rawError := decode(stdout).value;
      if command.Build? {
        var parsed := ParseCompilationErrors(rawError);
        if parsed.Trapped? {
          return Trapped;
        }
        var errors := parsed.value;
        if |errors| == 0 {
          return Finished(Failure(Text("Unable to parse errors")));
        }
        return Finished(Failure(Errors(errors)));
      }
      return Finished(Failure(Raw(rawError)));
    }
    if |stdout| == 0 {
      return Finished(Success(""));
    }
    match decode(stdout)
    case None => r := Finished(Success(""));
    case Some(text) => r := Finished(Success(text));
  }

  // ---------------------------------------------------------------------
  // Questions about the manifest

  /** `filter(p).first`, as an index. */
  function FirstWhere<T>(s: seq<T>, p: T -> bool): (r: Option<nat>)
    ensures r.Some? ==> r.value < |s| && p(s[r.value])
    ensures r.Some? ==> forall j :: 0 <= j < r.value ==> !p(s[j])
    ensures r.None? ==> forall j :: 0 <= j < |s| ==> !p(s[j])
  {
    if s == [] then None
    else if p(s[0]) then Some(0)
    else match FirstWhere(s[1..], p)
      case None => None
      case Some(i) => Some(i + 1)
  }

  /** A product whose `type` has the key `executable`. */
  predicate IsExecutable(p: Product) {
    p.kind.Some? && "executable" in p.kind.value
  }

  predicate HasExecutableNamed(pkg: Package, name: string) {
    pkg.products.Some? && FirstWhere(pkg.products.value, (p: Product) => p.name == name && IsExecutable(p)).Some?
  }

  /** The product a check looks for: the service worker or the app. */
  datatype ProductRole = ServiceWorker | App

  function RoleName(role: ProductRole): string {
    match role
    case ServiceWorker => "service worker"
    case App => "app"
  }

  /** The message thrown when no executable product has the name; it
      names both the role and the target. */
  function MissingProductMessage(role: ProductRole, targetName: string): (m: string)
    ensures Contains(m, RoleName(role) + " executable product")
    ensures Contains(m, "`" + targetName + "`")
  {
    var product := RoleName(role) + " executable product";
    var name := "`" + targetName + "`";
    var front := "Unable to find " + product + " with name ";
    OccursBetween("Unable to find ", product, " with name " + name + " in Package.swift");
    OccursAtContains("Unable to find " + product + " with name " + name + " in Package.swift", product, |"Unable to find "|);
    OccursBetween(front, name, " in Package.swift");
    OccursAtContains(front + name + " in Package.swift", name, |front|);
    front + name + " in Package.swift"
  }

  /** `checkIfServiceWorkerProductPresent` and `checkIfAppProductPresent`,
      which differ only in the role their message names: success exactly
      when an executable product has that name; otherwise the message names
      the role and the target. */
  function CheckIfProductPresent(pkg: Package, role: ProductRole, targetName: string): (r: Result<(), SwiftError>)
    ensures r.Success? <==>
      pkg.products.Some? &&
      (exists i :: 0 <= i < |pkg.products.value| &&
        pkg.products.value[i].name == targetName && IsExecutable(pkg.products.value[i]))
    ensures r.Failure? ==> r.error == Text(MissingProductMessage(role, targetName))
    ensures r.Failure? ==> Contains(r.error.text, RoleName(role) + " executable product")
    ensures r.Failure? ==> Contains(r.error.text, "`" + targetName + "`")
  {
    if HasExecutableNamed(pkg, targetName) then Success(())
    else Failure(Text(MissingProductMessage(role, targetName)))
  }

  /** An executable product other than the excluded one. */
  predicate IsAppCandidate(excluding: Option<string>, p: Product) {
    excluding != Some(p.name) && IsExecutable(p)
  }

  /** The message when no app product is found; it leaves its parenthesis
      open, as the tool prints it. */
  function NoAppMessage(excluding: Option<string>): string {
    "Unable to find app executable product in Package.swift" +
    (if excluding.Some? then " (excluding service worker: " + excluding.value else "")
  }

  /** `lookupExecutableName(excluding:)`: the name of the first executable
      product that is not the excluded one. */
  function LookupExecutableName(pkg: Package, excluding: Option<string>): (r: Result<string, SwiftError>)
    ensures r.Success? <==>
      pkg.products.Some? && exists i :: 0 <= i < |pkg.products.value| && IsAppCandidate(excluding, pkg.products.value[i])
    ensures r.Success? ==> excluding != Some(r.value)
    ensures r.Success? ==> exists i ::
      (0 <= i < |pkg.products.value| &&
       IsAppCandidate(excluding, pkg.products.value[i]) && pkg.products.value[i].name == r.value &&
       forall j :: 0 <= j < i ==> !IsAppCandidate(excluding, pkg.products.value[j]))
    ensures r.Failure? ==> r.error == Text(NoAppMessage(excluding))
  {
    var found := if pkg.products.None? then None
      else FirstWhere(pkg.products.value, (p: Product) => IsAppCandidate(excluding, p));
    match found
    case Some(i) => Success(pkg.products.value[i].name)
    case None => Failure(Text(NoAppMessage(excluding)))
  }

  /** `flatMap { $0.scm ?? [] }`. */
  function AllScm(deps: seq<NewDependency>): seq<Dependency> {
    if deps == [] then [] else deps[0].scm.GetOr([]) + AllScm(deps[1..])
  }

  /** `filter { $0.local }.compactMap { $0.url }`. */
  function LocalUrls(ds: seq<Dependency>): seq<string> {
    if ds == [] then []
    else (if ds[0].local && ds[0].url.Some? then [ds[0].url.value] else []) + LocalUrls(ds[1..])
  }

  /** A url that does not start with `../` or `./`. */
  predicate IsSourceRoot(url: string) {
    !HasPrefix(url, "../") && !HasPrefix(url, "./")
  }

  /** `filter { !relative }.map { $0 + "/Sources" }`. */
  function SourceDirs(urls: seq<string>): seq<string> {
    if urls == [] then []
    else (if IsSourceRoot(urls[0]) then [urls[0] + "/Sources"] else []) + SourceDirs(urls[1..])
  }

  /** `lookupLocalDependencies` on the decoded manifest. */
  function LookupLocalDependencies(pkg: Package): seq<string> {
    match pkg.dependencies
    case None => []
    case Some(deps) => SourceDirs(LocalUrls(AllScm(deps)))
  }

  lemma {:induction false} AllScmMembers(deps: seq<NewDependency>, d: Dependency)
    ensures d in AllScm(deps) <==> exists i :: 0 <= i < |deps| && deps[i].scm.Some? && d in deps[i].scm.value
    decreases |deps|
  {
    if deps != [] {
      AllScmMembers(deps[1..], d);
      if d in AllScm(deps[1..]) {
        var i :| 0 <= i < |deps[1..]| && deps[1..][i].scm.Some? && d in deps[1..][i].scm.value;
        assert deps[i + 1] == deps[1..][i];
      }
      if exists i :: 0 <= i < |deps| && deps[i].scm.Some? && d in deps[i].scm.value {
        var i :| 0 <= i < |deps| && deps[i].scm.Some? && d in deps[i].scm.value;
        if i > 0 {
          assert deps[1..][i - 1] == deps[i];
        }
      }
    }
  }

  lemma {:induction false} LocalUrlsMembers(ds: seq<Dependency>, url: string)
    ensures url in LocalUrls(ds) <==> exists d :: d in ds && d.local && d.url == Some(url)
    decreases |ds|
  {
    if ds != [] {
      LocalUrlsMembers(ds[1..], url);
      assert ds == [ds[0]] + ds[1..];
    }
  }

  lemma {:induction false} SourceDirsMembers(urls: seq<string>, dir: string)
    ensures dir in SourceDirs(urls) <==> exists url :: url in urls && IsSourceRoot(url) && dir == url + "/Sources"
    decreases |urls|
  {
    if urls != [] {
      SourceDirsMembers(urls[1..], dir);
      assert urls == [urls[0]] + urls[1..];
    }
  }

  /** A directory is returned exactly when some `scm` entry is a local
      dependency whose url is not relative and the directory is that url
      followed by `/Sources`. */
  lemma LocalDependenciesMembers(pkg: Package, dir: string)
    ensures dir in LookupLocalDependencies(pkg) <==>
      pkg.dependencies.Some? &&
      exists d :: d in AllScm(pkg.dependencies.value) && d.local && d.url.Some? &&
        IsSourceRoot(d.url.value) && dir == d.url.value + "/Sources"
  {
    if pkg.dependencies.Some? {
      var ds := AllScm(pkg.dependencies.value);
      SourceDirsMembers(LocalUrls(ds), dir);
      if dir in LookupLocalDependencies(pkg) {
        var url :| url in LocalUrls(ds) && IsSourceRoot(url) && dir == url + "/Sources";
        LocalUrlsMembers(ds, url);
      } else {
        forall d | d in ds && d.local && d.url.Some? && IsSourceRoot(d.url.value)
          ensures dir != d.url.value + "/Sources"
        {
          LocalUrlsMembers(ds, d.url.value);
        }
      }
    }
  }
}
