/** The service change detector: which services under `services/` a push or
    merge request touched.  Git, the environment and the file system are
    parameters: the environment is a map, the services root is the set of
    entries `iterdir()` would list, `git rev-parse` is the set of refs that
    resolve, and `git diff --name-only <ref>` is a function from the ref to
    its standard output (`None` when the command fails or times out). */
module DetectServices {
  import opened Wrappers
  import opened Text

  const ServicesDir: string := "services"
  const TemplateDir: string := "_templates"
  const SkipPatterns: seq<string> := [".gitignore", "README"]
  /** A before-SHA of forty zeros means "no previous commit". */
  const NullSha: string := "0000000000000000000000000000000000000000"
  const FallbackRange: string := "HEAD~1..HEAD"

  /** The services root: whether it exists and, for each entry in it,
      whether that entry is a directory. */
  datatype ServicesRoot = ServicesRoot(present: bool, entries: map<string, bool>)

  /** The subdirectories `iterdir()` lists under the services root. */
  function DirNames(root: ServicesRoot): set<string> {
    if root.present then set n | n in root.entries && root.entries[n] else {}
  }

  /** The names `n` for which `services/n` is a directory: the listed
      subdirectories and, when the root exists, `""` and `.`, which pathlib
      joins to the root itself, and `..`, the root's parent. */
  function PathDirs(root: ServicesRoot): (r: set<string>)
    ensures root.present <==> "" in r
    ensures DirNames(root) <= r
  {
    if root.present then DirNames(root) + {"", ".", ".."} else {}
  }

  /** `any(pattern in file_path for pattern in SKIP_PATTERNS)`. */
  predicate Skipped(path: string) {
    exists p :: p in SkipPatterns && Contains(path, p)
  }

  /** The service one changed path is attributed to, if any: always a
      single path component naming a directory other than the template
      directory, and never for a path carrying a skip pattern. */
  function ServiceOf(path: string, dirs: set<string>): (r: Option<string>)
    ensures r.Some? ==> r.value in dirs && r.value != TemplateDir && '/' !in r.value
    ensures r.Some? ==> StartsWith(path, ServicesDir + "/") && !Skipped(path)
  {
    if !StartsWith(path, ServicesDir + "/") then None
    else if Skipped(path) then None
    else
      var parts := Split(path, '/');
      if |parts| >= 2 && parts[1] in dirs && parts[1] != TemplateDir then Some(parts[1]) else None
  }

  /** Every service some path in `files` is attributed to. */
  function Attributed(files: seq<string>, dirs: set<string>): set<string> {
    set i | 0 <= i < |files| && ServiceOf(files[i], dirs).Some? :: ServiceOf(files[i], dirs).value
  }

  lemma AttributedSnoc(files: seq<string>, path: string, dirs: set<string>)
    ensures Attributed(files + [path], dirs)
         == Attributed(files, dirs) + (if ServiceOf(path, dirs).Some? then {ServiceOf(path, dirs).value} else {})
  {
    var fs := files + [path];
    forall name | name in Attributed(files, dirs) ensures name in Attributed(fs, dirs) {
      var i :| 0 <= i < |files| && ServiceOf(files[i], dirs).Some? && ServiceOf(files[i], dirs).value == name;
      assert fs[i] == files[i];
    }
    if ServiceOf(path, dirs).Some? {
      assert fs[|files|] == path;
    }
    forall name | name in Attributed(fs, dirs)
      ensures name in Attributed(files, dirs) || ServiceOf(path, dirs) == Some(name)
    {
      var i :| 0 <= i < |fs| && ServiceOf(fs[i], dirs).Some? && ServiceOf(fs[i], dirs).value == name;
      if i < |files| {
        assert fs[i] == files[i];
      }
    }
  }

  /** `extract_services_from_files`: the services the changed paths touch,
      sorted and free of duplicates. */
  method ExtractServicesFromFiles(files: seq<string>, dirs: set<string>) returns (r: seq<string>)
    ensures StrictlySorted(r)
    ensures Elems(r) == Attributed(files, dirs)
  {
    var services: set<string> := {};
    for i := 0 to |files|
      invariant services == Attributed(files[..i], dirs)
    {
      var filePath := files[i];
      AttributedSnoc(files[..i], filePath, dirs);
      assert files[..i + 1] == files[..i] + [filePath];
      if !StartsWith(filePath, ServicesDir + "/") {
        continue;
      }
      if Skipped(filePath) {
        continue;
      }
      var parts := Split(filePath, '/');
      if |parts| >= 2 {
        var serviceName := parts[1];
        if serviceName in dirs && serviceName != TemplateDir {
          services := services + {serviceName};
        }
      }
    }
    assert files[..|files|] == files;
    r := SortSet(services);
  }

  /** Two runs of the extraction on the same input give the same list. */
  lemma ExtractIsDeterministic(files: seq<string>, dirs: set<string>, r1: seq<string>, r2: seq<string>)
    requires StrictlySorted(r1) && Elems(r1) == Attributed(files, dirs)
    requires StrictlySorted(r2) && Elems(r2) == Attributed(files, dirs)
    ensures r1 == r2
  {
    SortedUnique(r1, r2);
  }

  /** Depth below the service directory is irrelevant: any path inside
      `services/<name>/` is attributed to `<name>`. */
  lemma ServiceOfAnyDepth(name: string, rest: string, dirs: set<string>)
    requires '/' !in name && name in dirs && name != TemplateDir
    requires !Skipped(ServicesDir + "/" + name + "/" + rest)
    ensures ServiceOf(ServicesDir + "/" + name + "/" + rest, dirs) == Some(name)
  {
    var path := ServicesDir + "/" + name + "/" + rest;
    assert path == ServicesDir + ['/'] + (name + ['/'] + rest);
    SplitAfter(ServicesDir, '/', name + ['/'] + rest);
    SplitAfter(name, '/', rest);
    assert path[..|ServicesDir + "/"|] == ServicesDir + "/";
  }

  /** A path is attributed to a service exactly when it lies under
      `services/`, carries no skip pattern, and its second component is an
      existing service directory other than the template directory. */
  lemma ServiceOfIff(path: string, dirs: set<string>, name: string)
    ensures ServiceOf(path, dirs) == Some(name) <==>
      && StartsWith(path, "services/")
      && !Contains(path, ".gitignore") && !Contains(path, "README")
      && |Split(path, '/')| >= 2 && Split(path, '/')[1] == name
      && name in dirs && name != "_templates"
  {
    assert Skipped(path) <==> Contains(path, ".gitignore") || Contains(path, "README") by {
      assert SkipPatterns[0] == ".gitignore" && SkipPatterns[1] == "README";
    }
  }

  /** A changed path with an empty, `.` or `..` second component, such as
      `services//x`, names that component as a service whenever the services
      root exists, since `is_dir()` holds for the root and its parent. */
  lemma DotComponentAttributed(root: ServicesRoot, name: string, rest: string)
    requires root.present && (name == "" || name == "." || name == "..")
    requires !Skipped(ServicesDir + "/" + name + "/" + rest)
    ensures ServiceOf(ServicesDir + "/" + name + "/" + rest, PathDirs(root)) == Some(name)
  {
    ServiceOfAnyDepth(name, rest, PathDirs(root));
  }

  /** Paths outside `services/` never contribute. */
  lemma OutsidePathsIgnored(files: seq<string>, extra: seq<string>, dirs: set<string>)
    requires forall k :: 0 <= k < |extra| ==> !StartsWith(extra[k], ServicesDir + "/")
    ensures Attributed(files + extra, dirs) == Attributed(files, dirs)
  {
    var fs := files + extra;
    forall name | name in Attributed(fs, dirs) ensures name in Attributed(files, dirs) {
      var i :| 0 <= i < |fs| && ServiceOf(fs[i], dirs).Some? && ServiceOf(fs[i], dirs).value == name;
      if i < |files| {
        assert fs[i] == files[i];
      }
    }
    forall name | name in Attributed(files, dirs) ensures name in Attributed(fs, dirs) {
      var i :| 0 <= i < |files| && ServiceOf(files[i], dirs).Some? && ServiceOf(files[i], dirs).value == name;
      assert fs[i] == files[i];
    }
  }

  /** A path whose second component is not a service directory is not attributed. */
  lemma NotADirectory(path: string, dirs: set<string>)
    requires |Split(path, '/')| < 2 || Split(path, '/')[1] !in dirs
    ensures ServiceOf(path, dirs) == None
  {
  }

  /** A plain file directly under `services/` names no service. */
  lemma FileUnderRootIgnored(file: string, dirs: set<string>)
    requires '/' !in file && file !in dirs
    ensures ServiceOf(ServicesDir + "/" + file, dirs) == None
  {
    var path := ServicesDir + "/" + file;
    assert path == ServicesDir + ['/'] + file;
    SplitAfter(ServicesDir, '/', file);
    SplitNone(file, '/');
    NotADirectory(path, dirs);
  }

  /** Of a path inside a service directory and a plain file beside the
      service directories, only the former counts. */
  lemma NonDirectoryExcluded(name: string, rest: string, file: string, dirs: set<string>)
    requires '/' !in name && name in dirs && name != TemplateDir
    requires !Skipped(ServicesDir + "/" + name + "/" + rest)
    requires '/' !in file && file !in dirs
    ensures Attributed([ServicesDir + "/" + name + "/" + rest, ServicesDir + "/" + file], dirs) == {name}
  {
    var f0, f1 := ServicesDir + "/" + name + "/" + rest, ServicesDir + "/" + file;
    ServiceOfAnyDepth(name, rest, dirs);
    FileUnderRootIgnored(file, dirs);
    AttributedSnoc([f0], f1, dirs);
    AttributedSnoc([], f0, dirs);
    assert [f0] == [] + [f0];
    assert [f0, f1] == [f0] + [f1];
  }

  /** The template directory is never a service, whether or not it exists. */
  lemma TemplateNeverAttributed(files: seq<string>, dirs: set<string>)
    ensures TemplateDir !in Attributed(files, dirs)
  {
  }

  /** `list_all_services`: every directory under the services root except
      the template directory, sorted; nothing when the root is missing. */
  method ListAllServices(root: ServicesRoot) returns (r: seq<string>)
    ensures StrictlySorted(r)
    ensures Elems(r) == DirNames(root) - {TemplateDir}
    ensures !root.present ==> r == []
  {
    var services: seq<string> := [];
    if !root.present {
      return services;
    }
    var rest := root.entries.Keys;
    while rest != {}
      invariant rest <= root.entries.Keys
      invariant Elems(services) == set n | n in root.entries.Keys - rest && root.entries[n] && n != TemplateDir
      decreases rest
    {
      var item :| item in rest;
      ghost var done := root.entries.Keys - rest;
      assert root.entries.Keys - (rest - {item}) == done + {item};
      if root.entries[item] && item != TemplateDir {
        assert Elems(services + [item]) == Elems(services) + {item};
        services := services + [item];
      }
      rest := rest - {item};
    }
    r := SortSet(Elems(services));
  }

  /** The outcome of the range decision: every service, or a git range and
      whether the weaker fallback was taken with a warning. */
  datatype Comparison = AllServices | Range(ref: string, warned: bool)

  /** `os.getenv(key, default)`. */
  function Getenv(env: map<string, string>, key: string, default: string): string {
    if key in env then env[key] else default
  }

  /** `if os.getenv(key):` -- set and non-empty. */
  predicate IsSet(env: map<string, string>, key: string) {
    key in env && env[key] != ""
  }

  predicate OnTrunk(env: map<string, string>) {
    Getenv(env, "CI_COMMIT_BRANCH", "") in {"main", "master"}
  }

  /** The range decision of `detect_changed_services`, first match wins. */
  function ChooseComparison(env: map<string, string>, resolvable: set<string>): (c: Comparison)
    ensures c.AllServices? <==> IsSet(env, "CI_COMMIT_TAG") || IsSet(env, "DEPLOY_ALL")
    ensures c.Range? ==> EndsWith(c.ref, "..HEAD")
    ensures c.Range? && c.warned ==> c.ref == FallbackRange && !OnTrunk(env)
  {
    if IsSet(env, "CI_COMMIT_TAG") then AllServices
    else if IsSet(env, "DEPLOY_ALL") then AllServices
    else
      var branch := Getenv(env, "CI_COMMIT_BRANCH", "");
      var before := Getenv(env, "CI_COMMIT_BEFORE_SHA", "");
      var target := Getenv(env, "CI_MERGE_REQUEST_TARGET_BRANCH_NAME", "main");
      FallbackEndsWithHead();
      if branch == "main" || branch == "master" then
        if before != "" && before != NullSha then
          EndsWithConcat(before, "..HEAD");
          Range(before + "..HEAD", false)
        else Range(FallbackRange, false)
      else if "origin/" + target in resolvable then
        var base := "origin/" + target;
        assert base + "...HEAD" == (base + ".") + "..HEAD";
        EndsWithConcat(base + ".", "..HEAD");
        Range(base + "...HEAD", false)
      else Range(FallbackRange, true)
  }

  lemma FallbackEndsWithHead()
    ensures EndsWith(FallbackRange, "..HEAD")
  {
    assert FallbackRange == "HEAD~1" + "..HEAD";
    EndsWithConcat("HEAD~1", "..HEAD");
  }

  /** On a trunk branch with a real before-SHA the range is two-dot from it. */
  lemma TrunkWithBeforeSha(env: map<string, string>, resolvable: set<string>)
    requires !IsSet(env, "CI_COMMIT_TAG") && !IsSet(env, "DEPLOY_ALL") && OnTrunk(env)
    requires IsSet(env, "CI_COMMIT_BEFORE_SHA") && env["CI_COMMIT_BEFORE_SHA"] != NullSha
    ensures ChooseComparison(env, resolvable) == Range(env["CI_COMMIT_BEFORE_SHA"] + "..HEAD", false)
  {
  }

  /** On a trunk branch with no usable before-SHA the range is the last commit. */
  lemma TrunkWithoutBeforeSha(env: map<string, string>, resolvable: set<string>)
    requires !IsSet(env, "CI_COMMIT_TAG") && !IsSet(env, "DEPLOY_ALL") && OnTrunk(env)
    requires !IsSet(env, "CI_COMMIT_BEFORE_SHA") || env["CI_COMMIT_BEFORE_SHA"] == NullSha
    ensures ChooseComparison(env, resolvable) == Range(FallbackRange, false)
  {
  }

  /** Off trunk the range is three-dot against `origin/<target>` when that
      ref resolves, and otherwise the warned fallback; the target defaults to `main`. */
  lemma FeatureBranchRange(env: map<string, string>, resolvable: set<string>)
    requires !IsSet(env, "CI_COMMIT_TAG") && !IsSet(env, "DEPLOY_ALL") && !OnTrunk(env)
    ensures var target := Getenv(env, "CI_MERGE_REQUEST_TARGET_BRANCH_NAME", "main");
      ChooseComparison(env, resolvable)
        == if "origin/" + target in resolvable then Range("origin/" + target + "...HEAD", false)
           else Range(FallbackRange, true)
  {
  }

  /** `get_changed_files`: the lines of the trimmed `git diff` output, none for empty output. */
  function ChangedFiles(stdout: string): (files: seq<string>)
    ensures Strip(stdout) == "" <==> files == []
    ensures files != [] ==> Join(files, '\n') == Strip(stdout)
    ensures forall k :: 0 <= k < |files| ==> '\n' !in files[k]
  {
    var output := Strip(stdout);
    if output == "" then []
    else
      JoinSplit(output, '\n');
      Split(output, '\n')
  }

  /** What `detect_changed_services` returns: `None` stands for the
      exception a failing `git diff` raises. */
  ghost function Detected(env: map<string, string>, root: ServicesRoot, resolvable: set<string>,
                          gitDiff: string -> Option<string>): Option<seq<string>>
  {
    match ChooseComparison(env, resolvable)
    case AllServices => Some(SortedOf(DirNames(root) - {TemplateDir}))
    case Range(ref, _) =>
      match gitDiff(ref)
      case None => None
      case Some(out) => Some(SortedOf(Attributed(ChangedFiles(out), PathDirs(root))))
  }

  /** `detect_changed_services`. */
  method DetectChangedServices(env: map<string, string>, root: ServicesRoot, resolvable: set<string>,
                               gitDiff: string -> Option<string>) returns (r: Option<seq<string>>)
    ensures r == Detected(env, root, resolvable, gitDiff)
  {
    var comparison := ChooseComparison(env, resolvable);
    if comparison.AllServices? {
      var all := ListAllServices(root);
      IsSortedOf(all, DirNames(root) - {TemplateDir});
      return Some(all);
    }
    var diff := gitDiff(comparison.ref);
    if diff.None? {
      return None;
    }
    var changedFiles := ChangedFiles(diff.value);
    var services := ExtractServicesFromFiles(changedFiles, PathDirs(root));
    IsSortedOf(services, Attributed(changedFiles, PathDirs(root)));
    r := Some(services);
  }

  /** Where `run` sends the list: standard output, or the `output_file`
      argument, whose `write_text` either succeeds or raises. */
  datatype Sink = Stdout | OutputFile(writable: bool)

  /** `run`: the exit code and the text written (to the output file or to
      standard output -- `print` and `write_text(content + "\n")` write the
      same text).  A failing detection and a failing write both end in the
      `except` branch and exit 1. */
  method Run(env: map<string, string>, root: ServicesRoot, resolvable: set<string>,
             gitDiff: string -> Option<string>, sink: Sink) returns (exitCode: int, emitted: Option<string>)
    ensures exitCode == 0 || exitCode == 1
    ensures exitCode == 1 <==>
      || Detected(env, root, resolvable, gitDiff).None?
      || (Detected(env, root, resolvable, gitDiff) != Some([]) && sink == OutputFile(false))
    ensures Detected(env, root, resolvable, gitDiff) == Some([]) ==> exitCode == 0 && emitted.None?
    ensures emitted.Some? <==> exitCode == 0 && Detected(env, root, resolvable, gitDiff) != Some([])
    ensures emitted.Some? ==> emitted.value == Join(Detected(env, root, resolvable, gitDiff).value, '\n') + "\n"
  {
    var services := DetectChangedServices(env, root, resolvable, gitDiff);
    if services.None? {
      return 1, None;
    }
    if services.value == [] {
      return 0, None;
    }
    var outputContent := Join(services.value, '\n');
    if sink == OutputFile(false) {
      return 1, None;
    }
    return 0, Some(outputContent + "\n");
  }
}
