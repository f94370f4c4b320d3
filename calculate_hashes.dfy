/**
 * The hash script: for every filter of the filter file it emits
 * `hash_<name>`, either reusing the hash cached in `.hashes/<name>.hash` or
 * recomputing it over the checked-out tree and caching it.
 *
 * It carries its own copy of the filter code. `is_match_for_file`,
 * `calculate_hash` and `load_filter_file` behave as in the job filter script;
 * `is_match` differs: it leaves its loop at the first matching file.
 */
module CalculateHashes {

  import opened Wrappers
  import opened Text
  import opened FilterModel
  import opened FilterFile

  /** File `k` is the first changed file that matches a path pattern. */
  predicate FirstMatchAt(m: Matcher, f: Filter, files: seq<Path>, k: int) {
    0 <= k < |files| && MatchesAny(m, f.files, files[k])
    && forall j :: 0 <= j < k ==> !MatchesAny(m, f.files, files[j])
  }

  /**
   * What this copy of `is_match` decides: some changed file matches a path
   * pattern, and not every file BEFORE the first such file matches every skip
   * pattern. The first matching file and the files after it never reach the
   * skip test.
   */
  predicate Triggers(m: Matcher, f: Filter, files: seq<Path>) {
    exists k :: 0 <= k < |files| && FirstMatchAt(m, f, files, k)
                && !(SkipActive(f) && forall j :: 0 <= j < k ==> Skippable(m, f, files[j]))
  }

  /** `Filter.is_match_for_file`: does some path pattern match the file? Skip-if plays no part. */
  method IsMatchForFile(m: Matcher, f: Filter, file: Path) returns (r: bool)
    ensures r == MatchesAny(m, f.files, file)
  {
    var k := 0;
    while k < |f.files|
      invariant 0 <= k <= |f.files|
      invariant forall j :: 0 <= j < k ==> !m(f.files[j], file)
    {
      if m(f.files[k], file) {
        return true;
      }
      k := k + 1;
    }
    return false;
  }

  /** `Filter.is_match`, with the `break` after the first matching file. */
  method IsMatch(m: Matcher, f: Filter, files: seq<Path>) returns (r: bool)
    ensures r == Triggers(m, f, files)
    ensures files == [] ==> !r
    ensures SkipActive(f) && files != [] && MatchesAny(m, f.files, files[0]) ==> !r
  {
    var matched := false;
    var allSkip := SkipActive(f);
    var i := 0;
    while i < |files|
      invariant 0 <= i <= |files|
      invariant !matched
      invariant forall j :: 0 <= j < i ==> !MatchesAny(m, f.files, files[j])
      invariant allSkip == (SkipActive(f) && forall j :: 0 <= j < i ==> Skippable(m, f, files[j]))
    {
      var file := files[i];
      if !matched {
        var hit := IsMatchForFile(m, f, file);
        if hit {
          matched := true;
          assert FirstMatchAt(m, f, files, i);
          break;
        }
      }
      if allSkip {
        var skips := f.skipIf.value.allFileMatchAny.value;
        var k := 0;
        while k < |skips|
          invariant 0 <= k <= |skips|
          invariant allSkip
          invariant forall j :: 0 <= j < k ==> m(skips[j], file)
        {
          if !m(skips[k], file) {
            allSkip := false;
            break;
          }
          k := k + 1;
        }
      }
      i := i + 1;
    }
    r := matched && !allSkip;
    if matched {
      forall k | FirstMatchAt(m, f, files, k) ensures k == i {
      }
    }
  }

  /**
   * `Filter.calculate_hash`, up to the SHA-1 itself: the pieces fed to the
   * digest, a file's name before its contents, each file at most once.
   */
  method CalculateHash(m: Matcher, f: Filter, files: seq<Path>, contents: Path -> Bytes)
    returns (fed: seq<Piece>)
    ensures fed == DigestInput(Selected(m, f.files, files), contents)
  {
    fed := [];
    var i := 0;
    assert files[..0] == [];
    while i < |files|
      invariant 0 <= i <= |files|
      invariant fed == DigestInput(Selected(m, f.files, files[..i]), contents)
    {
      var file := files[i];
      DigestInputStep(m, f.files, files, i, contents);
      ghost var before, fedFile := fed, false;
      var k := 0;
      while k < |f.files|
        invariant 0 <= k <= |f.files|
        invariant !fedFile && fed == before
        invariant forall j :: 0 <= j < k ==> !m(f.files[j], file)
      {
        if m(f.files[k], file) {
          fed := fed + [FileName(file)];
          fed := fed + [FileContents(contents(file))];
          fedFile := true;
          break;
        }
        k := k + 1;
      }
      assert fedFile == MatchesAny(m, f.files, file);
      assert fed == before + (if fedFile then [FileName(file), FileContents(contents(file))] else []);
      i := i + 1;
    }
    assert files[..i] == files;
  }

  /** `load_filter_file`, after the YAML has been parsed. */
  method LoadFilterFile(doc: Yaml) returns (r: Result<seq<Filter>, LoadError>)
    ensures r == Load(doc)
  {
    if doc.YNull? {
      return Err(EmptyFile);
    }
    if !doc.YList? {
      return Err(NotAList);
    }
    var filters: seq<Filter> := [];
    var i := 0;
    while i < |doc.items|
      invariant 0 <= i <= |doc.items|
      invariant |filters| == i
      invariant forall j :: 0 <= j < i ==> ParseEntry(doc.items[j]) == Ok(filters[j])
    {
      var entry := ParseEntry(doc.items[i]);
      if entry.Err? {
        assert FirstRejected(doc.items, i);
        return Err(entry.error);
      }
      filters := filters + [entry.value];
      i := i + 1;
    }
    assert Load(doc).Ok?;
    assert Load(doc).value == filters;
    return Ok(filters);
  }

  // ---------------------------------------------------------------------
  // The main loop: cached or recomputed hash per filter
  // ---------------------------------------------------------------------

  /**
   * The checkout the hashes are computed over: the regex engine, the file
   * list in walk order, each file's bytes and the SHA-1 hex digest of what
   * is fed to it.
   */
  datatype Workspace = Workspace(
    m: Matcher, tree: seq<Path>, contents: Path -> Bytes, sha1: seq<Piece> -> string)

  /** One `name=value` line written to both GITHUB_OUTPUT and GITHUB_ENV. */
  datatype Output = Output(name: string, value: string)

  /** How the run ended: all filters done, or exit(1) on an unset flag variable. */
  datatype Outcome = Completed | FlagUnset(variable: string)

  /** The lines written so far, the `.hashes` files keyed by filter name, and how the run stands. */
  datatype RunState = RunState(emitted: seq<Output>, hashFiles: map<string, string>, outcome: Outcome)

  /** The environment variable that says whether a filter's files changed. */
  function FlagVariable(f: Filter): string {
    "FILTER_" + Upper(f.name)
  }

  /** The output and environment key of a filter's hash. */
  function HashKey(f: Filter): string {
    "hash_" + f.name
  }

  /** The flag says "changed": `value.lower() == "true"`. */
  predicate SaysChanged(value: string) {
    Lower(value) == "true"
  }

  /** The hash of a filter computed afresh over the workspace. */
  function FilterHash(ws: Workspace, f: Filter): string {
    ws.sha1(DigestInput(Selected(ws.m, f.files, ws.tree), ws.contents))
  }

  /** One iteration of the main loop. */
  function Step(ws: Workspace, s: RunState, f: Filter, env: map<string, string>): RunState {
    var flag := FlagVariable(f);
    if flag !in env then s.(outcome := FlagUnset(flag))
    else if !SaysChanged(env[flag]) && f.name in s.hashFiles then
      s.(emitted := s.emitted + [Output(HashKey(f), Strip(s.hashFiles[f.name]))])
    else
      var h := FilterHash(ws, f);
      s.(emitted := s.emitted + [Output(HashKey(f), h)], hashFiles := s.hashFiles[f.name := h])
  }

  /** The remaining iterations from state `s`; an exit ends the run. */
  function RunFrom(ws: Workspace, s: RunState, filters: seq<Filter>, env: map<string, string>): RunState
    decreases |filters|
  {
    if filters == [] || s.outcome != Completed then s
    else RunFrom(ws, Step(ws, s, filters[0], env), filters[1..], env)
  }

  /** The whole main loop, from no output and the `.hashes` directory as found. */
  function Run(ws: Workspace, filters: seq<Filter>, env: map<string, string>, hashFiles: map<string, string>): RunState {
    RunFrom(ws, RunState([], hashFiles, Completed), filters, env)
  }

  /**
   * The `__main__` loop after the filters are loaded. Output and environment
   * lines are returned as `emitted`; `written` is the `.hashes` directory
   * afterwards.
   */
  method ResolveHashes(ws: Workspace, filters: seq<Filter>, env: map<string, string>, hashFiles: map<string, string>)
    returns (emitted: seq<Output>, written: map<string, string>, outcome: Outcome)
    ensures RunState(emitted, written, outcome) == Run(ws, filters, env, hashFiles)
  {
    emitted, written, outcome := [], hashFiles, Completed;
    var i := 0;
    while i < |filters|
      invariant 0 <= i <= |filters|
      invariant Run(ws, filters, env, hashFiles) == RunFrom(ws, RunState(emitted, written, Completed), filters[i..], env)
    {
      var f := filters[i];
      assert filters[i..][1..] == filters[i + 1..];
      var flag := FlagVariable(f);
      if flag !in env {
        outcome := FlagUnset(flag);
        return;
      }
      var value := env[flag];
      if Lower(value) != "true" && f.name in written {
        var cached := Strip(written[f.name]);
        emitted := emitted + [Output(HashKey(f), cached)];
      } else {
        var fed := CalculateHash(ws.m, f, ws.tree, ws.contents);
        var h := ws.sha1(fed);
        emitted := emitted + [Output(HashKey(f), h)];
        written := written[f.name := h];
      }
      i := i + 1;
    }
  }

  /** One iteration: a set flag appends one `hash_<name>` line, an unset one ends the run. */
  lemma StepFacts(ws: Workspace, s: RunState, f: Filter, env: map<string, string>)
    requires s.outcome == Completed
    ensures var t := Step(ws, s, f, env);
      && (t.outcome == Completed <==> FlagVariable(f) in env)
      && (t.outcome == Completed ==>
            |t.emitted| == |s.emitted| + 1 && t.emitted[..|s.emitted|] == s.emitted
            && t.emitted[|s.emitted|].name == HashKey(f))
      && (t.outcome != Completed ==> t.emitted == s.emitted && t.outcome == FlagUnset(FlagVariable(f)))
  {
  }

  /**
   * The loop keeps the lines already emitted and adds at most one per
   * filter; it completes after adding one line per filter, and otherwise
   * stops at a filter whose flag variable is unset.
   */
  lemma {:induction false} RunFromLength(ws: Workspace, s: RunState, filters: seq<Filter>, env: map<string, string>)
    requires s.outcome == Completed
    ensures var r := RunFrom(ws, s, filters, env);
      && |s.emitted| <= |r.emitted| <= |s.emitted| + |filters|
      && r.emitted[..|s.emitted|] == s.emitted
      && (r.outcome == Completed ==> |r.emitted| == |s.emitted| + |filters|)
      && (r.outcome.FlagUnset? ==>
            |r.emitted| < |s.emitted| + |filters|
            && r.outcome.variable == FlagVariable(filters[|r.emitted| - |s.emitted|])
            && r.outcome.variable !in env)
    decreases |filters|
  {
    if filters != [] {
      var s' := Step(ws, s, filters[0], env);
      StepFacts(ws, s, filters[0], env);
      var r := RunFrom(ws, s', filters[1..], env);
      assert RunFrom(ws, s, filters, env) == r;
      if s'.outcome == Completed {
        RunFromLength(ws, s', filters[1..], env);
        assert r.emitted[..|s.emitted|] == r.emitted[..|s'.emitted|][..|s.emitted|];
        if r.outcome.FlagUnset? {
          assert filters[|r.emitted| - |s.emitted|] == filters[1..][|r.emitted| - |s'.emitted|];
        }
      } else {
        assert r == s';
      }
    }
  }

  /** Every line the loop adds is keyed `hash_<name>` of its filter, in filter order. */
  lemma {:induction false} RunFromNames(ws: Workspace, s: RunState, filters: seq<Filter>, env: map<string, string>)
    requires s.outcome == Completed
    ensures var r := RunFrom(ws, s, filters, env);
      |s.emitted| <= |r.emitted|
      && var added := r.emitted[|s.emitted|..];
         forall j :: 0 <= j < |added| && j < |filters| ==> added[j].name == HashKey(filters[j])
    decreases |filters|
  {
    RunFromLength(ws, s, filters, env);
    if filters != [] {
      var s' := Step(ws, s, filters[0], env);
      StepFacts(ws, s, filters[0], env);
      if s'.outcome == Completed {
        RunFromNames(ws, s', filters[1..], env);
        RunFromLength(ws, s', filters[1..], env);
        var r := RunFrom(ws, s', filters[1..], env);
        var added := r.emitted[|s.emitted|..];
        var rest := r.emitted[|s'.emitted|..];
        assert added[0] == r.emitted[..|s'.emitted|][|s.emitted|] == s'.emitted[|s.emitted|];
        assert added[1..] == rest;
        forall j | 0 <= j < |added| && j < |filters|
          ensures added[j].name == HashKey(filters[j])
        {
          if j > 0 {
            assert added[j] == rest[j - 1] && filters[j] == filters[1..][j - 1];
          }
        }
      }
    }
  }

  /** Every filter that added a line had its flag variable set. */
  lemma {:induction false} RunFromFlags(ws: Workspace, s: RunState, filters: seq<Filter>, env: map<string, string>)
    requires s.outcome == Completed
    ensures var r := RunFrom(ws, s, filters, env);
      forall j :: 0 <= j < |r.emitted| - |s.emitted| && j < |filters| ==> FlagVariable(filters[j]) in env
    decreases |filters|
  {
    if filters != [] {
      var s' := Step(ws, s, filters[0], env);
      StepFacts(ws, s, filters[0], env);
      if s'.outcome == Completed {
        RunFromFlags(ws, s', filters[1..], env);
        var r := RunFrom(ws, s', filters[1..], env);
        forall j | 0 <= j < |r.emitted| - |s.emitted| && j < |filters|
          ensures FlagVariable(filters[j]) in env
        {
          if j > 0 {
            assert filters[j] == filters[1..][j - 1];
          }
        }
      }
    }
  }

  /**
   * The main loop emits one `hash_<name>` line per filter it reaches, in
   * filter order, and completes exactly when every filter's
   * `FILTER_<NAME>` variable is set; otherwise it stops at the first
   * filter whose variable is unset and names that variable.
   */
  lemma RunOutputs(ws: Workspace, filters: seq<Filter>, env: map<string, string>, hashFiles: map<string, string>)
    ensures var r := Run(ws, filters, env, hashFiles);
      && |r.emitted| <= |filters|
      && (forall i :: 0 <= i < |r.emitted| ==> r.emitted[i].name == HashKey(filters[i]))
      && (r.outcome == Completed ==> |r.emitted| == |filters|)
      && (r.outcome == Completed <==> forall j :: 0 <= j < |filters| ==> FlagVariable(filters[j]) in env)
      && (r.outcome.FlagUnset? ==>
            |r.emitted| < |filters|
            && r.outcome.variable == FlagVariable(filters[|r.emitted|])
            && r.outcome.variable !in env
            && forall j :: 0 <= j < |r.emitted| ==> FlagVariable(filters[j]) in env)
  {
    var s := RunState([], hashFiles, Completed);
    RunFromLength(ws, s, filters, env);
    RunFromNames(ws, s, filters, env);
    RunFromFlags(ws, s, filters, env);
    var r := RunFrom(ws, s, filters, env);
    assert r.emitted[|s.emitted|..] == r.emitted;
  }

  /** The names of the filters are pairwise distinct. */
  predicate DistinctNames(filters: seq<Filter>) {
    forall i, j :: 0 <= i < j < |filters| ==> filters[i].name != filters[j].name
  }

  /**
   * Whether a filter reuses its cached hash: its flag is set to something
   * other than "true" and its hash file exists.
   */
  predicate ReusesCache(f: Filter, env: map<string, string>, hashFiles: map<string, string>) {
    FlagVariable(f) in env && !SaysChanged(env[FlagVariable(f)]) && f.name in hashFiles
  }

  /** The value a reached filter emits, judged against the `.hashes` directory as found. */
  function Expected(ws: Workspace, f: Filter, env: map<string, string>, hashFiles: map<string, string>): string {
    if ReusesCache(f, env, hashFiles) then Strip(hashFiles[f.name]) else FilterHash(ws, f)
  }

  /** `s` holds the same hash files as `hashFiles` for every name in `filters`. */
  predicate SameFilesFor(filters: seq<Filter>, s: RunState, hashFiles: map<string, string>) {
    forall j :: 0 <= j < |filters| ==>
      (filters[j].name in s.hashFiles <==> filters[j].name in hashFiles)
      && (filters[j].name in hashFiles ==> s.hashFiles[filters[j].name] == hashFiles[filters[j].name])
  }

  /**
   * After the first filter's iteration, the remaining filters still have
   * distinct names and still find the hash files as they were at the start.
   */
  lemma StepKeepsOthers(ws: Workspace, s: RunState, filters: seq<Filter>, env: map<string, string>, hashFiles: map<string, string>)
    requires s.outcome == Completed && filters != []
    requires DistinctNames(filters)
    requires SameFilesFor(filters, s, hashFiles)
    ensures DistinctNames(filters[1..])
    ensures SameFilesFor(filters[1..], Step(ws, s, filters[0], env), hashFiles)
  {
    forall j | 0 <= j < |filters[1..]|
      ensures filters[1..][j].name != filters[0].name
    {
      assert filters[1..][j] == filters[j + 1];
    }
    forall i, j | 0 <= i < j < |filters[1..]|
      ensures filters[1..][i].name != filters[1..][j].name
    {
      assert filters[1..][i] == filters[i + 1] && filters[1..][j] == filters[j + 1];
    }
  }

  lemma {:induction false} RunFromValues(
    ws: Workspace, s: RunState, filters: seq<Filter>, env: map<string, string>, hashFiles: map<string, string>)
    requires s.outcome == Completed
    requires DistinctNames(filters)
    requires SameFilesFor(filters, s, hashFiles)
    ensures var r := RunFrom(ws, s, filters, env);
      |s.emitted| <= |r.emitted|
      && var added := r.emitted[|s.emitted|..];
         forall j :: 0 <= j < |added| && j < |filters| ==> added[j].value == Expected(ws, filters[j], env, hashFiles)
    decreases |filters|
  {
    RunFromLength(ws, s, filters, env);
    if filters != [] {
      var f := filters[0];
      var s' := Step(ws, s, f, env);
      StepFacts(ws, s, f, env);
      if s'.outcome == Completed {
        assert s'.emitted[|s.emitted|].value == Expected(ws, f, env, hashFiles);
        StepKeepsOthers(ws, s, filters, env, hashFiles);
        RunFromValues(ws, s', filters[1..], env, hashFiles);
        RunFromLength(ws, s', filters[1..], env);
        var r := RunFrom(ws, s', filters[1..], env);
        var added := r.emitted[|s.emitted|..];
        var rest := r.emitted[|s'.emitted|..];
        assert added[0] == r.emitted[..|s'.emitted|][|s.emitted|] == s'.emitted[|s.emitted|];
        assert added[1..] == rest;
        forall j | 0 <= j < |added| && j < |filters|
          ensures added[j].value == Expected(ws, filters[j], env, hashFiles)
        {
          if j > 0 {
            assert added[j] == rest[j - 1] && filters[j] == filters[1..][j - 1];
          }
        }
      }
    }
  }

  /**
   * The hash file a reached filter leaves behind: the one found, when it
   * reuses its cache, and otherwise the hash it computed.
   */
  function FileAfter(ws: Workspace, f: Filter, env: map<string, string>, hashFiles: map<string, string>): string
  {
    if ReusesCache(f, env, hashFiles) then hashFiles[f.name] else FilterHash(ws, f)
  }

  /** With distinct names, every filter reached leaves its hash file as `FileAfter` says. */
  lemma {:induction false} RunFromFiles(
    ws: Workspace, s: RunState, filters: seq<Filter>, env: map<string, string>, hashFiles: map<string, string>)
    requires s.outcome == Completed
    requires DistinctNames(filters)
    requires SameFilesFor(filters, s, hashFiles)
    ensures var r := RunFrom(ws, s, filters, env);
      forall j :: 0 <= j < |r.emitted| - |s.emitted| && j < |filters| ==>
        filters[j].name in r.hashFiles && r.hashFiles[filters[j].name] == FileAfter(ws, filters[j], env, hashFiles)
    decreases |filters|
  {
    if filters != [] {
      var f := filters[0];
      var s' := Step(ws, s, f, env);
      StepFacts(ws, s, f, env);
      if s'.outcome == Completed {
        assert f.name in s'.hashFiles && s'.hashFiles[f.name] == FileAfter(ws, f, env, hashFiles);
        StepKeepsOthers(ws, s, filters, env, hashFiles);
        RunFromFiles(ws, s', filters[1..], env, hashFiles);
        var r := RunFrom(ws, s', filters[1..], env);
        // a later filter never rewrites this filter's hash file
        assert forall j :: 0 <= j < |filters[1..]| ==> filters[1..][j].name != f.name by {
          forall j | 0 <= j < |filters[1..]| ensures filters[1..][j].name != f.name {
            assert filters[1..][j] == filters[j + 1];
          }
        }
        RunFromFrame(ws, s', filters[1..], env, f.name);
        forall j | 0 <= j < |r.emitted| - |s.emitted| && j < |filters|
          ensures filters[j].name in r.hashFiles && r.hashFiles[filters[j].name] == FileAfter(ws, filters[j], env, hashFiles)
        {
          if j > 0 {
            assert filters[j] == filters[1..][j - 1];
          }
        }
      }
    }
  }

  /**
   * With distinct filter names: a reached filter emits its stripped cached
   * hash when its flag is not "true" (in any case) and its hash file exists,
   * and leaves that file as found; otherwise it emits the freshly computed
   * hash and writes it to its hash file.
   */
  lemma RunDecisions(ws: Workspace, filters: seq<Filter>, env: map<string, string>, hashFiles: map<string, string>)
    requires DistinctNames(filters)
    ensures var r := Run(ws, filters, env, hashFiles);
      forall i :: 0 <= i < |r.emitted| && i < |filters| ==>
        && r.emitted[i] == Output(HashKey(filters[i]), Expected(ws, filters[i], env, hashFiles))
        && (ReusesCache(filters[i], env, hashFiles) ==>
              filters[i].name in r.hashFiles && r.hashFiles[filters[i].name] == hashFiles[filters[i].name])
        && (!ReusesCache(filters[i], env, hashFiles) ==>
              filters[i].name in r.hashFiles && r.hashFiles[filters[i].name] == FilterHash(ws, filters[i]))
  {
    var s := RunState([], hashFiles, Completed);
    var r := RunFrom(ws, s, filters, env);
    RunFromNames(ws, s, filters, env);
    RunFromValues(ws, s, filters, env, hashFiles);
    RunFromFiles(ws, s, filters, env, hashFiles);
    assert r.emitted[|s.emitted|..] == r.emitted;
  }

  /**
   * The remaining iterations leave the hash file of `name` as it was, present
   * or absent, when no filter they reach carries that name.
   */
  lemma {:induction false} RunFromFrame(ws: Workspace, s: RunState, filters: seq<Filter>, env: map<string, string>, name: string)
    ensures var r := RunFrom(ws, s, filters, env);
      (forall j :: 0 <= j < |r.emitted| - |s.emitted| && j < |filters| ==> filters[j].name != name) ==>
        (name in r.hashFiles <==> name in s.hashFiles)
        && (name in s.hashFiles ==> r.hashFiles[name] == s.hashFiles[name])
    decreases |filters|
  {
    if filters != [] && s.outcome == Completed {
      var s' := Step(ws, s, filters[0], env);
      StepFacts(ws, s, filters[0], env);
      var r := RunFrom(ws, s', filters[1..], env);
      if s'.outcome == Completed {
        RunFromLength(ws, s', filters[1..], env);
        RunFromFrame(ws, s', filters[1..], env, name);
        if forall j :: 0 <= j < |r.emitted| - |s.emitted| && j < |filters| ==> filters[j].name != name {
          assert filters[0].name != name;
          forall j | 0 <= j < |r.emitted| - |s'.emitted| && j < |filters[1..]|
            ensures filters[1..][j].name != name
          {
            assert filters[1..][j] == filters[j + 1];
          }
        }
      }
    }
  }

  /**
   * A run that stops at an unset flag variable leaves the hash files of the
   * filters it never reached, the one that stopped it included, as found.
   */
  lemma RunAbortKeepsUnreached(ws: Workspace, filters: seq<Filter>, env: map<string, string>, hashFiles: map<string, string>, k: int)
    requires DistinctNames(filters)
    ensures var r := Run(ws, filters, env, hashFiles);
      |r.emitted| <= k < |filters| ==>
        && r.outcome.FlagUnset?
        && (filters[k].name in r.hashFiles <==> filters[k].name in hashFiles)
        && (filters[k].name in hashFiles ==> r.hashFiles[filters[k].name] == hashFiles[filters[k].name])
  {
    var s := RunState([], hashFiles, Completed);
    var r := RunFrom(ws, s, filters, env);
    RunFromLength(ws, s, filters, env);
    if |r.emitted| <= k < |filters| {
      RunFromFrame(ws, s, filters, env, filters[k].name);
    }
  }

  /** The run leaves the hash file of a name no filter carries as it found it, present or absent. */
  lemma RunKeepsOtherFiles(ws: Workspace, filters: seq<Filter>, env: map<string, string>, hashFiles: map<string, string>, name: string)
    requires forall j :: 0 <= j < |filters| ==> filters[j].name != name
    ensures var r := Run(ws, filters, env, hashFiles);
      (name in r.hashFiles <==> name in hashFiles)
      && (name in hashFiles ==> r.hashFiles[name] == hashFiles[name])
  {
    RunFromFrame(ws, RunState([], hashFiles, Completed), filters, env, name);
  }
}
