/**
 * The job filter script: decides, for every job of a workflow, whether the
 * changed files of a pull request should trigger it.
 *
 * `is_match` walks the changed files once, with two flags: `matched` is set
 * when a file matches one of the filter's path patterns, and the skip flag
 * starts out set when the filter has a skip list and is cleared by the first
 * file that fails some skip pattern. A job is triggered when a file matched
 * and the skip flag was cleared.
 */
module ProcessPathFilter {

  import opened Wrappers
  import opened Text
  import opened FilterModel
  import opened FilterFile

  /**
   * What `is_match` decides: some changed file matches a path pattern, and
   * not every changed file matches every skip pattern. A file counts for the
   * skip test whether or not it matched a path pattern.
   */
  predicate Triggers(m: Matcher, f: Filter, files: seq<Path>) {
    SomeFileMatches(m, f, files)
    && !(SkipActive(f) && forall j :: 0 <= j < |files| ==> Skippable(m, f, files[j]))
  }

  /** `Filter.is_match_for_file`: does some path pattern match the file? Skip-if plays no part. */
  method IsMatchForFile(m: Matcher, f: Filter, file: Path) returns (r: bool)
    ensures r == MatchesAny(m, f.files, file)
  {
    var k := 0;
    while k < |f.files|
      invariant 0 <= k <= |f.files|
      invariant forall j :: 0 <= j < k ==> !m(f.files[j], file)
    {
      if m(f.files[k], file) {
        return true;
      }
      k := k + 1;
    }
    return false;
  }

  /** `Filter.is_match` */
  method IsMatch(m: Matcher, f: Filter, files: seq<Path>) returns (r: bool)
    ensures r == Triggers(m, f, files)
    ensures files == [] ==> !r
  {
    var matched := false;
    var allSkip := SkipActive(f);
    var i := 0;
    while i < |files|
      invariant 0 <= i <= |files|
      // once set, `matched` stays set; once cleared, `allSkip` stays cleared
      invariant matched == exists j :: 0 <= j < i && MatchesAny(m, f.files, files[j])
      invariant allSkip == (SkipActive(f) && forall j :: 0 <= j < i ==> Skippable(m, f, files[j]))
    {
      var file := files[i];
      if !matched {
        var hit := IsMatchForFile(m, f, file);
        if hit {
          matched := true;
        }
      }
      if allSkip {
        var skips := f.skipIf.value.allFileMatchAny.value;
        var k := 0;
        while k < |skips|
          invariant 0 <= k <= |skips|
          invariant allSkip
          invariant forall j :: 0 <= j < k ==> m(skips[j], file)
        {
          if !m(skips[k], file) {
            allSkip := false;
            break;
          }
          k := k + 1;
        }
      }
      i := i + 1;
    }
    r := matched && !allSkip;
  }

  /**
   * `Filter.calculate_hash`, up to the SHA-1 itself: the pieces fed to the
   * digest, a file's name before its contents. The inner loop stops at the
   * first matching pattern, so a file is fed at most once.
   */
  method CalculateHash(m: Matcher, f: Filter, files: seq<Path>, contents: Path -> Bytes)
    returns (fed: seq<Piece>)
    ensures fed == DigestInput(Selected(m, f.files, files), contents)
  {
    fed := [];
    var i := 0;
    assert files[..0] == [];
    while i < |files|
      invariant 0 <= i <= |files|
      invariant fed == DigestInput(Selected(m, f.files, files[..i]), contents)
    {
      var file := files[i];
      DigestInputStep(m, f.files, files, i, contents);
      ghost var before, fedFile := fed, false;
      var k := 0;
      while k < |f.files|
        invariant 0 <= k <= |f.files|
        invariant !fedFile && fed == before
        invariant forall j :: 0 <= j < k ==> !m(f.files[j], file)
      {
        if m(f.files[k], file) {
          fed := fed + [FileName(file)];
          fed := fed + [FileContents(contents(file))];
          fedFile := true;
          break;
        }
        k := k + 1;
      }
      assert fedFile == MatchesAny(m, f.files, file);
      assert fed == before + (if fedFile then [FileName(file), FileContents(contents(file))] else []);
      i := i + 1;
    }
    assert files[..i] == files;
  }

  /** `load_filter_file`, after the YAML has been parsed. */
  method LoadFilterFile(doc: Yaml) returns (r: Result<seq<Filter>, LoadError>)
    ensures r == Load(doc)
  {
    if doc.YNull? {
      return Err(EmptyFile);
    }
    if !doc.YList? {
      return Err(NotAList);
    }
    var filters: seq<Filter> := [];
    var i := 0;
    while i < |doc.items|
      invariant 0 <= i <= |doc.items|
      invariant |filters| == i
      invariant forall j :: 0 <= j < i ==> ParseEntry(doc.items[j]) == Ok(filters[j])
    {
      var entry := ParseEntry(doc.items[i]);
      if entry.Err? {
        assert FirstRejected(doc.items, i);
        return Err(entry.error);
      }
      filters := filters + [entry.value];
      i := i + 1;
    }
    assert Load(doc).Ok?;
    assert Load(doc).value == filters;
    return Ok(filters);
  }

  /**
   * The PR number of a `refs/pull/N/merge` ref: the third `/`-separated
   * component, and only for refs under `refs/pull/`.
   */
  function ParsePrNumber(ref: string): (r: Option<string>)
    ensures r.Some? <==> IsPrefix("refs/pull/", ref)
    ensures r.Some? ==> '/' !in r.value && IsPrefix("refs/pull/" + r.value, ref)
                        && (|ref| == 10 + |r.value| || ref[10 + |r.value|] == '/')
  {
    if !IsPrefix("refs/pull/", ref) then None
    else
      PullRefSplit(ref);
      HeadOfSplit(ref[10..], '/');
      var number := Split(ref, '/')[2];
      assert "refs/pull/" + number == ref[..10 + |number|];
      Some(number)
  }

  /** In a pull-request ref, the third `/`-separated part is the head of the part after `refs/pull/`. */
  lemma PullRefSplit(ref: string)
    requires IsPrefix("refs/pull/", ref)
    ensures |Split(ref, '/')| >= 3 && Split(ref, '/')[2] == Split(ref[10..], '/')[0]
  {
    var rest := ref[10..];
    assert ref == "refs" + ['/'] + ("pull" + ['/'] + rest);
    SplitAfter("refs", '/', "pull" + ['/'] + rest);
    SplitAfter("pull", '/', rest);
  }

  /** The first filter, in file order, whose name regex matches the job. */
  function FirstFilter(m: Matcher, filters: seq<Filter>, job: string): (r: Option<nat>)
    ensures r.Some? ==> r.value < |filters| && m(filters[r.value].name, job)
                        && forall i :: 0 <= i < r.value ==> !m(filters[i].name, job)
    ensures r.None? ==> forall i :: 0 <= i < |filters| ==> !m(filters[i].name, job)
    decreases |filters|
  {
    if filters == [] then None
    else if m(filters[0].name, job) then Some(0)
    else match FirstFilter(m, filters[1..], job)
      case None => None
      case Some(k) => Some(k + 1)
  }

  /**
   * The main loop: each job gets the first filter whose name regex matches
   * it and maps to that filter's `is_match` on the changed files; a job that
   * no filter names is left out of the result.
   */
  method AssignJobs(m: Matcher, filters: seq<Filter>, jobs: seq<string>, changed: seq<Path>)
    returns (result: map<string, bool>)
    ensures forall job :: job in result <==> job in jobs && FirstFilter(m, filters, job).Some?
    ensures forall job :: job in result ==>
              result[job] == Triggers(m, filters[FirstFilter(m, filters, job).value], changed)
  {
    result := map[];
    var i := 0;
    while i < |jobs|
      invariant 0 <= i <= |jobs|
      invariant forall job :: job in result <==> job in jobs[..i] && FirstFilter(m, filters, job).Some?
      invariant forall job :: job in result ==>
                  result[job] == Triggers(m, filters[FirstFilter(m, filters, job).value], changed)
    {
      var job := jobs[i];
      var jobFilter: Option<Filter> := None;
      var k := 0;
      while k < |filters|
        invariant 0 <= k <= |filters|
        invariant jobFilter == None
        invariant forall j :: 0 <= j < k ==> !m(filters[j].name, job)
      {
        if m(filters[k].name, job) {
          jobFilter := Some(filters[k]);
          assert FirstFilter(m, filters, job) == Some(k);
          break;
        }
        k := k + 1;
      }
      assert jobs[..i + 1] == jobs[..i] + [job];
      // the script calls `is_match` on its inner loop variable, which is the
      // chosen filter whenever one was found
      if jobFilter.Some? {
        var matches := IsMatch(m, jobFilter.value, changed);
        result := result[job := matches];
      }
      i := i + 1;
    }
    assert jobs[..i] == jobs;
  }
}
