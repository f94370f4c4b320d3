/**
 * The values both filter scripts share: path patterns, the optional skip-if
 * list, a filter, and the specifications of "a file matches a filter" and of
 * the input fed to a filter's content fingerprint.
 *
 * Regular-expression matching is not modelled: a `Matcher` stands for
 * Python's `re.match(pattern, s)`, which succeeds when the pattern matches
 * a prefix of `s`. Every operation takes the matcher as a parameter.
 */
module FilterModel {

  import opened Wrappers

  type Pattern = string
  type Path = string
  type Bytes = seq<bv8>

  /** `re.match(pattern, s) is not None` */
  type Matcher = (Pattern, string) -> bool

  /**
   * The `SkipIf` record: `allFileMatchAny` is None when the
   * `all-files-match-any` key held no list.
   */
  datatype SkipIf = SkipIf(allFileMatchAny: Option<seq<Pattern>>)

  /**
   * A filter: `name` is a job-name regex in the job-filter script and a plain
   * filter name in the hash script; `files` are the path patterns.
   */
  datatype Filter = Filter(name: string, files: seq<Pattern>, skipIf: Option<SkipIf>)

  /** Some pattern matches `s`. */
  predicate MatchesAny(m: Matcher, patterns: seq<Pattern>, s: string) {
    exists k :: 0 <= k < |patterns| && m(patterns[k], s)
  }

  /** Every pattern matches `s` (vacuously true for no patterns). */
  predicate MatchesAll(m: Matcher, patterns: seq<Pattern>, s: string) {
    forall k :: 0 <= k < |patterns| ==> m(patterns[k], s)
  }

  /** The skip check is in force: skip-if is present and holds a list. */
  predicate SkipActive(f: Filter) {
    f.skipIf.Some? && f.skipIf.value.allFileMatchAny.Some?
  }

  /** The skip patterns of a filter whose skip check is in force, else none. */
  function SkipPatterns(f: Filter): seq<Pattern> {
    if SkipActive(f) then f.skipIf.value.allFileMatchAny.value else []
  }

  /** Some changed file matches one of the filter's path patterns. */
  predicate SomeFileMatches(m: Matcher, f: Filter, files: seq<Path>) {
    exists j :: 0 <= j < |files| && MatchesAny(m, f.files, files[j])
  }

  /** A file matches every skip pattern, so on its own it would be skipped. */
  predicate Skippable(m: Matcher, f: Filter, file: Path) {
    MatchesAll(m, SkipPatterns(f), file)
  }

  /** One `hash.update` call of `calculate_hash`. */
  datatype Piece = FileName(path: Path) | FileContents(bytes: Bytes)

  /** The files, in input order, that match one of `patterns`. */
  function Selected(m: Matcher, patterns: seq<Pattern>, files: seq<Path>): seq<Path>
    decreases |files|
  {
    if files == [] then []
    else
      var last := files[|files| - 1];
      Selected(m, patterns, files[..|files| - 1]) + (if MatchesAny(m, patterns, last) then [last] else [])
  }

  /**
   * What the digest is fed for a sequence of selected files: for each file in
   * turn, its name and then its contents.
   */
  function DigestInput(sel: seq<Path>, contents: Path -> Bytes): seq<Piece>
    decreases |sel|
  {
    if sel == [] then []
    else
      var last := sel[|sel| - 1];
      DigestInput(sel[..|sel| - 1], contents) + [FileName(last), FileContents(contents(last))]
  }

  /** Only files that match a pattern are selected. */
  lemma {:induction false} SelectedMatch(m: Matcher, patterns: seq<Pattern>, files: seq<Path>)
    ensures |Selected(m, patterns, files)| <= |files|
    ensures forall i :: 0 <= i < |Selected(m, patterns, files)| ==> MatchesAny(m, patterns, Selected(m, patterns, files)[i])
    decreases |files|
  {
    if files != [] {
      SelectedMatch(m, patterns, files[..|files| - 1]);
    }
  }

  /**
   * The digest sees, for the i-th selected file, its name at position 2i and
   * its contents right after.
   */
  lemma {:induction false} DigestInputShape(sel: seq<Path>, contents: Path -> Bytes)
    ensures |DigestInput(sel, contents)| == 2 * |sel|
    ensures forall i :: 0 <= i < |sel| ==>
              DigestInput(sel, contents)[2 * i] == FileName(sel[i])
              && DigestInput(sel, contents)[2 * i + 1] == FileContents(contents(sel[i]))
    decreases |sel|
  {
    if sel != [] {
      var init := sel[..|sel| - 1];
      DigestInputShape(init, contents);
      forall i | 0 <= i < |sel|
        ensures DigestInput(sel, contents)[2 * i] == FileName(sel[i])
        ensures DigestInput(sel, contents)[2 * i + 1] == FileContents(contents(sel[i]))
      {
        if i < |init| {
          assert sel[i] == init[i];
        }
      }
    }
  }

  /** Taking one more file into account feeds that file's name and contents if it matches. */
  lemma DigestInputStep(m: Matcher, patterns: seq<Pattern>, files: seq<Path>, i: int, contents: Path -> Bytes)
    requires 0 <= i < |files|
    ensures DigestInput(Selected(m, patterns, files[..i + 1]), contents)
            == DigestInput(Selected(m, patterns, files[..i]), contents)
               + (if MatchesAny(m, patterns, files[i])
                  then [FileName(files[i]), FileContents(contents(files[i]))] else [])
  {
    var sel := Selected(m, patterns, files[..i]);
    var x := files[i];
    assert files[..i + 1][..i] == files[..i];
    assert files[..i + 1][i] == x;
    if MatchesAny(m, patterns, x) {
      assert Selected(m, patterns, files[..i + 1]) == sel + [x];
      assert (sel + [x])[..|sel|] == sel;
    } else {
      assert Selected(m, patterns, files[..i + 1]) == sel;
    }
  }

  /** Selection distributes over concatenation: it keeps the input order. */
  lemma {:induction false} SelectedAppend(m: Matcher, patterns: seq<Pattern>, a: seq<Path>, b: seq<Path>)
    ensures Selected(m, patterns, a + b) == Selected(m, patterns, a) + Selected(m, patterns, b)
    decreases |b|
  {
    if b == [] {
      assert a + b == a;
    } else {
      var b' := b[..|b| - 1];
      assert (a + b)[..|a + b| - 1] == a + b';
      SelectedAppend(m, patterns, a, b');
    }
  }

  /**
   * Each input occurrence of a matching file is selected exactly once, and no
   * other file is selected.
   */
  lemma {:induction false} SelectedCount(m: Matcher, patterns: seq<Pattern>, files: seq<Path>, x: Path)
    ensures multiset(Selected(m, patterns, files))[x]
            == if MatchesAny(m, patterns, x) then multiset(files)[x] else 0
    decreases |files|
  {
    if files != [] {
      var init := files[..|files| - 1];
      SelectedCount(m, patterns, init, x);
      assert files == init + [files[|files| - 1]];
    }
  }
}
