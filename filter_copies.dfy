/**
 * How the two copies of `Filter.is_match` relate. Without a skip list they
 * agree; with one, the hash script's copy stops at the first matching file
 * and so only ever triggers when the job filter script's copy does.
 *
 * The test vectors are those of the job filter script's test file, stated
 * for any regex engine that gives `re.match` its Python results on them.
 */
module FilterCopies {

  import opened Wrappers
  import opened FilterModel
  import Job = ProcessPathFilter
  import Hash = CalculateHashes

  /** If some changed file matches, there is a first one. */
  lemma {:induction false} FirstMatchExists(m: Matcher, f: Filter, files: seq<Path>)
    requires SomeFileMatches(m, f, files)
    ensures exists k :: Hash.FirstMatchAt(m, f, files, k)
    decreases |files|
  {
    if MatchesAny(m, f.files, files[0]) {
      assert Hash.FirstMatchAt(m, f, files, 0);
    } else {
      var j :| 0 <= j < |files| && MatchesAny(m, f.files, files[j]);
      assert files[1..][j - 1] == files[j];
      FirstMatchExists(m, f, files[1..]);
      var k :| Hash.FirstMatchAt(m, f, files[1..], k);
      forall i | 0 <= i < k + 1 ensures !MatchesAny(m, f.files, files[i]) {
        if i > 0 {
          assert files[i] == files[1..][i - 1];
        }
      }
      assert Hash.FirstMatchAt(m, f, files, k + 1);
    }
  }

  /**
   * The job filter script's `is_match`: triggered iff some file matches a
   * path pattern and, when a skip list is in force, some file (matching or
   * not) fails some skip pattern.
   */
  lemma JobCopyTriggersIff(m: Matcher, f: Filter, files: seq<Path>)
    ensures Job.Triggers(m, f, files) <==>
              SomeFileMatches(m, f, files)
              && (!SkipActive(f) || exists j, k :: 0 <= j < |files| && 0 <= k < |SkipPatterns(f)|
                                                    && !m(SkipPatterns(f)[k], files[j]))
  {
  }

  /** A skip-if whose list is empty suppresses the filter for every change set. */
  lemma EmptySkipListNeverTriggers(m: Matcher, f: Filter, files: seq<Path>)
    requires f.skipIf == Some(SkipIf(Some([])))
    ensures !Job.Triggers(m, f, files)
    ensures !Hash.Triggers(m, f, files)
  {
  }

  /** Without a skip list both copies trigger exactly when some file matches. */
  lemma NoSkipCopiesAgree(m: Matcher, f: Filter, files: seq<Path>)
    requires !SkipActive(f)
    ensures Job.Triggers(m, f, files) == SomeFileMatches(m, f, files)
    ensures Hash.Triggers(m, f, files) == SomeFileMatches(m, f, files)
  {
    if SomeFileMatches(m, f, files) {
      FirstMatchExists(m, f, files);
    }
  }

  /** Whatever the skip list, the hash script's copy only triggers when the job filter script's does. */
  lemma HashCopyImpliesJobCopy(m: Matcher, f: Filter, files: seq<Path>)
    ensures Hash.Triggers(m, f, files) ==> Job.Triggers(m, f, files)
  {
  }

  /**
   * The two copies disagree exactly when a skip list is in force, every file
   * before the first matching one is skippable, and the first matching file
   * or a later one is not.
   */
  lemma CopiesDisagreeIff(m: Matcher, f: Filter, files: seq<Path>)
    ensures Job.Triggers(m, f, files) != Hash.Triggers(m, f, files) <==>
              SkipActive(f)
              && exists k :: Hash.FirstMatchAt(m, f, files, k)
                             && (forall j :: 0 <= j < k ==> Skippable(m, f, files[j]))
                             && (exists j :: k <= j < |files| && !Skippable(m, f, files[j]))
  {
    HashCopyImpliesJobCopy(m, f, files);
    if Job.Triggers(m, f, files) && !Hash.Triggers(m, f, files) {
      FirstMatchExists(m, f, files);
      var k :| Hash.FirstMatchAt(m, f, files, k);
      var j :| 0 <= j < |files| && !Skippable(m, f, files[j]);
      assert k <= j;
    }
  }

  /** What Python's `re.match` gives on the strings of the test file. */
  predicate TestRegexFacts(m: Matcher) {
    && m("test", "test.txt") && m("test", "test.py") && !m("test", "abc")
    && m("test.py", "test.py") && !m("test.py", "test.txt") && !m("test.py", "abc")
  }

  /** `Filter(name="test", files=["test"])` */
  function PlainFilter(): Filter {
    Filter("test", ["test"], None)
  }

  /** The same filter with `skip_if=SkipIf(all_file_match_any=["test.py"])` */
  function SkipFilter(): Filter {
    Filter("test", ["test"], Some(SkipIf(Some(["test.py"]))))
  }

  /** The test file's expectations hold of the job filter script's `is_match`. */
  lemma JobCopyTestVectors(m: Matcher)
    requires TestRegexFacts(m)
    ensures Job.Triggers(m, PlainFilter(), ["test.txt"])
    ensures Job.Triggers(m, PlainFilter(), ["test.py"])
    ensures !Job.Triggers(m, PlainFilter(), ["abc"])
    ensures Job.Triggers(m, PlainFilter(), ["abc", "test.py"])
    ensures Job.Triggers(m, SkipFilter(), ["test.txt"])
    ensures !Job.Triggers(m, SkipFilter(), ["test.py"])
    ensures !Job.Triggers(m, SkipFilter(), ["abc"])
    ensures Job.Triggers(m, SkipFilter(), ["test.txt", "test.py"])
    ensures Job.Triggers(m, SkipFilter(), ["abc", "test.py"])
  {
    var p, s := PlainFilter(), SkipFilter();
    assert p.files[0] == "test" && s.files == p.files;
    assert MatchesAny(m, p.files, "test.txt") && MatchesAny(m, p.files, "test.py");
    assert SkipPatterns(s) == ["test.py"];
    assert SomeFileMatches(m, p, ["test.txt"]) by { assert ["test.txt"][0] == "test.txt"; }
    assert SomeFileMatches(m, p, ["test.py"]) by { assert ["test.py"][0] == "test.py"; }
    assert SomeFileMatches(m, p, ["abc", "test.py"]) by { assert ["abc", "test.py"][1] == "test.py"; }
    assert SomeFileMatches(m, s, ["test.txt", "test.py"]) by { assert ["test.txt", "test.py"][0] == "test.txt"; }
    assert !Skippable(m, s, "test.txt") && Skippable(m, s, "test.py") && !Skippable(m, s, "abc");
    assert ["abc", "test.py"][0] == "abc";
    assert ["test.txt", "test.py"][0] == "test.txt";
  }

  /**
   * The hash script's `is_match` on the same vectors: with the skip list it
   * answers false for a lone matching file and for a matching file followed
   * by a skippable one, where the test file expects true.
   */
  lemma HashCopyTestVectors(m: Matcher)
    requires TestRegexFacts(m)
    ensures Hash.Triggers(m, PlainFilter(), ["test.txt"])
    ensures Hash.Triggers(m, PlainFilter(), ["test.py"])
    ensures !Hash.Triggers(m, PlainFilter(), ["abc"])
    ensures Hash.Triggers(m, PlainFilter(), ["abc", "test.py"])
    ensures !Hash.Triggers(m, SkipFilter(), ["test.txt"])
    ensures !Hash.Triggers(m, SkipFilter(), ["test.py"])
    ensures !Hash.Triggers(m, SkipFilter(), ["abc"])
    ensures !Hash.Triggers(m, SkipFilter(), ["test.txt", "test.py"])
    ensures Hash.Triggers(m, SkipFilter(), ["abc", "test.py"])
  {
    var p, s := PlainFilter(), SkipFilter();
    assert p.files[0] == "test" && s.files == p.files;
    assert MatchesAny(m, p.files, "test.txt") && MatchesAny(m, p.files, "test.py");
    assert SkipPatterns(s) == ["test.py"];
    assert Hash.FirstMatchAt(m, p, ["test.txt"], 0);
    assert Hash.FirstMatchAt(m, p, ["test.py"], 0);
    assert Hash.FirstMatchAt(m, p, ["abc", "test.py"], 1);
    assert Hash.FirstMatchAt(m, s, ["abc", "test.py"], 1);
    assert !Skippable(m, s, ["abc", "test.py"][0]);
  }
}
