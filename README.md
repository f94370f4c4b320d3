# Changed-files filter engine

This project models the changed-files filter engine of a CI repository. The engine lives in two Python scripts, and each script has its own copy of the filter code:

- `scripts/process_path_filter.py` (the *job filter script*) reads a filter file and the files changed by a pull request. For every job of a workflow it picks the first filter whose name regex matches the job. It then decides whether the changed files trigger that job.
- `scripts/calculate_hashes.py` (the *hash script*) reads a filter file of its own. For every filter it emits `hash_<name>`. The value is either the hash cached in `.hashes/<name>.hash` or a content hash recomputed over the files the filter selects.

A filter has a name, a list of path regexes (`files`) and an optional `skip-if` section with an `all-files-match-any` list. Regex matching is Python's `re.match`, which is anchored at the start of the string. The model keeps it abstract: a `Matcher` is a function `(pattern, string) -> bool`, and every operation takes it as a parameter.

Modules, one per file:

- `Wrappers` (`wrappers.dfy`): `Option` and `Result`.
- `Text` (`text.dfy`): the Python string operations the scripts use. These are `startswith`, `split`, `strip`, `upper`, `lower` and `in` on strings.
- `FilterModel` (`filter_model.dfy`): patterns, `SkipIf`, `Filter`, and what it means for a file to match. It also holds the specification of what `calculate_hash` feeds to its digest.
- `FilterFile` (`filter_file.dfy`): the validation `load_filter_file` performs on the parsed YAML document. The code for it is the same in both scripts.
- `ProcessPathFilter` (`process_path_filter.dfy`): the job filter script. It holds `is_match_for_file`, `is_match`, `calculate_hash`, `load_filter_file`, the PR-ref parsing and the job-to-filter loop.
- `CalculateHashes` (`calculate_hashes.dfy`): the hash script. It holds its own copies of the filter methods and the main loop that chooses between the cached hash and a recomputed one.
- `FilterCopies` (`filter_copies.dfy`): how the two `is_match` copies relate, and the test vectors of `scripts/test_process_path_filter.py`.

The loops that update variables step by step (`is_match_for_file`, `is_match`, `calculate_hash`, the loop in `load_filter_file`, the job-to-filter loop and the hash script's main loop) are `method`s with `while` loops. Each method is proved against a specification function or predicate, and the properties are proved about those specifications as lemmas. The list comprehensions that build pattern lists (`scripts/process_path_filter.py:48` and `:60`) are the function `FilterFile.Texts` and a sequence constructor in `FilterFile.SkipIfOf`. The directory walk and the chunked file reads are left out (see below).

Three behaviours of the code that its names and comments do not suggest:

- **Skip-if is all-of, not any-of.** The comment at `scripts/process_path_filter.py:22-23` calls the list `all-files-match-any`. The inner loop, however, clears the skip flag as soon as one skip pattern fails a file. So a file counts as skippable only when it matches *every* skip pattern. The model follows the code (`FilterModel.Skippable`, `FilterCopies.JobCopyTriggersIff`).
- **An empty skip list suppresses the filter.** With `all-files-match-any: []` the skip flag is never cleared, so `is_match` is false for every change set (`FilterCopies.EmptySkipListNeverTriggers`).
- **The test file is stale.** `scripts/test_process_path_filter.py` calls `calculate_match_and_fingerprint` and passes `name=`. Neither exists in the job filter script: its `Filter` takes `name_regex`. Its assertions are read here as the intended results of `is_match`.

## Model

| member | source | states |
|---|---|---|
| `Text.Split` | scripts/process_path_filter.py:169 | `str.split` with one separator: at least one part, no part contains the separator, and joining the parts with it gives back the input |
| `Text.Strip` | scripts/calculate_hashes.py:217 | `str.strip()`: the result is a slice of the input with only whitespace before and after it, and it neither starts nor ends with whitespace |
| `FilterModel.SelectedMatch` | scripts/process_path_filter.py:110-121 | only files that match some `files` pattern are fed to the digest, and no more files than the input holds |
| `FilterModel.SelectedCount` | scripts/process_path_filter.py:110-121 | each input occurrence of a matching file is fed exactly once, even when several patterns match it; non-matching files never are |
| `FilterModel.SelectedAppend` | scripts/process_path_filter.py:110-121 | selection distributes over concatenation, so files are fed in input order |
| `FilterModel.DigestInputShape` | scripts/process_path_filter.py:113-120 | for the i-th fed file, the digest gets its name at position 2i and its contents right after it |
| `FilterModel.DigestInputStep` | scripts/process_path_filter.py:110-121 | one more input file adds its name and contents to the digest input exactly when it matches a pattern |
| `FilterFile.Texts` | scripts/process_path_filter.py:60 | a YAML list becomes a pattern list exactly when every element is a string, element by element |
| `FilterFile.SkipIfOf` | scripts/process_path_filter.py:43-48 | `SkipIf(value)`: null gives no list, a list of strings gives that list, and a string gives pattern i = its i-th character; it is refused exactly for every other value, and always as `Malformed` |
| `FilterFile.ParseSkipIf` | scripts/process_path_filter.py:234-237 | a skip-if is set exactly when the entry has a `skip-if` mapping holding `all-files-match-any`, and it is then `SkipIfOf` of that value; there is none without `skip-if`; any other `skip-if` value follows Python's `in` test for the key: none when the test is false (a mapping without the key, a string not containing it, a list without it as an element), refused when the test raises or is true for a non-mapping |
| `FilterFile.ParseEntry` | scripts/process_path_filter.py:220-244 | an entry without `name` is refused, then one without `files`, then a non-list `files`, then an empty `files`; a non-mapping entry is refused as missing `name` or `files` when Python's `in` test says so, and as malformed otherwise; it is accepted iff it is `WellFormedEntry` (a mapping with a string name, a non-empty list of string patterns and a skip-if that parses), and then carries its name, its patterns in order and the parsed skip-if; a mapping with a name and a non-empty `files` list that is still not well formed is refused as `Malformed` |
| `FilterFile.ParseAll` | scripts/process_path_filter.py:219-246 | all entries are accepted iff each one is; then there is one filter per entry, in file order; otherwise the first refused entry's error is reported |
| `FilterFile.Load` | scripts/process_path_filter.py:209-246 | an empty document and a non-list are refused; otherwise the result is as for `ParseAll` on the entries |
| `ProcessPathFilter.IsMatchForFile` | scripts/process_path_filter.py:63-71 | true iff some `files` pattern matches the file; skip-if is not consulted |
| `ProcessPathFilter.IsMatch` | scripts/process_path_filter.py:73-98 | the result is `Triggers`: some file matches a pattern and, with a skip list, not every file is skippable; false for no files. Its loop invariants keep `matched` set once set and the skip flag cleared once cleared |
| `ProcessPathFilter.CalculateHash` | scripts/process_path_filter.py:100-123 | the pieces fed to SHA-1 are exactly the name and then the contents of each matching file, in input order |
| `ProcessPathFilter.LoadFilterFile` | scripts/process_path_filter.py:209-246 | the loop that appends filters gives exactly `Load` of the document |
| `ProcessPathFilter.ParsePrNumber` | scripts/process_path_filter.py:165-169 | a number exactly for refs starting with `refs/pull/`; it is the `/`-free text after that prefix, up to the next `/` or the end |
| `ProcessPathFilter.FirstFilter` | scripts/process_path_filter.py:323-328 | the index of the first filter whose name regex matches the job; no earlier one matches; none when no filter matches |
| `ProcessPathFilter.AssignJobs` | scripts/process_path_filter.py:321-335 | a job is in the result iff some filter's name regex matches it, and it maps to `Triggers` of the first such filter on the changed files |
| `CalculateHashes.IsMatchForFile` | scripts/calculate_hashes.py:63-70 | true iff some `files` pattern matches the file; skip-if is not consulted |
| `CalculateHashes.IsMatch` | scripts/calculate_hashes.py:72-91 | the result is this copy's `Triggers`: only files before the first matching one are tested against the skip list; false for no files, and false whenever a skip list is set and the first file matches |
| `CalculateHashes.CalculateHash` | scripts/calculate_hashes.py:93-116 | the same digest input as the job filter script: name then contents of each matching file, in input order |
| `CalculateHashes.LoadFilterFile` | scripts/calculate_hashes.py:119-160 | the same validation and order-preserving construction as the job filter script (`Load`) |
| `CalculateHashes.ResolveHashes` | scripts/calculate_hashes.py:207-237 | the emitted lines, the `.hashes` directory afterwards and the outcome are those of `Run`, the per-filter fold of `Step` |
| `CalculateHashes.RunFromLength` | scripts/calculate_hashes.py:207-212 | from any state the loop keeps the lines already emitted and adds at most one per filter; it completes after one line per filter, and otherwise stops at a filter whose flag variable is unset and names it |
| `CalculateHashes.RunFromNames` | scripts/calculate_hashes.py:213-231 | the j-th line the loop adds is keyed `hash_<name>` of the j-th filter |
| `CalculateHashes.RunFromFlags` | scripts/calculate_hashes.py:207-212 | every filter that added a line had its `FILTER_<NAME>` variable set |
| `CalculateHashes.RunOutputs` | scripts/calculate_hashes.py:207-231 | one `hash_<name>` line per filter reached, in order; the run completes iff every `FILTER_<NAME>` variable is set; otherwise it stops at the first unset one and names it |
| `CalculateHashes.RunFromFrame` | scripts/calculate_hashes.py:207-233 | the iterations that follow leave a hash file as it was, present or absent, when no filter they actually reach (before the run stops at an unset flag) carries its name |
| `CalculateHashes.RunAbortKeepsUnreached` | scripts/calculate_hashes.py:207-212 | with distinct names, when the run emits fewer outputs than there are filters it stopped at an unset flag, and every filter from the one that stopped it onwards still has its hash file exactly as found, present or absent |
| `CalculateHashes.RunFromValues` | scripts/calculate_hashes.py:213-233 | with distinct names, each line reached carries the cached or recomputed value chosen against the directory as found |
| `CalculateHashes.RunFromFiles` | scripts/calculate_hashes.py:214-233 | with distinct names, each filter reached leaves its hash file as found when it reuses the cache, and holding the recomputed hash otherwise |
| `CalculateHashes.RunDecisions` | scripts/calculate_hashes.py:213-233 | with distinct names: a flag other than `true` (any case) plus an existing hash file gives the stripped cached hash and leaves that file as found; every other case gives the recomputed hash, which is written to the hash file |
| `CalculateHashes.RunKeepsOtherFiles` | scripts/calculate_hashes.py:213-233 | the run leaves the hash file of a name no filter carries as it found it, present or absent |
| `FilterCopies.FirstMatchExists` | scripts/calculate_hashes.py:77-81 | when some changed file matches, there is a first matching file, where the hash script's loop stops |
| `FilterCopies.JobCopyTriggersIff` | scripts/process_path_filter.py:78-97 | job filter `is_match` is true iff some file matches a pattern and, with a skip list, some file (matching or not) fails some skip pattern |
| `FilterCopies.EmptySkipListNeverTriggers` | scripts/process_path_filter.py:75-95 | an empty `all-files-match-any` list makes both copies answer false for every change set |
| `FilterCopies.NoSkipCopiesAgree` | scripts/calculate_hashes.py:72-91 | without a skip list both copies are true iff some changed file matches a pattern |
| `FilterCopies.HashCopyImpliesJobCopy` | scripts/calculate_hashes.py:77-90 | whenever the hash script's copy is true, so is the job filter script's |
| `FilterCopies.CopiesDisagreeIff` | scripts/calculate_hashes.py:78-81 | the copies disagree iff a skip list is set, every file before the first matching one is skippable, and that file or a later one is not |
| `FilterCopies.JobCopyTestVectors` | scripts/test_process_path_filter.py:4-27 | the job filter script's `is_match` gives every result the test file asserts, with and without the skip list |
| `FilterCopies.HashCopyTestVectors` | scripts/test_process_path_filter.py:15-27 | the hash script's `is_match` gives false for `["test.txt"]` and `["test.txt", "test.py"]` under the skip list, where the test file expects true |

## Left out

- Regular expressions: `re.compile` and `re.match` are the abstract `Matcher`. The lazy compile cache in `PathFilter` is memoisation and is not modelled. The test vectors assume only the six `re.match` results listed in `FilterCopies.TestRegexFacts`. An invalid pattern makes `re.compile` raise `re.error`, and the model has no such error. In the job filter script an invalid job-name regex fails `load_filter_file` (`scripts/process_path_filter.py:59`, reached from `:239`), yet `FilterFile.Load` accepts the file. Path and skip patterns fail only lazily, at their first match attempt.
- SHA-1 and chunked file reading: `calculate_hash` is modelled up to the sequence of `FileName`/`FileContents` pieces it feeds the digest. File contents and the hex digest are parameters. SHA-1 itself sees only the concatenated bytes, so the boundary between a name and its contents is finer in the model than in the digest.
- YAML parsing (`yaml.safe_load`) and `get_job_list`: the model takes the parsed document as a `Yaml` value and the job names as a sequence.
- `FilterFile.ParseEntry`: refuses a non-string `name` or pattern while loading (`Malformed`). The source differs as follows:
  - A non-string name fails inside `load_filter_file` in the job filter script, with a TypeError from `re.compile` (`scripts/process_path_filter.py:59`, reached from `:239`).
  - In the hash script a non-string name fails only in the main loop, with an AttributeError from `.upper()` (`scripts/calculate_hashes.py:208`). Filters before it have emitted their lines by then.
  - Patterns, including skip-if patterns, are compiled lazily at their first match attempt. A non-string pattern never fails if no match attempt reaches it. That happens when no job selects its filter, when an earlier pattern matches every file, when there are no files, or when the hash script reuses the filter's cached hash. In those cases the source finishes a run that the model refuses as a whole.
- `FilterFile.SkipIfOf`: refuses a mapping under `all-files-match-any`, where Python would use the mapping's keys as patterns in insertion order. It also refuses a list with non-string elements. Every uncaught Python exception is folded into the one error `Malformed`.
- Git and GitHub I/O: `load_git_changes` (`git diff`), the REST request and the environment checks in `load_pr_changes` are left out; only the ref parsing is modelled. The changed-file list is an input.
- Output plumbing: `set_github_output`, `set_github_env` (including their exit when the sink variable is unset), `append_to_step_summary`, the markdown and JSON summaries, `print` and the timing code are left out. The `name=value` lines written to both sinks are returned as `Output` values.
- `recursive_file_list` (`os.walk` with `.git` pruning): the walked tree is a fixed file list in `Workspace`. In the source, hash files written earlier in the same run live under the walked tree, so a later filter whose patterns match `.hashes/` can see them; the model does not capture that.
- Hash-file paths: `.hashes/<name>.hash` is keyed by the filter name. Names that `os.path.join` would turn into other paths, such as absolute names or names with separators, are not modelled.
- `CalculateHashes.RunDecisions`: stated only for filters with distinct names. With a repeated name, a later filter can reuse the hash file an earlier one wrote in the same run. `Run` and `ResolveHashes` model that case, but no lemma states it.
- Case mapping and whitespace: `upper`, `lower` and `strip` are modelled on ASCII only.
- The existence checks of `FILTER_FILE` and `WORKFLOW_FILE`, and the creation of `.hashes`, are left out: they are environment and filesystem checks.
- `scripts/generate_test_files.py` and `scripts/generate_pr.py` generate random test data and drive git/`gh`; they hold no filter logic. Artifact fingerprint assembly and the blob-store existence check (`.github/actions/check_artifacts/index.js`) are not part of this model.

## Findings

| source | as written | input that shows it | evidently intended | confidence | as-written member | corrected member |
|---|---|---|---|---|---|---|
| scripts/calculate_hashes.py:79-81 | The `break` right after the first matching file ends the loop. That file and every later file never reach the skip-if test, so a skip-if filter whose first changed file matches can never trigger. | files pattern `test`, skip-if `test.py`, changed files `["test.txt"]`: `is_match` returns false | true, as scripts/test_process_path_filter.py:23 asserts and as scripts/process_path_filter.py:78-97 computes | medium; not executed; the hash script's own main loop never calls `is_match` | `CalculateHashes.IsMatch` (exhibited by `FilterCopies.HashCopyTestVectors`) | `ProcessPathFilter.IsMatch` (proved against the test vectors by `FilterCopies.JobCopyTestVectors`; used by `ProcessPathFilter.AssignJobs`) |
