/**
 * Validation of a filter file, as both scripts' `load_filter_file` does it
 * after `yaml.safe_load`. The parsed document is a `Yaml` value; YAML parsing
 * itself is not modelled.
 *
 * Python's `key in x` behaves differently on each kind of value (a key test
 * on a mapping, a substring test on a string, an element test on a list, a
 * TypeError otherwise); `KeyIn` follows it so that entries which are not
 * mappings end the way the scripts end them.
 */
module FilterFile {

  import opened Wrappers
  import opened Text
  import opened FilterModel

  /** A document as `yaml.safe_load` returns it; numbers and booleans are `YScalar`. */
  datatype Yaml =
    | YNull
    | YScalar
    | YStr(s: string)
    | YList(items: seq<Yaml>)
    | YMap(fields: map<string, Yaml>)

  /**
   * Why a filter file is refused. The first six are the scripts' own exits;
   * `Malformed` stands for an uncaught Python exception (TypeError or
   * AttributeError).
   */
  datatype LoadError =
    | EmptyFile
    | NotAList
    | MissingName
    | MissingFiles
    | FilesNotList
    | FilesEmpty
    | Malformed

  /** `key in y`, or None where Python raises a TypeError. */
  function KeyIn(key: string, y: Yaml): Option<bool> {
    match y
    case YMap(fields) => Some(key in fields)
    case YStr(s) => Some(IsSubstring(key, s))
    case YList(items) => Some(YStr(key) in items)
    case _ => None
  }

  /** The strings of a list whose elements are all strings. */
  function Texts(items: seq<Yaml>): (r: Option<seq<string>>)
    ensures r.Some? <==> forall i :: 0 <= i < |items| ==> items[i].YStr?
    ensures r.Some? ==> |r.value| == |items| && forall i :: 0 <= i < |items| ==> items[i] == YStr(r.value[i])
    decreases |items|
  {
    if items == [] then Some([])
    else if !items[0].YStr? then None
    else match Texts(items[1..])
      case None => None
      case Some(rest) => Some([items[0].s] + rest)
  }

  /**
   * `SkipIf(value)`: no list for null, one pattern per element for a list of
   * strings, one pattern per character for a string (Python iterates it).
   */
  function SkipIfOf(value: Yaml): (r: Result<SkipIf, LoadError>)
    ensures value == YNull ==> r == Ok(SkipIf(None))
    ensures value.YList? && Texts(value.items).Some? ==> r == Ok(SkipIf(Some(Texts(value.items).value)))
    ensures value.YStr? ==> r.Ok? && r.value.allFileMatchAny.Some?
                            && |r.value.allFileMatchAny.value| == |value.s|
                            && forall i :: 0 <= i < |value.s| ==> r.value.allFileMatchAny.value[i] == [value.s[i]]
    ensures r.Err? <==> !(value.YNull? || value.YStr? || (value.YList? && Texts(value.items).Some?))
    ensures r.Err? ==> r.error == Malformed
  {
    match value
    case YNull => Ok(SkipIf(None))
    case YStr(s) => Ok(SkipIf(Some(seq(|s|, i requires 0 <= i < |s| => [s[i]]))))
    case YList(items) =>
      (match Texts(items)
       case Some(patterns) => Ok(SkipIf(Some(patterns)))
       case None => Err(Malformed))
    case _ => Err(Malformed)
  }

  /** The entry has a `skip-if` mapping with an `all-files-match-any` key. */
  predicate HasSkipSection(fields: map<string, Yaml>) {
    "skip-if" in fields && fields["skip-if"].YMap? && "all-files-match-any" in fields["skip-if"].fields
  }

  /** The `skip-if` handling of one entry. */
  function ParseSkipIf(fields: map<string, Yaml>): (r: Result<Option<SkipIf>, LoadError>)
    ensures r.Ok? ==> (r.value.Some? <==> HasSkipSection(fields))
    ensures HasSkipSection(fields) ==>
              r == (match SkipIfOf(fields["skip-if"].fields["all-files-match-any"])
                    case Ok(s) => Ok(Some(s))
                    case Err(e) => Err(e))
    ensures "skip-if" !in fields ==> r == Ok(None)
    ensures "skip-if" in fields && !HasSkipSection(fields) ==>
              r == (if KeyIn("all-files-match-any", fields["skip-if"]) == Some(false) then Ok(None) else Err(Malformed))
  {
    if "skip-if" !in fields then Ok(None)
    else
      var section := fields["skip-if"];
      match KeyIn("all-files-match-any", section)
      case None => Err(Malformed)
      case Some(false) => Ok(None)
      case Some(true) =>
        if !section.YMap? then Err(Malformed)
        else
          match SkipIfOf(section.fields["all-files-match-any"])
          case Ok(s) => Ok(Some(s))
          case Err(e) => Err(e)
  }

  /**
   * An entry the scripts turn into a filter: a mapping with a string name,
   * a non-empty list of string patterns and a skip-if section that parses.
   */
  predicate WellFormedEntry(item: Yaml) {
    && item.YMap?
    && "name" in item.fields && item.fields["name"].YStr?
    && "files" in item.fields && item.fields["files"].YList?
    && |item.fields["files"].items| > 0
    && Texts(item.fields["files"].items).Some?
    && ParseSkipIf(item.fields).Ok?
  }

  /**
   * One entry of the filter file: the checks in the scripts' order, then the
   * optional skip-if, then the filter itself.
   */
  function ParseEntry(item: Yaml): (r: Result<Filter, LoadError>)
    ensures item.YMap? && "name" !in item.fields ==> r == Err(MissingName)
    ensures item.YMap? && "name" in item.fields && "files" !in item.fields ==> r == Err(MissingFiles)
    ensures item.YMap? && "name" in item.fields && "files" in item.fields && !item.fields["files"].YList?
            ==> r == Err(FilesNotList)
    ensures item.YMap? && "name" in item.fields && "files" in item.fields && item.fields["files"] == YList([])
            ==> r == Err(FilesEmpty)
    ensures !item.YMap? ==>
              r == (if KeyIn("name", item) == Some(false) then Err(MissingName)
                    else if KeyIn("files", item) == Some(false) then Err(MissingFiles)
                    else Err(Malformed))
    ensures r.Ok? ==> item.YMap? && "name" in item.fields && item.fields["name"] == YStr(r.value.name)
    ensures r.Ok? ==> "files" in item.fields && item.fields["files"].YList?
                      && Texts(item.fields["files"].items) == Some(r.value.files) && |r.value.files| > 0
    ensures r.Ok? ==> (r.value.skipIf.Some? <==> HasSkipSection(item.fields))
                      && ParseSkipIf(item.fields) == Ok(r.value.skipIf)
    ensures r.Ok? <==> WellFormedEntry(item)
    ensures (item.YMap? && "name" in item.fields && "files" in item.fields && item.fields["files"].YList?
             && |item.fields["files"].items| > 0 && !WellFormedEntry(item)) ==> r == Err(Malformed)
  {
    match KeyIn("name", item)
    case None => Err(Malformed)
    case Some(false) => Err(MissingName)
    case Some(true) =>
      match KeyIn("files", item)
      case None => Err(Malformed)
      case Some(false) => Err(MissingFiles)
      case Some(true) =>
        if !item.YMap? then Err(Malformed)
        else
          var files := item.fields["files"];
          if !files.YList? then Err(FilesNotList)
          else if |files.items| == 0 then Err(FilesEmpty)
          else
            match ParseSkipIf(item.fields)
            case Err(e) => Err(e)
            case Ok(skipIf) =>
              var name := item.fields["name"];
              match Texts(files.items)
              case None => Err(Malformed)
              case Some(patterns) =>
                if name.YStr? then Ok(Filter(name.s, patterns, skipIf)) else Err(Malformed)
  }

  /** Entry `k` is the first entry that is refused. */
  predicate FirstRejected(items: seq<Yaml>, k: int) {
    0 <= k < |items| && ParseEntry(items[k]).Err?
    && forall j :: 0 <= j < k ==> ParseEntry(items[j]).Ok?
  }

  /** All entries, in order; the first refused entry decides the error. */
  function ParseAll(items: seq<Yaml>): (r: Result<seq<Filter>, LoadError>)
    ensures r.Ok? <==> forall i :: 0 <= i < |items| ==> ParseEntry(items[i]).Ok?
    ensures r.Ok? ==> |r.value| == |items|
                      && forall i :: 0 <= i < |items| ==> ParseEntry(items[i]) == Ok(r.value[i])
    ensures r.Err? ==> exists k :: FirstRejected(items, k) && r.error == ParseEntry(items[k]).error
    decreases |items|
  {
    if items == [] then Ok([])
    else
      match ParseEntry(items[0])
      case Err(e) =>
        assert FirstRejected(items, 0);
        Err(e)
      case Ok(f) =>
        match ParseAll(items[1..])
        case Err(e) =>
          var k :| FirstRejected(items[1..], k) && e == ParseEntry(items[1..][k]).error;
          assert FirstRejected(items, k + 1);
          Err(e)
        case Ok(fs) =>
          Ok([f] + fs)
  }

  /**
   * `load_filter_file` on a parsed document: an empty document and a
   * non-list are refused; otherwise one filter per entry, in file order.
   */
  function Load(doc: Yaml): (r: Result<seq<Filter>, LoadError>)
    ensures doc == YNull ==> r == Err(EmptyFile)
    ensures !doc.YNull? && !doc.YList? ==> r == Err(NotAList)
    ensures r.Ok? <==> doc.YList? && forall i :: 0 <= i < |doc.items| ==> ParseEntry(doc.items[i]).Ok?
    ensures r.Ok? ==> |r.value| == |doc.items|
                      && forall i :: 0 <= i < |doc.items| ==> ParseEntry(doc.items[i]) == Ok(r.value[i])
    ensures doc.YList? && r.Err? ==> exists k :: FirstRejected(doc.items, k) && r.error == ParseEntry(doc.items[k]).error
  {
    match doc
    case YNull => Err(EmptyFile)
    case YList(items) => ParseAll(items)
    case _ => Err(NotAList)
  }
}
