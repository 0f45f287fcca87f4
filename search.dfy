/**
 * The search engine of find_string.py: `traverse_files`, `search_file` and
 * `add_to_dictionary`, which fill one dictionary from file path to the line
 * numbers (counted from 1) of the lines that hold the search string.
 *
 * The directory walk and the file contents are inputs: `os.walk` becomes a
 * sequence of `WalkEntry` values, each carrying the lines `open` would yield.
 */
module Search {
  import opened Text

  /** One file that `os.walk` yields: its directory, its name and its lines. */
  datatype WalkEntry = WalkEntry(root: string, fileName: string, lines: seq<string>)

  /** The path `traverse_files` builds for a walked file: `root + '/' + file_name`. */
  function PathOf(entry: WalkEntry): (r: string)
    ensures |r| == |entry.root| + 1 + |entry.fileName| && r[|entry.root|] == '/'
  {
    entry.root + "/" + entry.fileName
  }

  /** The path of a walked file splits back into its directory, a slash and its name. */
  lemma PathOfSplits(entry: WalkEntry)
    ensures PathOf(entry)[..|entry.root|] == entry.root && PathOf(entry)[|entry.root| + 1..] == entry.fileName
  {
  }

  /**
   * The per-line test of `search_file`, on an already case-folded line and term:
   * the term must occur in the line, and with `ignoreComments` a line that holds
   * a `#` counts only when the term occurs before its first `#`.
   */
  predicate Counts(line: string, term: string, ignoreComments: bool): (r: bool)
    ensures r ==> Contains(line, term)
    ensures !ignoreComments ==> (r <==> Contains(line, term))
    ensures ignoreComments ==> (r <==> Contains(BeforeFirst(line, '#'), term))
    ensures '#' !in line ==> (r <==> Contains(line, term))
  {
    ContainsBeforeFirst(line, term, '#');
    Contains(line, term) && (ignoreComments && '#' in line ==> Contains(BeforeFirst(line, '#'), term))
  }

  /** The comparison copy of a line or of the term: lower-cased under `-c`. */
  function Fold(s: string, caseInsensitive: bool): string {
    if caseInsensitive then Lower(s) else s
  }

  /** Whether `search_file` records a line. */
  predicate LineMatches(line: string, term: string, ignoreComments: bool, caseInsensitive: bool): (r: bool)
    ensures r ==> Contains(Fold(line, caseInsensitive), Fold(term, caseInsensitive))
    ensures !ignoreComments ==> (r <==> Contains(Fold(line, caseInsensitive), Fold(term, caseInsensitive)))
    ensures ignoreComments
            ==> (r <==> Contains(BeforeFirst(Fold(line, caseInsensitive), '#'), Fold(term, caseInsensitive)))
  {
    Counts(Fold(line, caseInsensitive), Fold(term, caseInsensitive), ignoreComments)
  }

  /**
   * The line numbers `search_file` records for a file, in the order it records them.
   * Every number lies in 1..|lines| and the list is strictly increasing.
   */
  function MatchedLines(lines: seq<string>, term: string, ignoreComments: bool, caseInsensitive: bool): (r: seq<int>)
    ensures forall i :: 0 <= i < |r| ==> 1 <= r[i] <= |lines|
    ensures forall i, j :: 0 <= i < j < |r| ==> r[i] < r[j]
  {
    if lines == [] then []
    else
      MatchedLines(lines[..|lines| - 1], term, ignoreComments, caseInsensitive)
      + if LineMatches(lines[|lines| - 1], term, ignoreComments, caseInsensitive) then [|lines|] else []
  }

  /** The dictionary after the numbers `ns` have been added for `path` one by one. */
  function Recorded(entries: map<string, seq<int>>, path: string, ns: seq<int>): (r: map<string, seq<int>>)
    ensures entries.Keys <= r.Keys
  {
    if ns == [] then entries
    else entries[path := (if path in entries then entries[path] else []) + ns]
  }

  /**
   * The dictionary after `traverse_files` has searched every walked file whose name
   * ends with `fileExtension`; no key is lost.
   */
  function Traversed(entries: map<string, seq<int>>, walk: seq<WalkEntry>, term: string, fileExtension: string,
                     ignoreComments: bool, caseInsensitive: bool): (r: map<string, seq<int>>)
    ensures entries.Keys <= r.Keys
  {
    if walk == [] then entries
    else
      var before := Traversed(entries, walk[..|walk| - 1], term, fileExtension, ignoreComments, caseInsensitive);
      var entry := walk[|walk| - 1];
      if EndsWith(entry.fileName, fileExtension)
      then Recorded(before, PathOf(entry), MatchedLines(entry.lines, term, ignoreComments, caseInsensitive))
      else before
  }

  /** The dictionary `file_line_dict`, which the search functions update in place. */
  class FileLineDict {
    var entries: map<string, seq<int>>

    /** `dict()`: an empty dictionary. */
    constructor ()
      ensures entries == map[]
    {
      entries := map[];
    }
  }

  /** The list of `filePath` with `lineCount` at its end; a new list `[lineCount]` for a path not yet present. */
  function AppendedList(entries: map<string, seq<int>>, filePath: string, lineCount: int): (r: seq<int>)
    ensures |r| > 0 && r[|r| - 1] == lineCount
    ensures filePath in entries ==> r[..|r| - 1] == entries[filePath]
    ensures filePath !in entries ==> r == [lineCount]
  {
    (if filePath in entries then entries[filePath] else []) + [lineCount]
  }

  /**
   * `add_to_dictionary`: appends `lineCount` to the list of an existing path,
   * or creates the path with the list `[lineCount]`; no other path changes.
   */
  method AddToDictionary(filePath: string, lineCount: int, dictionary: FileLineDict)
    modifies dictionary
    ensures dictionary.entries == old(dictionary.entries)[filePath := AppendedList(old(dictionary.entries), filePath, lineCount)]
    ensures dictionary.entries.Keys == old(dictionary.entries).Keys + {filePath}
    ensures forall p :: p in old(dictionary.entries) && p != filePath ==> dictionary.entries[p] == old(dictionary.entries)[p]
  {
    if filePath in dictionary.entries {
      dictionary.entries := dictionary.entries[filePath := dictionary.entries[filePath] + [lineCount]];
    } else {
      dictionary.entries := dictionary.entries[filePath := [lineCount]];
    }
  }

  /** Adding one more number to the numbers already recorded for a path. */
  lemma RecordedStep(entries: map<string, seq<int>>, path: string, ns: seq<int>, n: int)
    ensures var e := Recorded(entries, path, ns);
            Recorded(entries, path, ns + [n]) == e[path := AppendedList(e, path, n)]
  {
    var old0 := if path in entries then entries[path] else [];
    if ns == [] {
      assert ns + [n] == [n];
      assert Recorded(entries, path, ns + [n]) == entries[path := old0 + [n]];
    } else {
      var e := entries[path := old0 + ns];
      assert old0 + (ns + [n]) == (old0 + ns) + [n];
      assert AppendedList(e, path, n) == (old0 + ns) + [n];
      assert e[path := (old0 + ns) + [n]] == entries[path := (old0 + ns) + [n]];
    }
  }

  /** Reading one more line appends its number when it matches. */
  lemma MatchedLinesStep(lines: seq<string>, k: nat, term: string, ignoreComments: bool, caseInsensitive: bool)
    requires k < |lines|
    ensures MatchedLines(lines[..k + 1], term, ignoreComments, caseInsensitive)
            == MatchedLines(lines[..k], term, ignoreComments, caseInsensitive)
               + if LineMatches(lines[k], term, ignoreComments, caseInsensitive) then [k + 1] else []
  {
    assert lines[..k + 1][..k] == lines[..k];
  }

  /**
   * Reading line `k + 1` leaves the recorded dictionary as it was, or, when the line
   * matches, appends `k + 1` to the list under `path`.
   */
  lemma RecordedLineStep(entries: map<string, seq<int>>, path: string, lines: seq<string>, k: nat, term: string,
                         ignoreComments: bool, caseInsensitive: bool)
    requires k < |lines|
    ensures var e := Recorded(entries, path, MatchedLines(lines[..k], term, ignoreComments, caseInsensitive));
            Recorded(entries, path, MatchedLines(lines[..k + 1], term, ignoreComments, caseInsensitive))
            == if LineMatches(lines[k], term, ignoreComments, caseInsensitive)
               then e[path := AppendedList(e, path, k + 1)]
               else e
  {
    var before := MatchedLines(lines[..k], term, ignoreComments, caseInsensitive);
    MatchedLinesStep(lines, k, term, ignoreComments, caseInsensitive);
    RecordedStep(entries, path, before, k + 1);
    assert before + [] == before;
  }

  /**
   * `search_file`: reads the lines one by one, counting them from 1, and adds the
   * number of every matching line to the dictionary under `filePath`. Under `-c` the
   * source lower-cases the term again on every line; lower-casing is idempotent, so
   * every line is compared against `Lower(term)`.
   */
  method SearchFile(filePath: string, lines: seq<string>, term: string, ignoreComments: bool,
                    caseInsensitive: bool, dictionary: FileLineDict)
    modifies dictionary
    ensures dictionary.entries
            == Recorded(old(dictionary.entries), filePath, MatchedLines(lines, term, ignoreComments, caseInsensitive))
  {
    var lineCount := 0;
    var searched := term;
    while lineCount < |lines|
      invariant 0 <= lineCount <= |lines|
      invariant searched == if caseInsensitive && lineCount > 0 then Lower(term) else term
      invariant dictionary.entries
                == Recorded(old(dictionary.entries), filePath,
                            MatchedLines(lines[..lineCount], term, ignoreComments, caseInsensitive))
    {
      var line := lines[lineCount];
      RecordedLineStep(old(dictionary.entries), filePath, lines, lineCount, term, ignoreComments, caseInsensitive);
      ghost var matched := LineMatches(lines[lineCount], term, ignoreComments, caseInsensitive);
      lineCount := lineCount + 1;
      if caseInsensitive {
        LowerIdempotent(term);
        searched := Lower(searched);
        line := Lower(line);
      }
      assert searched == Fold(term, caseInsensitive) && line == Fold(lines[lineCount - 1], caseInsensitive);
      if Contains(line, searched) {
        if ignoreComments && '#' in line {
          var preCommentLine := BeforeFirst(line, '#');
          if Contains(preCommentLine, searched) {
            assert matched;
            AddToDictionary(filePath, lineCount, dictionary);
          } else {
            assert !matched;
          }
        } else {
          assert matched;
          AddToDictionary(filePath, lineCount, dictionary);
        }
      } else {
        assert !matched;
      }
    }
    assert lines[..lineCount] == lines;
  }

  /**
   * `traverse_files`: every walked file whose name ends with `fileExtension` is
   * searched under the path `root + '/' + file_name`, in walk order.
   */
  method TraverseFiles(walk: seq<WalkEntry>, term: string, fileExtension: string, ignoreComments: bool,
                       caseInsensitive: bool, dictionary: FileLineDict)
    modifies dictionary
    ensures dictionary.entries
            == Traversed(old(dictionary.entries), walk, term, fileExtension, ignoreComments, caseInsensitive)
  {
    for k := 0 to |walk|
      invariant dictionary.entries
                == Traversed(old(dictionary.entries), walk[..k], term, fileExtension, ignoreComments, caseInsensitive)
    {
      assert walk[..k + 1][..k] == walk[..k];
      var entry := walk[k];
      if EndsWith(entry.fileName, fileExtension) {
        var filePath := entry.root + "/" + entry.fileName;
        SearchFile(filePath, entry.lines, term, ignoreComments, caseInsensitive, dictionary);
      }
    }
    assert walk[..|walk|] == walk;
  }
}
