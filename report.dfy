/**
 * The report find_string.py prints after the search: "not found" for an empty
 * dictionary, otherwise the number of files and one numbered row per file, in
 * the order of `sorted(file_line_dict.items())`, each path shown relative to the
 * working directory. The printed text itself is not modelled; the rows are.
 */
module Reporting {
  import opened Text

  /**
   * One printed row, `<number>. <shownPath> -> lines: <lineNumbers>`, together
   * with the dictionary key it comes from, by which the rows are ordered.
   */
  datatype Row = Row(number: nat, key: string, shownPath: string, lineNumbers: seq<int>)

  datatype Report =
    | NotFound(term: string)
    | Found(term: string, fileCount: nat, rows: seq<Row>)

  /** `key[len(root_dir_path)+1:]`, with Python's slice giving `''` past the end. */
  function Shown(path: string, rootDirPath: string): (r: string)
    ensures |r| <= |path| && path[|path| - |r|..] == r
    ensures |rootDirPath| + 1 <= |path| ==> |r| == |path| - |rootDirPath| - 1
    ensures |path| < |rootDirPath| + 1 ==> r == []
  {
    if |rootDirPath| + 1 <= |path| then path[|rootDirPath| + 1..] else ""
  }

  /** A path built under the root as `root + '/' + rest` is shown as `rest`. */
  lemma ShownUnderRoot(rootDirPath: string, rest: string)
    ensures Shown(rootDirPath + "/" + rest, rootDirPath) == rest
  {
  }

  /** `least` is in `paths` and below every other member. */
  predicate IsLeast(least: string, paths: set<string>) {
    least in paths && forall p :: p in paths && p != least ==> Below(least, p)
  }

  /** At most one member of a set is its least. */
  lemma LeastUnique(paths: set<string>)
    ensures forall a, b :: IsLeast(a, paths) && IsLeast(b, paths) ==> a == b
  {
    forall a, b | IsLeast(a, paths) && IsLeast(b, paths)
      ensures a == b
    {
      if a != b {
        BelowTransitive(a, b, a);
        BelowIrreflexive(a);
      }
    }
  }

  /** A finite set of strings has a least element under Python's string order. */
  lemma {:induction false} LeastExists(paths: set<string>)
    requires paths != {}
    ensures exists least :: IsLeast(least, paths)
    decreases |paths|
  {
    var some :| some in paths;
    var rest := paths - {some};
    if rest == {} {
      forall p | p in paths
        ensures p == some
      {
        assert p !in rest;
      }
      assert IsLeast(some, paths);
    } else {
      LeastExists(rest);
      var least :| IsLeast(least, rest);
      if Below(least, some) {
        assert IsLeast(least, paths);
      } else {
        BelowTotal(least, some);
        forall p | p in paths && p != some
          ensures Below(some, p)
        {
          if p != least {
            BelowTransitive(some, least, p);
          }
        }
        assert IsLeast(some, paths);
      }
    }
  }

  /** The paths in increasing order, each exactly once: the key order of `sorted`. */
  function SortedPaths(paths: set<string>): (r: seq<string>)
    ensures |r| == |paths|
    ensures forall p :: p in r <==> p in paths
    ensures forall i, j :: 0 <= i < j < |r| ==> Below(r[i], r[j])
    decreases |paths|
  {
    if paths == {} then []
    else
      LeastExists(paths);
      LeastUnique(paths);
      var least :| IsLeast(least, paths);
      SortedFirst(least, paths, SortedPaths(paths - {least}));
      [least] + SortedPaths(paths - {least})
  }

  /** A least element before the sorted rest of the set keeps the sequence sorted. */
  lemma SortedFirst(least: string, paths: set<string>, rest: seq<string>)
    requires least in paths && forall p :: p in paths && p != least ==> Below(least, p)
    requires forall p :: p in rest <==> p in paths - {least}
    requires forall i, j :: 0 <= i < j < |rest| ==> Below(rest[i], rest[j])
    ensures forall i, j :: 0 <= i < j < |[least] + rest| ==> Below(([least] + rest)[i], ([least] + rest)[j])
  {
    var s := [least] + rest;
    forall i, j | 0 <= i < j < |s|
      ensures Below(s[i], s[j])
    {
      if i == 0 {
        assert s[j] == rest[j - 1] && rest[j - 1] in rest;
      } else {
        assert s[i] == rest[i - 1] && s[j] == rest[j - 1];
      }
    }
  }

  /** The rows for `paths` in order, numbered from `first`, each path shown relative to `rootDirPath`. */
  function RowsFrom(entries: map<string, seq<int>>, paths: seq<string>, first: nat, rootDirPath: string): (rows: seq<Row>)
    requires forall p :: p in paths ==> p in entries
    ensures |rows| == |paths|
    ensures forall i :: 0 <= i < |rows| ==>
              rows[i] == Row(first + i, paths[i], Shown(paths[i], rootDirPath), entries[paths[i]])
  {
    if paths == [] then []
    else [Row(first, paths[0], Shown(paths[0], rootDirPath), entries[paths[0]])]
         + RowsFrom(entries, paths[1..], first + 1, rootDirPath)
  }

  /** Rows built from a sequence holding every key of the dictionary have a row for every key. */
  lemma RowsCoverKeys(entries: map<string, seq<int>>, paths: seq<string>, rows: seq<Row>)
    requires forall p :: p in entries ==> p in paths
    requires |rows| == |paths| && forall i :: 0 <= i < |rows| ==> rows[i].key == paths[i]
    ensures forall p :: p in entries ==> exists i :: 0 <= i < |rows| && rows[i].key == p
  {
    forall p | p in entries
      ensures exists i :: 0 <= i < |rows| && rows[i].key == p
    {
      var i :| 0 <= i < |paths| && paths[i] == p;
      assert rows[i].key == p;
    }
  }

  /**
   * What the rows of a report promise: one per key, numbered from 1, in increasing
   * key order, each showing its key relative to the root with the key's line list.
   */
  predicate ReportRows(entries: map<string, seq<int>>, rootDirPath: string, rows: seq<Row>)
  {
    && |rows| == |entries|
    && (forall i :: 0 <= i < |rows| ==>
          rows[i].number == i + 1 && rows[i].key in entries
          && rows[i].shownPath == Shown(rows[i].key, rootDirPath)
          && rows[i].lineNumbers == entries[rows[i].key])
    && (forall i, j :: 0 <= i < j < |rows| ==> Below(rows[i].key, rows[j].key))
    && (forall p :: p in entries ==> exists i :: 0 <= i < |rows| && rows[i].key == p)
  }

  /** Rows built from any ordering of exactly the keys, each once, keep every promise of a report. */
  lemma OrderedRows(entries: map<string, seq<int>>, paths: seq<string>, rootDirPath: string)
    requires |paths| == |entries|
    requires forall p :: p in paths <==> p in entries
    requires forall i, j :: 0 <= i < j < |paths| ==> Below(paths[i], paths[j])
    ensures ReportRows(entries, rootDirPath, RowsFrom(entries, paths, 1, rootDirPath))
  {
    var rows := RowsFrom(entries, paths, 1, rootDirPath);
    forall i | 0 <= i < |rows|
      ensures rows[i].number == i + 1 && rows[i].key in entries
              && rows[i].shownPath == Shown(rows[i].key, rootDirPath)
              && rows[i].lineNumbers == entries[rows[i].key]
    {
      assert paths[i] in paths;
    }
    forall i, j | 0 <= i < j < |rows|
      ensures Below(rows[i].key, rows[j].key)
    {
      assert rows[i].key == paths[i] && rows[j].key == paths[j];
    }
    RowsCoverKeys(entries, paths, rows);
  }

  /** The rows built from the sorted keys keep every promise of a report. */
  lemma SortedRows(entries: map<string, seq<int>>, rootDirPath: string)
    ensures ReportRows(entries, rootDirPath, RowsFrom(entries, SortedPaths(entries.Keys), 1, rootDirPath))
  {
    var paths := SortedPaths(entries.Keys);
    assert |paths| == |entries.Keys| == |entries|;
    OrderedRows(entries, paths, rootDirPath);
  }

  /**
   * The report for the final dictionary: "not found" when it is empty, otherwise
   * its size and one row per key, numbered from 1 in increasing key order, each
   * showing the key with the root prefix and its slash sliced off.
   */
  function BuildReport(entries: map<string, seq<int>>, term: string, rootDirPath: string): (r: Report)
    ensures r.NotFound? <==> entries == map[]
    ensures r.term == term
    ensures r.Found? ==> r.fileCount == |entries| && ReportRows(entries, rootDirPath, r.rows)
  {
    if entries == map[] then
      NotFound(term)
    else
      SortedRows(entries, rootDirPath);
      Found(term, |entries|, RowsFrom(entries, SortedPaths(entries.Keys), 1, rootDirPath))
  }
}
