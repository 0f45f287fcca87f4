/** What `search_file` and `traverse_files` promise, proved about their specification functions. */
module SearchProperties {
  import opened Text
  import opened Search

  /** A line number is recorded iff it names a line of the file that matches. */
  lemma {:induction false} MatchedLinesMembers(lines: seq<string>, term: string, ignoreComments: bool,
                                               caseInsensitive: bool, n: int)
    ensures n in MatchedLines(lines, term, ignoreComments, caseInsensitive)
            <==> 1 <= n <= |lines| && LineMatches(lines[n - 1], term, ignoreComments, caseInsensitive)
  {
    if lines != [] {
      var init := lines[..|lines| - 1];
      MatchedLinesMembers(init, term, ignoreComments, caseInsensitive, n);
      if 1 <= n < |lines| {
        assert init[n - 1] == lines[n - 1];
      }
    }
  }

  /** With `-i` a file never gets a line number it would not get without `-i`. */
  lemma IgnoreCommentsNarrows(lines: seq<string>, term: string, caseInsensitive: bool, n: int)
    requires n in MatchedLines(lines, term, true, caseInsensitive)
    ensures n in MatchedLines(lines, term, false, caseInsensitive)
  {
    MatchedLinesMembers(lines, term, true, caseInsensitive, n);
    MatchedLinesMembers(lines, term, false, caseInsensitive, n);
  }

  /**
   * Under `-c` only the lower-cased term matters: two terms with the same
   * lower-case form (`S`, `lower(S)`, `upper(S)`) record the same lines.
   */
  lemma {:induction false} CaseInsensitiveUsesLowerTerm(lines: seq<string>, term: string, other: string,
                                                        ignoreComments: bool)
    requires Lower(other) == Lower(term)
    ensures MatchedLines(lines, other, ignoreComments, true) == MatchedLines(lines, term, ignoreComments, true)
  {
    if lines != [] {
      CaseInsensitiveUsesLowerTerm(lines[..|lines| - 1], term, other, ignoreComments);
    }
  }

  /** In particular the term and its lower-cased form record the same lines under `-c`. */
  lemma CaseInsensitiveLowerTerm(lines: seq<string>, term: string, ignoreComments: bool)
    ensures MatchedLines(lines, Lower(term), ignoreComments, true) == MatchedLines(lines, term, ignoreComments, true)
  {
    LowerIdempotent(term);
    CaseInsensitiveUsesLowerTerm(lines, term, Lower(term), ignoreComments);
  }

  /** Under `-c` the upper-cased term records the same lines as the term itself. */
  lemma CaseInsensitiveUpperTerm(lines: seq<string>, term: string, ignoreComments: bool)
    ensures MatchedLines(lines, Upper(term), ignoreComments, true) == MatchedLines(lines, term, ignoreComments, true)
  {
    LowerUpper(term);
    CaseInsensitiveUsesLowerTerm(lines, term, Upper(term), ignoreComments);
  }

  /** Whether the walked file at index `i` is searched and has at least one matching line. */
  predicate Hit(walk: seq<WalkEntry>, i: int, term: string, fileExtension: string, ignoreComments: bool,
                caseInsensitive: bool)
    requires 0 <= i < |walk|
  {
    EndsWith(walk[i].fileName, fileExtension)
    && MatchedLines(walk[i].lines, term, ignoreComments, caseInsensitive) != []
  }

  /** One step of the traversal adds at most the path of the last walked file, and only on a hit. */
  lemma TraversedKeysStep(entries: map<string, seq<int>>, walk: seq<WalkEntry>, term: string,
                          fileExtension: string, ignoreComments: bool, caseInsensitive: bool, path: string)
    requires walk != []
    ensures path in Traversed(entries, walk, term, fileExtension, ignoreComments, caseInsensitive)
            <==> path in Traversed(entries, walk[..|walk| - 1], term, fileExtension, ignoreComments, caseInsensitive)
                 || (PathOf(walk[|walk| - 1]) == path
                     && Hit(walk, |walk| - 1, term, fileExtension, ignoreComments, caseInsensitive))
  {
  }

  /**
   * A path is in the dictionary after the traversal iff it was there before or it
   * is the path of a walked file that passes the extension filter and has a match.
   */
  lemma {:induction false} TraversedKeys(entries: map<string, seq<int>>, walk: seq<WalkEntry>, term: string,
                                         fileExtension: string, ignoreComments: bool, caseInsensitive: bool,
                                         path: string)
    ensures path in Traversed(entries, walk, term, fileExtension, ignoreComments, caseInsensitive)
            <==> path in entries
                 || exists i :: 0 <= i < |walk| && PathOf(walk[i]) == path
                                && Hit(walk, i, term, fileExtension, ignoreComments, caseInsensitive)
  {
    if walk != [] {
      var init := walk[..|walk| - 1];
      TraversedKeys(entries, init, term, fileExtension, ignoreComments, caseInsensitive, path);
      TraversedKeysStep(entries, walk, term, fileExtension, ignoreComments, caseInsensitive, path);
      if exists i :: 0 <= i < |walk| && PathOf(walk[i]) == path
                     && Hit(walk, i, term, fileExtension, ignoreComments, caseInsensitive) {
        var i :| 0 <= i < |walk| && PathOf(walk[i]) == path
                 && Hit(walk, i, term, fileExtension, ignoreComments, caseInsensitive);
        if i < |walk| - 1 {
          assert init[i] == walk[i];
          assert Hit(init, i, term, fileExtension, ignoreComments, caseInsensitive);
        }
      }
      if exists i :: 0 <= i < |init| && PathOf(init[i]) == path
                     && Hit(init, i, term, fileExtension, ignoreComments, caseInsensitive) {
        var i :| 0 <= i < |init| && PathOf(init[i]) == path
                 && Hit(init, i, term, fileExtension, ignoreComments, caseInsensitive);
        assert walk[i] == init[i];
        assert Hit(walk, i, term, fileExtension, ignoreComments, caseInsensitive);
      }
    }
  }

  /** The traversal only adds: every list the dictionary held is a prefix of the list it ends with. */
  lemma {:induction false} TraversedOnlyAppends(entries: map<string, seq<int>>, walk: seq<WalkEntry>, term: string,
                                                fileExtension: string, ignoreComments: bool, caseInsensitive: bool,
                                                path: string)
    requires path in entries
    ensures entries[path] <= Traversed(entries, walk, term, fileExtension, ignoreComments, caseInsensitive)[path]
  {
    if walk != [] {
      var init := walk[..|walk| - 1];
      TraversedOnlyAppends(entries, init, term, fileExtension, ignoreComments, caseInsensitive, path);
    }
  }

  /**
   * The extension filter only narrows: every path reported with `-e` is also
   * reported without it (the default extension `''` admits every file).
   */
  lemma ExtensionFilterNarrows(entries: map<string, seq<int>>, walk: seq<WalkEntry>, term: string,
                               fileExtension: string, ignoreComments: bool, caseInsensitive: bool, path: string)
    requires path in Traversed(entries, walk, term, fileExtension, ignoreComments, caseInsensitive)
    ensures path in Traversed(entries, walk, term, "", ignoreComments, caseInsensitive)
  {
    TraversedKeys(entries, walk, term, fileExtension, ignoreComments, caseInsensitive, path);
    TraversedKeys(entries, walk, term, "", ignoreComments, caseInsensitive, path);
    if path !in entries {
      var i :| 0 <= i < |walk| && PathOf(walk[i]) == path
               && Hit(walk, i, term, fileExtension, ignoreComments, caseInsensitive);
      assert Hit(walk, i, term, "", ignoreComments, caseInsensitive);
    }
  }

  /** No two walked files share a path, as `os.walk` guarantees. */
  predicate DistinctPaths(walk: seq<WalkEntry>) {
    forall i, j :: 0 <= i < j < |walk| ==> PathOf(walk[i]) != PathOf(walk[j])
  }

  /**
   * From the empty dictionary, each recorded path holds exactly the line numbers
   * `search_file` finds in that one file: numbers in 1..its line count, strictly increasing.
   */
  lemma {:induction false} TraversedFromEmpty(walk: seq<WalkEntry>, term: string, fileExtension: string,
                                              ignoreComments: bool, caseInsensitive: bool, i: int)
    requires DistinctPaths(walk)
    requires 0 <= i < |walk| && Hit(walk, i, term, fileExtension, ignoreComments, caseInsensitive)
    ensures var r := Traversed(map[], walk, term, fileExtension, ignoreComments, caseInsensitive);
            PathOf(walk[i]) in r && r[PathOf(walk[i])] == MatchedLines(walk[i].lines, term, ignoreComments, caseInsensitive)
  {
    var init := walk[..|walk| - 1];
    var path := PathOf(walk[i]);
    assert DistinctPaths(init) by {
      forall a, b | 0 <= a < b < |init| ensures PathOf(init[a]) != PathOf(init[b]) {
        assert init[a] == walk[a] && init[b] == walk[b];
      }
    }
    if i == |walk| - 1 {
      assert path !in Traversed(map[], init, term, fileExtension, ignoreComments, caseInsensitive) by {
        forall j | 0 <= j < |init|
          ensures PathOf(init[j]) != path
        {
          assert init[j] == walk[j];
        }
        TraversedKeys(map[], init, term, fileExtension, ignoreComments, caseInsensitive, path);
      }
    } else {
      assert init[i] == walk[i];
      TraversedFromEmpty(init, term, fileExtension, ignoreComments, caseInsensitive, i);
      assert PathOf(walk[|walk| - 1]) != path;
    }
  }

  /** The three lines of an example file `a.py`. */
  function ExampleFile(): seq<string> {
    ["line1\n", "crazy line2\n", "# crazy comment\n"]
  }

  lemma ExampleLineVerdicts(ignoreComments: bool)
    ensures !LineMatches(ExampleFile()[0], "crazy", ignoreComments, false)
    ensures LineMatches(ExampleFile()[1], "crazy", ignoreComments, false)
    ensures LineMatches(ExampleFile()[2], "crazy", ignoreComments, false) <==> !ignoreComments
  {
    var lines := ExampleFile();
    assert !Contains(lines[0], "crazy") by {
      assert lines[0][0..5][0] == 'l' && lines[0][1..6][0] == 'i';
      assert !OccursAt(lines[0], "crazy", 0) && !OccursAt(lines[0], "crazy", 1);
    }
    assert lines[1][0..5] == "crazy" && '#' !in lines[1];
    assert OccursAt(lines[1], "crazy", 0);
    assert lines[2][2..7] == "crazy";
    assert OccursAt(lines[2], "crazy", 2);
    assert lines[2][0] == '#' && BeforeFirst(lines[2], '#') == [];
  }

  /** The first two lines of the example file record line 2 only, with or without `-i`. */
  lemma ExampleFirstTwoLines(ignoreComments: bool)
    ensures MatchedLines(ExampleFile()[..2], "crazy", ignoreComments, false) == [2]
  {
    var lines := ExampleFile();
    assert MatchedLines(lines[..1], "crazy", ignoreComments, false) == [] by {
      ExampleLineVerdicts(ignoreComments);
      assert MatchedLines(lines[..0], "crazy", ignoreComments, false) == [];
      MatchedLinesStep(lines, 0, "crazy", ignoreComments, false);
    }
    ExampleLineVerdicts(ignoreComments);
    MatchedLinesStep(lines, 1, "crazy", ignoreComments, false);
  }

  /**
   * An example file `a.py` searched for `crazy` records lines 2 and 3,
   * and only line 2 with `-i`, since line 3 is a `#` comment.
   */
  lemma CommentLineExample(ignoreComments: bool)
    ensures MatchedLines(ExampleFile(), "crazy", ignoreComments, false) == if ignoreComments then [2] else [2, 3]
  {
    var lines := ExampleFile();
    assert lines[..3] == lines;
    assert MatchedLines(lines[..3], "crazy", ignoreComments, false) == if ignoreComments then [2] else [2, 3] by {
      ExampleFirstTwoLines(ignoreComments);
      ExampleLineVerdicts(ignoreComments);
      MatchedLinesStep(lines, 2, "crazy", ignoreComments, false);
    }
  }
}
