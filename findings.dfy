/**
 * `add_to_dictionary` as written tests membership in the module-level
 * `file_line_dict` rather than in its `dictionary` parameter. The two are one
 * object on the script's only call path; for any other dictionary (the default
 * `{}` of `traverse_files`, say) the outcome differs from the evident intent,
 * which `Search.AddToDictionary` models.
 */
module AsWritten {
  import opened Wrappers
  import opened Search

  /** What one call can end in: the updated parameter, or a Python error. */
  datatype AddOutcome =
    | Added(dictionary: map<string, seq<int>>)
    | KeyError      // `dictionary[file_path]` on a path only the global holds
    | NameError     // no global `file_line_dict`: the module was imported, not run

  /** `add_to_dictionary` as written; `fileLineDict` is the global, `None` when it does not exist. */
  function AddToDictionaryAsWritten(fileLineDict: Option<map<string, seq<int>>>, dictionary: map<string, seq<int>>,
                                    filePath: string, lineCount: int): (r: AddOutcome)
    ensures r.NameError? <==> fileLineDict.None?
    ensures r.KeyError? <==> fileLineDict.Some? && filePath in fileLineDict.value && filePath !in dictionary
    ensures fileLineDict.Some? && filePath !in fileLineDict.value ==> r == Added(dictionary[filePath := [lineCount]])
    ensures r.Added? ==> filePath in r.dictionary && r.dictionary[filePath] != []
                         && r.dictionary[filePath][|r.dictionary[filePath]| - 1] == lineCount
    ensures r.Added? ==> forall p :: p != filePath ==> (p in r.dictionary <==> p in dictionary)
    ensures fileLineDict.Some? && filePath in fileLineDict.value && filePath in dictionary
            ==> r.Added? && |r.dictionary[filePath]| == |dictionary[filePath]| + 1
                && dictionary[filePath] <= r.dictionary[filePath]
  {
    match fileLineDict
    case None => NameError
    case Some(global) =>
      if filePath in global then
        if filePath in dictionary then Added(dictionary[filePath := dictionary[filePath] + [lineCount]])
        else KeyError
      else Added(dictionary[filePath := [lineCount]])
  }

  /** When the parameter is the global itself, as-written and intended agree. */
  lemma AgreesWhenAliased(dictionary: map<string, seq<int>>, filePath: string, lineCount: int)
    ensures AddToDictionaryAsWritten(Some(dictionary), dictionary, filePath, lineCount)
            == Added(dictionary[filePath := AppendedList(dictionary, filePath, lineCount)])
  {
  }

  /**
   * With a dictionary other than the (empty) global, a second match in the same
   * file replaces the first: lines 1 and 2 leave `[2]`, where the intended
   * update leaves `[1, 2]`.
   */
  lemma SecondMatchOverwritesFirst(filePath: string)
    ensures var first := AddToDictionaryAsWritten(Some(map[]), map[], filePath, 1);
            first == Added(map[filePath := [1]])
            && AddToDictionaryAsWritten(Some(map[]), first.dictionary, filePath, 2) == Added(map[filePath := [2]])
    ensures var first := map[][filePath := AppendedList(map[], filePath, 1)];
            first[filePath := AppendedList(first, filePath, 2)] == map[filePath := [1, 2]]
  {
    var first := map[][filePath := AppendedList(map[], filePath, 1)];
    assert AppendedList(first, filePath, 2) == [1] + [2] == [1, 2];
  }
}
