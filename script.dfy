/**
 * The body of find_string.py run as a script: validate `sys.argv`, search
 * `root_dir_path + directory` into a fresh `file_line_dict`, then report.
 * `os.walk` (with the contents of each file) is the function `walkOf`, from the
 * directory to walk to what it yields; `os.path.realpath(os.getcwd())` is
 * `rootDirPath`.
 */
module Script {
  import opened Wrappers
  import opened Search
  import opened Arguments
  import opened Reporting

  /** How a run ends: one of the argument exits, or a printed report. */
  datatype Outcome = Exited(exit: Exit) | Printed(report: Report)

  /** The outcome the script promises for a command line, a working directory and a file tree. */
  function Expected(argv: seq<string>, rootDirPath: string, walkOf: string -> seq<WalkEntry>): Outcome
    requires |argv| >= 1
  {
    match Validate(argv)
    case Failure(e) => Exited(e)
    case Success(config) =>
      var found := Traversed(map[], walkOf(rootDirPath + config.directory), config.term, config.fileExtension,
                             config.ignoreComments, config.caseInsensitive);
      Printed(BuildReport(found, config.term, rootDirPath))
  }

  /**
   * The script: a refused command line exits before any file is read; otherwise the
   * report lists exactly the files of the walk from `rootDirPath + directory` that pass
   * the extension filter and hold the term, sorted by path and numbered from 1.
   */
  method FindString(argv: seq<string>, rootDirPath: string, walkOf: string -> seq<WalkEntry>)
    returns (outcome: Outcome)
    requires |argv| >= 1
    ensures outcome == Expected(argv, rootDirPath, walkOf)
    ensures outcome.Exited? <==> Validate(argv).Failure?
  {
    var fileLineDict := new FileLineDict();
    var parsed := ParseArgs(argv);
    if parsed.Failure? {
      return Exited(parsed.error);
    }
    var config := parsed.value;
    var dirPath := rootDirPath + config.directory;
    TraverseFiles(walkOf(dirPath), config.term, config.fileExtension, config.ignoreComments,
                  config.caseInsensitive, fileLineDict);
    return Printed(BuildReport(fileLineDict.entries, config.term, rootDirPath));
  }
}
