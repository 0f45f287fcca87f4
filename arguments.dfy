/**
 * The command-line handling of find_string.py's script body: the argc bounds,
 * `-h`, and the `for index, arg in enumerate(sys.argv)` loop that validates every
 * argument and collects the extension, the directory and the two flags.
 * Every exit of that loop (`sys.exit`, and an `IndexError` turned into the usage
 * exit) is an `Exit` value.
 */
module Arguments {
  import opened Wrappers
  import opened Text

  /** Why the script stops before searching. */
  datatype Exit =
    | Usage                         // the usage line, also for every `IndexError`
    | Help                          // the module docstring, for `-h` as first argument
    | BadExtension(value: string)   // "<value> is not a recognized file extension"

  /** What the script searches with once the arguments are accepted. */
  datatype Config = Config(term: string, fileExtension: string, directory: string,
                           ignoreComments: bool, caseInsensitive: bool)

  /** The dash-arguments the loop accepts. */
  const Flags: set<string> := {"-e", "-d", "-i", "-c"}

  /** `'/' + directory.strip('/')`. */
  function NormaliseDirectory(directory: string): (r: string)
    ensures r != [] && r[0] == '/'
    ensures |r| > 1 ==> r[1] != '/' && r[|r| - 1] != '/'
  {
    StripIdempotent(directory, '/');
    "/" + Strip(directory, '/')
  }

  /**
   * The exit the loop takes at argument `i`, or `None` when it goes on; this depends
   * only on the argument, its neighbours and its position, never on what earlier
   * arguments set. The checks come in the order of the loop body.
   */
  function Fault(argv: seq<string>, i: nat): (r: Option<Exit>)
    requires i < |argv|
    ensures r.Some? && r.value.BadExtension?
            ==> argv[i] == "-e" && i + 1 < |argv| && r.value.value == argv[i + 1]
                && argv[i + 1] != "" && argv[i + 1][0] != '.'
    ensures r.None? ==> argv[i] != "" && (argv[i][0] == '-' ==> argv[i] in Flags)
    ensures r.None? && argv[i] == "-e" ==> i + 1 < |argv| && argv[i + 1] != "" && argv[i + 1][0] == '.'
    ensures r.None? && argv[i] == "-d" ==> i + 1 < |argv|
    ensures r.None? && 1 < i && argv[i][0] != '-' ==> argv[i - 1] in Flags
  {
    var arg := argv[i];
    var hasNext := i + 1 < |argv|;
    if arg == "-e" && (!hasNext || argv[i + 1] == "") then Some(Usage)
    else if arg == "-e" && argv[i + 1][0] != '.' then Some(BadExtension(argv[i + 1]))
    else if arg == "-d" && !hasNext then Some(Usage)
    else if (arg == "-i" || arg == "-c") && hasNext && argv[i + 1] != ""
            && argv[i + 1][0] != '-' && |argv[i + 1]| != 2 then Some(Usage)
    else if arg == "" then Some(Usage)
    else if arg[0] == '-' && arg !in Flags then Some(Usage)
    else if arg[0] != '-' && i > 1 && argv[i - 1] !in Flags then Some(Usage)
    else None
  }

  /** The exit of the first faulty argument from index `i` on. */
  function FirstFault(argv: seq<string>, i: nat): (r: Option<Exit>)
    requires i <= |argv|
    ensures r.Some? ==> exists j :: i <= j < |argv| && Fault(argv, j) == r
                                    && forall k :: i <= k < j ==> Fault(argv, k) == None
    decreases |argv| - i
  {
    if i == |argv| then None
    else if Fault(argv, i).Some? then Fault(argv, i)
    else FirstFault(argv, i + 1)
  }

  /** No `flag` with a value after it lies between index `j` and the first `n` arguments' end. */
  predicate NoFlagAfter(argv: seq<string>, flag: string, j: nat, n: nat) {
    forall k :: j < k < n && k + 1 < |argv| ==> argv[k] != flag
  }

  /** The argument after the last `flag` among the first `n` arguments, if any. */
  function LastValue(argv: seq<string>, flag: string, n: nat): (r: Option<string>)
    requires n <= |argv|
    ensures r.None? <==> forall j :: 0 <= j < n && j + 1 < |argv| ==> argv[j] != flag
    ensures r.Some? ==> exists j :: 0 <= j < n && j + 1 < |argv| && argv[j] == flag && argv[j + 1] == r.value
                                    && NoFlagAfter(argv, flag, j, n)
  {
    if n == 0 then None
    else if argv[n - 1] == flag && n < |argv| then Some(argv[n])
    else LastValue(argv, flag, n - 1)
  }

  /** The extension the loop has set after `n` arguments: `''` until some `-e`. */
  function ExtensionAfter(argv: seq<string>, n: nat): (r: string)
    requires n <= |argv|
    ensures LastValue(argv, "-e", n).None? ==> r == ""
    ensures LastValue(argv, "-e", n).Some? ==> r == LastValue(argv, "-e", n).value
  {
    match LastValue(argv, "-e", n)
    case None => ""
    case Some(v) => v
  }

  /** The directory the loop has set after `n` arguments: `''` until some `-d`. */
  function DirectoryAfter(argv: seq<string>, n: nat): (r: string)
    requires n <= |argv|
    ensures r == "" <==> LastValue(argv, "-d", n).None?
    ensures r != "" ==> r[0] == '/'
  {
    match LastValue(argv, "-d", n)
    case None => ""
    case Some(v) => NormaliseDirectory(v)
  }

  /** Whether `flag` is among the first `n` arguments: the loop's flag once it has read them. */
  predicate Given(argv: seq<string>, flag: string, n: nat)
    requires n <= |argv|
  {
    n > 0 && (argv[n - 1] == flag || Given(argv, flag, n - 1))
  }

  /** The flag is on after `n` arguments iff it occurs among them. */
  lemma {:induction false} GivenIn(argv: seq<string>, flag: string, n: nat)
    requires n <= |argv|
    ensures Given(argv, flag, n) <==> flag in argv[..n]
  {
    if n > 0 {
      GivenIn(argv, flag, n - 1);
      assert argv[..n] == argv[..n - 1] + [argv[n - 1]];
    }
  }

  /**
   * What the script makes of `sys.argv`: the usage exit for too few or too many
   * arguments, the help exit for `-h` first, the exit of the first faulty argument,
   * and otherwise the term `argv[1]` with the last `-e` and `-d` values and the flags.
   */
  function Validate(argv: seq<string>): (r: Result<Config, Exit>)
    requires |argv| >= 1
    ensures r.Failure? <==> |argv| == 1 || |argv| > 8 || argv[1] == "-h"
                            || exists i :: 0 <= i < |argv| && Fault(argv, i).Some?
    ensures r.Success? ==> r.value.term == argv[1]
  {
    FirstFaultNone(argv, 0);
    if |argv| == 1 || |argv| > 8 then Failure(Usage)
    else if argv[1] == "-h" then Failure(Help)
    else match FirstFault(argv, 0)
      case Some(e) => Failure(e)
      case None => Success(Config(argv[1], ExtensionAfter(argv, |argv|), DirectoryAfter(argv, |argv|),
                                  "-i" in argv, "-c" in argv))
  }

  /** No exit from index `i` on iff every argument from `i` on passes its checks. */
  lemma {:induction false} FirstFaultNone(argv: seq<string>, i: nat)
    requires i <= |argv|
    ensures FirstFault(argv, i) == None <==> forall j :: i <= j < |argv| ==> Fault(argv, j) == None
    decreases |argv| - i
  {
    if i < |argv| {
      FirstFaultNone(argv, i + 1);
    }
  }

  /** When the arguments before `i` are all fine, the first fault is found from `i` on. */
  lemma {:induction false} FirstFaultFrom(argv: seq<string>, i: nat)
    requires i <= |argv|
    requires forall j :: 0 <= j < i ==> Fault(argv, j) == None
    ensures FirstFault(argv, 0) == FirstFault(argv, i)
  {
    if i > 0 {
      FirstFaultFrom(argv, i - 1);
    }
  }

  /** Whether the first `n` arguments all pass their checks: what the loop knows after reading them. */
  predicate Passes(argv: seq<string>, n: nat)
    requires n <= |argv|
  {
    n == 0 || (Passes(argv, n - 1) && Fault(argv, n - 1) == None)
  }

  /** The first `n` arguments pass iff each of them does. */
  lemma {:induction false} PassesEach(argv: seq<string>, n: nat)
    requires n <= |argv|
    ensures Passes(argv, n) <==> forall j :: 0 <= j < n ==> Fault(argv, j) == None
  {
    if n > 0 {
      PassesEach(argv, n - 1);
    }
  }

  /** Past the count and help checks, with the arguments before `i` all fine, a fault at `i` is the exit. */
  lemma FaultDecides(argv: seq<string>, i: nat)
    requires 2 <= |argv| <= 8 && argv[1] != "-h" && i < |argv|
    requires Passes(argv, i)
    ensures Fault(argv, i).Some? ==> Validate(argv) == Failure(Fault(argv, i).value)
  {
    PassesEach(argv, i);
    FirstFaultFrom(argv, i);
  }

  /** Past the count and help checks, with every argument passing, the script accepts the values after the last argument. */
  lemma ValidateAccepts(argv: seq<string>)
    requires 2 <= |argv| <= 8 && argv[1] != "-h"
    requires Passes(argv, |argv|)
    ensures Validate(argv) == Success(Config(argv[1], ExtensionAfter(argv, |argv|), DirectoryAfter(argv, |argv|),
                                             Given(argv, "-i", |argv|), Given(argv, "-c", |argv|)))
  {
    PassesEach(argv, |argv|);
    FirstFaultFrom(argv, |argv|);
    GivenIn(argv, "-i", |argv|);
    GivenIn(argv, "-c", |argv|);
    assert argv[..|argv|] == argv;
  }

  /** What one more argument does to the values the loop keeps. */
  lemma ArgumentStep(argv: seq<string>, i: nat)
    requires i < |argv|
    ensures argv[i] == "-e" && i + 1 < |argv| ==> ExtensionAfter(argv, i + 1) == argv[i + 1]
    ensures argv[i] != "-e" ==> ExtensionAfter(argv, i + 1) == ExtensionAfter(argv, i)
    ensures argv[i] == "-d" && i + 1 < |argv| ==> DirectoryAfter(argv, i + 1) == NormaliseDirectory(argv[i + 1])
    ensures argv[i] != "-d" ==> DirectoryAfter(argv, i + 1) == DirectoryAfter(argv, i)
  {
  }

  /**
   * One pass of the loop body on `argv[index]`, given the values the loop holds
   * before it: the exit it takes, or the extension, directory and flags after it.
   */
  method ParseArgument(argv: seq<string>, index: nat, fileExtension: string, directory: string,
                       ignoreComments: bool, caseInsensitive: bool)
    returns (exit: Option<Exit>, fileExtension': string, directory': string,
             ignoreComments': bool, caseInsensitive': bool)
    requires index < |argv|
    requires fileExtension == ExtensionAfter(argv, index) && directory == DirectoryAfter(argv, index)
    requires ignoreComments == Given(argv, "-i", index) && caseInsensitive == Given(argv, "-c", index)
    ensures exit == Fault(argv, index)
    ensures exit.None? ==> fileExtension' == ExtensionAfter(argv, index + 1)
                           && directory' == DirectoryAfter(argv, index + 1)
                           && ignoreComments' == Given(argv, "-i", index + 1)
                           && caseInsensitive' == Given(argv, "-c", index + 1)
  {
    ArgumentStep(argv, index);
    fileExtension', directory', ignoreComments', caseInsensitive' := fileExtension, directory, ignoreComments, caseInsensitive;
    var arg := argv[index];
    if arg == "-e" {
      if index + 1 >= |argv| {
        exit := Some(Usage);           // IndexError: no value after -e
        return;
      }
      fileExtension' := argv[index + 1];
      if |fileExtension'| == 0 {
        exit := Some(Usage);           // IndexError: empty value after -e
        return;
      }
      if fileExtension'[0] != '.' {
        exit := Some(BadExtension(fileExtension'));
        return;
      }
    }
    if arg == "-d" {
      if index + 1 >= |argv| {
        exit := Some(Usage);           // IndexError: no value after -d
        return;
      }
      directory' := argv[index + 1];
      directory' := NormaliseDirectory(directory');
    }
    if arg == "-i" {
      ignoreComments' := true;
    }
    if arg == "-c" {
      caseInsensitive' := true;
    }
    if arg == "-i" || arg == "-c" {
      // An IndexError here (no next argument, or an empty one) is passed over.
      if index + 1 < |argv| && |argv[index + 1]| > 0 {
        if argv[index + 1][0] != '-' && |argv[index + 1]| != 2 {
          exit := Some(Usage);
          return;
        }
      }
    }
    if |arg| == 0 {
      exit := Some(Usage);             // IndexError: arg[0] of an empty argument
      return;
    }
    if arg[0] == '-' && arg !in Flags {
      exit := Some(Usage);
      return;
    }
    if arg[0] != '-' && index > 1 && argv[index - 1] !in Flags {
      exit := Some(Usage);
      return;
    }
    exit := None;
  }

  /**
   * The script's argument loop: `sys.argv` is read front to back, the extension,
   * directory and flags are updated in place, and the first failing check exits.
   * Python always supplies `argv[0]`, the script name.
   */
  method ParseArgs(argv: seq<string>) returns (r: Result<Config, Exit>)
    requires |argv| >= 1
    ensures r == Validate(argv)
  {
    if |argv| == 1 || |argv| > 8 {
      return Failure(Usage);
    }
    if argv[1] == "-h" {
      return Failure(Help);
    }
    var fileExtension := "";
    var directory := "";
    var ignoreComments := false;
    var caseInsensitive := false;
    for index := 0 to |argv|
      invariant Passes(argv, index)
      invariant fileExtension == ExtensionAfter(argv, index)
      invariant directory == DirectoryAfter(argv, index)
      invariant ignoreComments == Given(argv, "-i", index)
      invariant caseInsensitive == Given(argv, "-c", index)
    {
      FaultDecides(argv, index);
      var exit;
      exit, fileExtension, directory, ignoreComments, caseInsensitive :=
        ParseArgument(argv, index, fileExtension, directory, ignoreComments, caseInsensitive);
      if exit.Some? {
        return Failure(exit.value);
      }
    }
    ValidateAccepts(argv);
    return Success(Config(argv[1], fileExtension, directory, ignoreComments, caseInsensitive));
  }
}
