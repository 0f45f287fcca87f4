/** What the argument loop guarantees about an accepted command line, and which command lines it refuses. */
module ArgumentsProperties {
  import opened Wrappers
  import opened Text
  import opened Arguments

  /**
   * The extension the loop holds after `n` arguments: `''` when no `-e` with a
   * value came, otherwise the value after the last such `-e`.
   */
  lemma ExtensionAfterLast(argv: seq<string>, n: nat)
    requires n <= |argv|
    ensures (forall j :: 0 <= j < n && j + 1 < |argv| ==> argv[j] != "-e") ==> ExtensionAfter(argv, n) == ""
    ensures (exists j :: 0 <= j < n && j + 1 < |argv| && argv[j] == "-e")
            ==> exists j :: 0 <= j < n && j + 1 < |argv| && argv[j] == "-e" && argv[j + 1] == ExtensionAfter(argv, n)
                            && NoFlagAfter(argv, "-e", j, n)
  {
    if exists j :: 0 <= j < n && j + 1 < |argv| && argv[j] == "-e" {
      assert LastValue(argv, "-e", n).Some?;
    }
  }

  /**
   * The directory the loop holds after `n` arguments: `''` iff no `-d` with a value
   * came, otherwise the normalised value after the last such `-d`.
   */
  lemma DirectoryAfterLast(argv: seq<string>, n: nat)
    requires n <= |argv|
    ensures DirectoryAfter(argv, n) == "" <==> forall j :: 0 <= j < n && j + 1 < |argv| ==> argv[j] != "-d"
    ensures DirectoryAfter(argv, n) != ""
            ==> exists j :: 0 <= j < n && j + 1 < |argv| && argv[j] == "-d"
                            && DirectoryAfter(argv, n) == NormaliseDirectory(argv[j + 1]) && NoFlagAfter(argv, "-d", j, n)
  {
  }

  /**
   * An accepted command line has 2 to 8 arguments and does not start with `-h`;
   * none of its arguments is empty, its only dash-arguments are `-e`, `-d`, `-i`
   * and `-c`, and every positional after the search term follows one of those.
   */
  lemma AcceptedArguments(argv: seq<string>)
    requires |argv| >= 1 && Validate(argv).Success?
    ensures 2 <= |argv| <= 8 && argv[1] != "-h" && Validate(argv).value.term == argv[1]
    ensures forall i :: 0 <= i < |argv| ==> argv[i] != ""
    ensures forall i :: 0 <= i < |argv| && argv[i] != "" && argv[i][0] == '-' ==> argv[i] in Flags
    ensures forall i :: 1 < i < |argv| && argv[i] != "" && argv[i][0] != '-' ==> argv[i - 1] in Flags
  {
    FirstFaultNone(argv, 0);
    forall i | 0 <= i < |argv|
      ensures argv[i] != ""
      ensures argv[i][0] == '-' ==> argv[i] in Flags
      ensures 1 < i && argv[i][0] != '-' ==> argv[i - 1] in Flags
    {
      assert Fault(argv, i) == None;
    }
  }

  /**
   * The configuration of an accepted command line: its extension is `''` or starts
   * with `.`, its directory is `''` or a normalised `/...` path, and each flag is on
   * iff it was given.
   */
  lemma AcceptedConfig(argv: seq<string>)
    requires |argv| >= 1 && Validate(argv).Success?
    ensures var config := Validate(argv).value;
            && (config.fileExtension == "" || config.fileExtension[0] == '.')
            && (config.directory == "" || (config.directory[0] == '/' && NormaliseDirectory(config.directory) == config.directory))
            && (config.ignoreComments <==> "-i" in argv) && (config.caseInsensitive <==> "-c" in argv)
  {
    var config := Validate(argv).value;
    FirstFaultNone(argv, 0);
    if config.fileExtension != "" {
      var j :| 0 <= j < |argv| && j + 1 < |argv| && argv[j] == "-e" && argv[j + 1] == config.fileExtension;
      assert Fault(argv, j) == None;
    }
    if LastValue(argv, "-d", |argv|).Some? {
      NormaliseDirectoryIdempotent(LastValue(argv, "-d", |argv|).value);
    }
  }

  /**
   * An `-e` reached without an earlier exit decides the outcome: no value or an
   * empty value is the usage exit (an `IndexError`), a value not starting with
   * `.` is the bad-extension exit naming it.
   */
  lemma ExtensionChecked(argv: seq<string>, i: nat)
    requires 2 <= |argv| <= 8 && argv[1] != "-h"
    requires i < |argv| && argv[i] == "-e"
    requires forall j :: 0 <= j < i ==> Fault(argv, j) == None
    ensures i + 1 == |argv| || argv[i + 1] == "" ==> Validate(argv) == Failure(Usage)
    ensures i + 1 < |argv| && argv[i + 1] != "" && argv[i + 1][0] != '.'
            ==> Validate(argv) == Failure(BadExtension(argv[i + 1]))
  {
    FirstFaultFrom(argv, i);
  }

  /** `strip('/')` ignores extra slashes on either side, so `dir`, `/dir/` and `dir/` all become `/dir`. */
  lemma NormaliseDirectorySlashes(directory: string)
    ensures NormaliseDirectory("/" + directory) == NormaliseDirectory(directory)
    ensures NormaliseDirectory(directory + "/") == NormaliseDirectory(directory)
    ensures directory != [] && directory[0] != '/' && directory[|directory| - 1] != '/'
            ==> NormaliseDirectory(directory) == "/" + directory
  {
    StripPrepend(directory, '/');
    StripAppend(directory, '/');
  }

  /** A normalised directory starts with `/` and normalising it again changes nothing. */
  lemma NormaliseDirectoryIdempotent(directory: string)
    ensures NormaliseDirectory(directory)[0] == '/'
    ensures NormaliseDirectory(NormaliseDirectory(directory)) == NormaliseDirectory(directory)
  {
    var stripped := Strip(directory, '/');
    StripIdempotent(directory, '/');
    StripPrepend(stripped, '/');
  }

  /** `find_string.py crazy -e py` exits naming `py` before any search. */
  lemma ExtensionWithoutDotExample()
    ensures Validate(["find_string.py", "crazy", "-e", "py"]) == Failure(BadExtension("py"))
  {
    var argv := ["find_string.py", "crazy", "-e", "py"];
    assert Fault(argv, 0) == None && Fault(argv, 1) == None;
    FirstFaultFrom(argv, 2);
  }

  /**
   * At any position, a non-empty argument not starting with `-` after `-i` or `-c`
   * makes that flag exit with the usage line iff it does not have two characters;
   * with two characters both it and the flag pass their checks.
   */
  lemma FlagValueRule(argv: seq<string>, i: nat)
    requires i + 1 < |argv| && (argv[i] == "-i" || argv[i] == "-c")
    requires argv[i + 1] != "" && argv[i + 1][0] != '-'
    ensures Fault(argv, i) == Some(Usage) <==> |argv[i + 1]| != 2
    ensures |argv[i + 1]| == 2 ==> Fault(argv, i) == None && Fault(argv, i + 1) == None
  {
  }

  /**
   * After `-i` or `-c` a two-character argument that does not start with `-`
   * passes both checks and is then ignored, while a longer one is refused.
   */
  lemma FlagFollowedByPositional(flag: string, next: string)
    requires flag == "-i" || flag == "-c"
    requires next != "" && next[0] != '-'
    ensures Validate(["find_string.py", "crazy", flag, next]).Success? <==> |next| == 2
  {
    var argv := ["find_string.py", "crazy", flag, next];
    assert Fault(argv, 0) == None && Fault(argv, 1) == None;
    FirstFaultFrom(argv, 2);
    if |next| == 2 {
      assert Fault(argv, 2) == None && Fault(argv, 3) == None;
      FirstFaultFrom(argv, 4);
    }
  }
}
