# find_string — a Dafny model

find_string.py is a command-line utility that looks for a literal string in every
file under the working directory (or under one sub-directory given with `-d`),
optionally only in files whose name ends with an extension given with `-e`,
optionally ignoring everything after the first `#` of a line (`-i`) and optionally
case-insensitively (`-c`). It prints, per file and sorted by path, the numbers of the
lines that hold the string.

This project models that script in Dafny:

- `text.dfy` (module `Text`): the Python string operations the script relies on —
  `in` on strings, `split('#')[0]`, `endswith`, `lower()` (ASCII, with an ASCII `upper()` for one property), `strip('/')`, and
  the string order `sorted` uses.
- `search.dfy` (module `Search`): `add_to_dictionary`, `search_file` and
  `traverse_files` as imperative methods on a `FileLineDict` object whose `entries`
  map is updated in place, each proved against a specification function
  (`MatchedLines`, `Traversed`).
- `search_properties.dfy` (module `SearchProperties`): what those functions promise —
  which lines are recorded, in what order, how `-i`, `-c` and `-e` affect the result.
- `arguments.dfy` (module `Arguments`): the `sys.argv` validation loop as a method
  `ParseArgs` proved against a declarative `Validate` (the exit of the first faulty
  argument, otherwise the values after the last `-e` and `-d` and the two flags).
- `arguments_properties.dfy` (module `ArgumentsProperties`): what an accepted command
  line looks like, and which ones are refused.
- `report.dfy` (module `Reporting`): the rows of the final report, sorted by path,
  numbered from 1, each path shown relative to the working directory.
- `script.dfy` (module `Script`): the whole script run, from arguments to report.
- `findings.dfy` (module `AsWritten`): `add_to_dictionary` exactly as written (see Findings).
- `wrappers.dfy` (module `Wrappers`): `Option` and `Result`.

The file system and the console are inputs and outputs of the model: `os.walk`
together with the contents of each file is a function from the directory to walk to
a sequence of `WalkEntry(root, fileName, lines)` values; the working directory is a
string parameter; every `sys.exit` is an `Exit` value; the printed report is a
`Report` value.

The repository's test file drives a click command `find_string` and expects
behaviour find_string.py does not have: comment rules for `.xqy` files and for
files whose shebang line names bash or python, and a "does not exist!" error for a
missing `-d` directory. The model follows find_string.py.

## Model

| member | source | states |
|---|---|---|
| `Text.BeforeFirst` | find_string.py:57 | `line.split('#')[0]` is the longest prefix of the line without `#`: a prefix, `#`-free, followed by `#` when shorter than the line |
| `Text.Contains` | find_string.py:55 | `term in line`: holds iff the term occurs at some position of the line; the empty term is in every line, a term is in no shorter line, and a prefix of the line is in it |
| `Text.ContainsInLonger` | find_string.py:56-58 | a term in a prefix of a line (such as the part before `#`) is in the whole line |
| `Text.ContainsBeforeFirst` | find_string.py:55-58 | "the term is in the line and, if the line has a `#`, also before it" holds iff the term occurs before the first `#` |
| `Text.EndsWith` | find_string.py:41 | `endswith` holds iff the suffix is no longer than the name and matches its last characters; the empty suffix always holds |
| `Text.Lower` | find_string.py:53-54 | `lower()` keeps the length and lower-cases each character in place |
| `Text.LowerIdempotent` | find_string.py:52-54 | lower-casing twice is lower-casing once, so re-lowering the term on every line is harmless |
| `Text.LowerUpper` | find_string.py:52-54 | lower-casing the (ASCII) upper-cased form gives the lower-cased form |
| `Text.TrimStart` | find_string.py:102 | the leading half of `strip('/')`: a suffix of the value that does not start with `/`, everything cut off being `/` |
| `Text.TrimEnd` | find_string.py:102 | the trailing half of `strip('/')`: a prefix of the value that does not end with `/`, everything cut off being `/` |
| `Text.Strip` | find_string.py:102 | `strip('/')` neither starts nor ends with `/` and sits in the value at some position with only `/` before and after it |
| `Text.StripFramed` | find_string.py:102 | the position where `strip` cuts is the number of leading `/` removed |
| `Text.StripAppend` | find_string.py:102 | one more trailing `/` does not change `strip('/')` |
| `Text.StripPrepend` | find_string.py:102 | one more leading `/` does not change `strip('/')` |
| `Text.StripIdempotent` | find_string.py:102 | stripping a stripped value changes nothing |
| `Text.Below` | find_string.py:135 | the string comparison `sorted` uses: a proper prefix sorts before the longer string, and no string sorts before its own prefix |
| `Text.BelowIrreflexive` | find_string.py:135 | no path sorts before itself |
| `Text.BelowTransitive` | find_string.py:135 | the order is transitive |
| `Text.BelowTotal` | find_string.py:135 | the string order `sorted` uses orders any two different paths |
| `Search.PathOf` | find_string.py:42 | a walked file's path is one character longer than directory and name together, with a `/` at the directory's length |
| `Search.PathOfSplits` | find_string.py:42 | the path splits back into the directory before the `/` and the file name after it |
| `Search.Counts` | find_string.py:55-61 | a folded line counts only if the term occurs in it; without `-i`, or on a line without `#`, iff it occurs; with `-i` iff it occurs before the first `#` |
| `Search.LineMatches` | find_string.py:52-61 | a line is recorded iff the term, lower-cased under `-c`, occurs in the line (lower-cased under `-c`), and with `-i` before its first `#` |
| `Search.MatchedLines` | find_string.py:46-61 | the line numbers recorded for one file all lie in 1..number of lines and are strictly increasing |
| `Search.Recorded` | find_string.py:59-69 | recording numbers for a path never removes a key |
| `Search.Traversed` | find_string.py:36-43 | the traversal never removes a key from the dictionary |
| `Search.AppendedList` | find_string.py:66-69 | the list stored for a path ends with the new line number after the old list, or is `[n]` for a new path |
| `Search.RecordedStep` | find_string.py:59-69 | recording one more number for a path is appending it to that path's list |
| `Search.MatchedLinesStep` | find_string.py:50-61 | reading one more line appends its number exactly when it matches |
| `Search.RecordedLineStep` | find_string.py:50-69 | after one more line the dictionary is unchanged, or has that line's number appended under the path when the line matches |
| `Search.FileLineDict.constructor` | find_string.py:74 | the result dictionary starts empty |
| `Search.AddToDictionary` | find_string.py:64-69 | appends the line number to an existing path's list or creates the path with `[n]`; the key set grows by that path only and every other path's list is unchanged |
| `Search.SearchFile` | find_string.py:46-61 | after reading the lines one by one (counting from 1, re-lowering term and line under `-c`), the dictionary is the old one with exactly the matching line numbers appended under the file path, no key created when nothing matches |
| `Search.TraverseFiles` | find_string.py:36-43 | every walked file whose name ends with the extension is searched, in walk order, under the path `root + '/' + file_name`; the dictionary becomes `Traversed` of the old one |
| `SearchProperties.MatchedLinesMembers` | find_string.py:49-61 | a number is recorded for a file iff it is between 1 and the line count and that line matches |
| `SearchProperties.IgnoreCommentsNarrows` | find_string.py:56-61 | every line recorded with `-i` is also recorded without it |
| `SearchProperties.CaseInsensitiveUsesLowerTerm` | find_string.py:52-55 | under `-c` any two terms with the same lower-case form record the same lines |
| `SearchProperties.CaseInsensitiveLowerTerm` | find_string.py:52-54 | under `-c` the term and its lower-cased form record the same lines |
| `SearchProperties.CaseInsensitiveUpperTerm` | find_string.py:52-55 | under `-c` the (ASCII) upper-cased term records the same lines as the term |
| `SearchProperties.TraversedKeysStep` | find_string.py:40-43 | one more walked file adds at most its own path, and only when it passes the filter and has a matching line |
| `SearchProperties.TraversedKeys` | find_string.py:39-43 | a path is in the dictionary after traversal iff it was before or it is the path of a walked file that passes the extension filter and has a matching line |
| `SearchProperties.TraversedOnlyAppends` | find_string.py:39-43 | a list already in the dictionary is a prefix of the list it holds after the traversal |
| `SearchProperties.ExtensionFilterNarrows` | find_string.py:36-43 | every path found with an extension filter is also found with the default extension `''` |
| `SearchProperties.TraversedFromEmpty` | find_string.py:39-69 | from the empty dictionary and with distinct walked paths, each file that passes the filter and matches is stored with exactly its own matching line numbers |
| `SearchProperties.ExampleLineVerdicts` | find_string.py:55-59 | in the file `line1`, `crazy line2`, `# crazy comment`, the first line never matches `crazy`, the second always does, the third only without `-i` |
| `SearchProperties.ExampleFirstTwoLines` | find_string.py:46-61 | the first two lines of that file record line 2 only, with or without `-i` |
| `SearchProperties.CommentLineExample` | find_string.py:46-61 | that file records lines 2 and 3 for `crazy`, and only line 2 with `-i` |
| `Arguments.NormaliseDirectory` | find_string.py:102 | `'/' + d.strip('/')` starts with `/` and, when longer than `/`, has no second leading and no trailing `/` |
| `Arguments.Fault` | find_string.py:95-122 | the checks one argument must pass: a bad-extension exit only for `-e` followed by a non-empty value without a leading `.`; a passing argument is non-empty, a known flag if it starts with `-`, an `-e` is followed by a `.` value, a `-d` by some value, and a positional after the term follows a flag |
| `Arguments.FirstFault` | find_string.py:94-120 | the loop's first exit from index `i` on: when there is one, it is the exit of some argument from `i` on, all arguments between `i` and it passing |
| `Arguments.LastValue` | find_string.py:96-102 | the value a flag leaves after the first `n` arguments: none iff no such flag with a following argument came, otherwise the argument right after such a flag with no later such flag |
| `Arguments.ExtensionAfter` | find_string.py:96-97 | `file_extension` after `n` arguments: `''` when no `-e` with a value came, otherwise exactly the value `LastValue` gives, the one after the last such `-e` |
| `Arguments.DirectoryAfter` | find_string.py:100-102 | `directory` after `n` arguments: `''` iff no `-d` value came, otherwise a `/`-prefixed normalised value |
| `Arguments.GivenIn` | find_string.py:103-106 | a flag is on after `n` arguments iff it is among them |
| `Arguments.PassesEach` | find_string.py:94-120 | the loop got past the first `n` arguments iff each of them passes its checks |
| `Arguments.FirstFaultNone` | find_string.py:94-122 | the loop finds no exit from index `i` on iff every argument from `i` on passes its checks |
| `Arguments.FaultDecides` | find_string.py:88-122 | past the count and help checks, with the earlier arguments passing, a failing argument's exit is the script's exit |
| `Arguments.ArgumentStep` | find_string.py:96-102 | one more argument sets the extension to the value after an `-e`, the directory to the normalised value after a `-d`, and otherwise leaves them |
| `Arguments.ValidateAccepts` | find_string.py:94-122 | past the count and help checks, when every argument passes, the script goes on with `argv[1]`, the last `-e` and `-d` values and the flags given |
| `Arguments.ParseArgument` | find_string.py:95-120 | one pass of the loop body, with its sequential checks and in-place updates: it exits with exactly that argument's exit, and otherwise leaves the extension, directory and flags as they stand after that argument |
| `Arguments.Validate` | find_string.py:88-124 | the script exits iff there is one argument or more than 8, `-h` comes first, or some argument fails its checks; otherwise the term is `argv[1]` |
| `Arguments.ParseArgs` | find_string.py:87-122 | the argument loop with its in-place updates and early exits returns exactly `Validate(argv)`: argc exit, help exit, first faulty argument's exit, or the term with the last `-e` and `-d` values and the flags |
| `ArgumentsProperties.ExtensionAfterLast` | find_string.py:96-97 | the extension kept is `''` when no `-e` with a value came; once one came, it is the argument right after an `-e` with no later `-e` |
| `ArgumentsProperties.DirectoryAfterLast` | find_string.py:100-102 | the directory kept is `''` iff no `-d` with a value came, otherwise the normalised argument right after a `-d` with no later `-d` |
| `ArgumentsProperties.AcceptedArguments` | find_string.py:88-120 | an accepted command line has 2 to 8 arguments, no `-h` first, no empty argument, no dash-argument but `-e`/`-d`/`-i`/`-c`, and no positional after the term that does not follow one of them |
| `ArgumentsProperties.AcceptedConfig` | find_string.py:96-106 | an accepted extension is `''` or starts with `.`, an accepted directory is `''` or a normalised `/...` path, and `-i`/`-c` are on iff given |
| `ArgumentsProperties.ExtensionChecked` | find_string.py:96-120 | an `-e` reached without an earlier exit with no or an empty value gives the usage exit, with a value not starting with `.` the bad-extension exit naming it |
| `ArgumentsProperties.NormaliseDirectorySlashes` | find_string.py:102 | `-d` values with or without leading and trailing slashes normalise alike: `dir`, `/dir/` and `dir/` all give `/dir` |
| `ArgumentsProperties.NormaliseDirectoryIdempotent` | find_string.py:102 | a normalised directory starts with `/` and is unchanged by normalising again |
| `ArgumentsProperties.ExtensionWithoutDotExample` | find_string.py:96-99 | `crazy -e py` ends in the bad-extension exit for `py` |
| `ArgumentsProperties.FlagValueRule` | find_string.py:107-117 | in any command line, after `-i` or `-c` an argument that is non-empty and does not start with `-` makes the flag fail iff its length is not 2; with length 2 both the flag and that argument pass |
| `ArgumentsProperties.FlagFollowedByPositional` | find_string.py:107-117 | for the command line `crazy <flag> <next>`, the whole command is accepted iff `next` has exactly two characters |
| `Reporting.Shown` | find_string.py:139 | `key[len(root_dir_path)+1:]` is a suffix of the key, shorter by the root and its slash, or empty when the key is that short |
| `Reporting.ShownUnderRoot` | find_string.py:139 | a path `root + '/' + rest` is shown as `rest` |
| `Reporting.SortedPaths` | find_string.py:135 | the report's key order lists every path exactly once in increasing string order |
| `Reporting.RowsFrom` | find_string.py:137-139 | row `i` carries number `first + i`, the `i`-th path, that path shown relative to the root, and that path's line list |
| `Reporting.RowsCoverKeys` | find_string.py:137 | rows built from a sequence holding every key have a row for every key |
| `Reporting.OrderedRows` | find_string.py:135-139 | rows built from any increasing ordering of exactly the keys are one per key, numbered from 1, in key order, each with its root-relative path and line list |
| `Reporting.SortedRows` | find_string.py:135-139 | the rows built from the sorted keys keep those promises |
| `Reporting.BuildReport` | find_string.py:131-139 | "not found" iff the dictionary is empty; otherwise its size and one row per path, numbered from 1, in strictly increasing order of the full path, each showing the path relative to the root with that path's line list |
| `Script.FindString` | find_string.py:72-140 | a refused command line exits before any file is read; otherwise the report is built from the walk of `root + directory` traversed into an empty dictionary with the accepted settings |
| `AsWritten.AddToDictionaryAsWritten` | find_string.py:64-69 | as written: a name error without the global; a key error iff the path is in the global but not in the parameter; a path not in the global overwrites the parameter's list with `[n]`; a path in both keeps its list with the new number appended; no other key appears or disappears |
| `AsWritten.AgreesWhenAliased` | find_string.py:64-69 | when the parameter is the global dictionary, as written and intended updates agree |
| `AsWritten.SecondMatchOverwritesFirst` | find_string.py:64-69 | with a dictionary other than the empty global, matches on lines 1 and 2 leave `[2]`, where the intended update leaves `[1, 2]` |

## Left out

- `os.walk`, `open` and the iteration over a file's lines are not modelled: the walk and each file's lines are inputs (`walkOf`, `WalkEntry.lines`), so an unreadable or undecodable file and a missing directory (which `os.walk` silently yields nothing for) are outside the model.
- `os.getcwd` and `os.path.realpath` are not modelled: the resolved working directory is the parameter `rootDirPath`.
- The printed text (usage line, docstring for `-h`, the messages, the report lines) is not modelled: exits are `Exit` values and the report is a `Report` value with numbered rows.
- `Text.Lower`: lower-cases ASCII letters only, because Python's Unicode `str.lower` is defined by its library tables.
- `SearchProperties.CaseInsensitiveUpperTerm`: states the upper-cased term case for ASCII `Text.Upper` only; with Python's Unicode mappings it fails (`'ß'.upper().lower()` is `'ss'`).
- `Search.AddToDictionary`: tests membership in its parameter, not in the global `file_line_dict` as the source does; the two are one object on the script's only call path (see Findings).
- The mutable default argument `dictionary={}` of `traverse_files` is not modelled: the dictionary is always passed explicitly.
- `SearchProperties.TraversedFromEmpty`: assumes distinct walked paths, which `os.walk` guarantees but the model's input does not enforce.
- A directory filter narrowing the results is not stated, because the walk is an input function and the model cannot relate the walk of a sub-directory to the walk of its parent.
- `Arguments.ParseArgs`: requires at least one argument, as Python always supplies the script name as `argv[0]`.

## Findings

| source | as written | input that shows it | evidently intended | confidence | as-written member | corrected member |
|---|---|---|---|---|---|---|
| find_string.py:66 | `add_to_dictionary` tests `file_path in file_line_dict` (the script's global) instead of its `dictionary` parameter | `traverse_files` called with any other dictionary, e.g. its default `{}`, on a file whose lines 1 and 2 match: line 1 is stored as `[1]`, then overwritten by `[2]`; imported as a module, the first match raises a name error | test membership in `dictionary`, so the list becomes `[1, 2]` | high, not executed | `AsWritten.SecondMatchOverwritesFirst` | `Search.AddToDictionary` |
