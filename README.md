# CmdStanJupyter magics, modelled in Dafny

CmdStanJupyter adds two IPython magics that compile a Stan program into a cmdstanpy
`CmdStanModel`. They then bind the model to a variable in the notebook:

- `%%stan [args]` is a cell magic. It writes the cell to `.stan/<name>.stan` and compiles that file.
- `%stanf <file> [args]` is a line magic. It compiles an existing file.

Both read their arguments with `parse_args`. It splits the argument string on whitespace and runs an argparse parser over the words. The parser has:

- one optional positional, the variable name (default `_stan_model`);
- seven stanc options;
- five C++ build options.

`parse_args` returns three things:

- the variable name, which must pass `str.isidentifier()`;
- the stanc options;
- the C++ options, which are the entries whose key is one of cmdstanpy's `CPP_OPTS`.

An option that was not given is not in either map.

The project has four modules:

- `Wrappers` (`wrappers.dfy`): `Option` and `Result`.
- `PyStrings` (`pystrings.dfy`): the Python built-ins the code leans on. These are `str.split()`, `str.split(maxsplit=1)`, `str.isidentifier()` on ASCII, and `int()` in base 10.
  - `Split` is proved to invert joining words with spaces.
  - `Split` is proved to lose only whitespace.
  - `int(str(n)) == n` is proved for every integer.
- `StanArgs` (`stan_args.dfy`): `parse_args` and the argparse behaviour it relies on, for exactly this option table. The behaviour followed is that of argparse in Python 3.12 (`_parse_optional`, `consume_optional` and the negative-number pattern `^-\d+$|^-\d*\.\d+$`).
  - A token starting with `-` and longer than `-` is an option string, unless it looks like a negative number.
  - An option string names an option by its exact spelling or by an unambiguous `--` abbreviation of it. Either may be followed by `=value`, as in `-O=value` or `--na=x`.
  - A `store_true` option stores `True`.
  - `--name` takes one argument, and the integer options take one argument read by `int()`.
  - `--include_paths` takes every argument up to the next option.
  - The last occurrence of an option wins (`LastOccurrenceWins`). An option that no token names keeps its default (`NotGivenKeeps`).
  - The first argument token that no option takes fills the positional. Any later argument token that no option takes is an error.
  - `ParseTokens` is that parser. `ParseArgs` is the imperative `parse_args`, including its loop over `CPP_OPTS`, proved against the function `ParseArgsSpec`.
- `Magics` (`magics.dfy`): the class `StanMagics`.
  - Its fields are the notebook namespace, the regular files and the directories.
  - Its methods `CompileStanModel`, `Stanf` and `Stan` update those fields. Each is proved equal to a function on the `Session` value (`CompileSpec`, `StanfSpec`, `StanSpec`), and lemmas state what those functions guarantee.
  - The cmdstanpy compiler is a parameter. It takes the path, the file's text, the stanc options and the C++ options, and returns a model or a failure.

`stan` and `stanf` return `None` in Python, or raise. The model returns an `Outcome`:

- `Completed(ok)`: the magic returned. `ok` is what `compile_stan_model` returned.
- `Raised(error)`: the magic raised one of these:
  - argparse's usage exit;
  - the `ValueError` for a bad name;
  - the unpacking error of `%stanf` when the line has fewer than two words;
  - the `OSError` of `open` when the program file cannot be written.

Three behaviours of the code are easy to misread. The model follows the code in each:

- **Keywords as names.** The only check on the name, at `cmdstanjupyter/__init__.py:69`, is `str.isidentifier()`. It accepts keywords, so `%%stan class` binds a variable named `class` (`ExampleKeywordName`).
- **Commas.** The comment at `cmdstanjupyter/__init__.py:26` says arguments may be separated by commas. The code splits on whitespace only, so `m,-O` is a single, invalid name (`ExampleCommaIsNotASeparator`, `SplitKeepsText`).
- **`%stanf` with a file alone.** The docstring at `cmdstanjupyter/__init__.py:120-125` writes the call as `%stanf [file] <variable_name>`, with `_stan_model` as the default name. But `line.split(maxsplit=1)` at line 127 raises when the line holds only the file. The default name is therefore used only when options follow the file (`StanfReadsWords`).

## Model

| member | source | states |
|---|---|---|
| PyStrings.Split | cmdstanjupyter/__init__.py:58 | `argstring.split()` yields only non-empty words free of whitespace |
| PyStrings.SplitJoin | cmdstanjupyter/__init__.py:58 | splitting words joined by single spaces gives back exactly those words, in order |
| PyStrings.SplitKeepsText | cmdstanjupyter/__init__.py:58 | the words, concatenated, are the input without its whitespace: every other character, commas included, is kept in order |
| PyStrings.LStrip | cmdstanjupyter/__init__.py:127 | the result is a suffix of the input, starts with no whitespace, and only whitespace was removed |
| PyStrings.SplitOnce | cmdstanjupyter/__init__.py:127 | `split(maxsplit=1)` yields at most two parts |
| PyStrings.SplitOnceAgrees | cmdstanjupyter/__init__.py:127 | `split(maxsplit=1)` gives two parts exactly when there are at least two words; the first part is the first word, and splitting the second gives the remaining words |
| PyStrings.IsIdentifier | cmdstanjupyter/__init__.py:69 | an identifier is non-empty, does not start with a digit, and holds no whitespace, `-`, `,` or `=`; every word of lowercase ASCII letters is one, keywords included |
| PyStrings.ParseInt | cmdstanjupyter/__init__.py:53-56 | `int()` accepts only text ending in a digit with no whitespace; a negative value needs a leading `-`; a string of digits alone is accepted, as a value of at least zero |
| PyStrings.ParseIntToString | cmdstanjupyter/__init__.py:53-56 | `int(str(n)) == n` for every integer, negative ones included |
| StanArgs.Lookup | cmdstanjupyter/__init__.py:31-56 | a spelling found names an option spelled that way; a spelling not found names no option |
| StanArgs.OptOfKey | cmdstanjupyter/__init__.py:31-56 | a key found is the `dest` of the option returned |
| StanArgs.TableConsistent | cmdstanjupyter/__init__.py:31-67 | every option is found by its spelling and by its key; no key is `variable_name`; a key is in `CPP_OPTS` exactly for the five C++ options |
| StanArgs.OptionsDistinct | cmdstanjupyter/__init__.py:31-56 | distinct options have distinct spellings and distinct keys |
| StanArgs.FlagsPrefixFree | cmdstanjupyter/__init__.py:31-56 | no option's spelling is the start of another option's spelling |
| StanArgs.Extending | cmdstanjupyter/__init__.py:58 | the candidates for an abbreviation are exactly the options whose spelling starts with it |
| StanArgs.Partition | cmdstanjupyter/__init__.py:58 | splitting an option string at its first `=`: the head holds no `=`, there is an argument exactly when the token holds `=`, and head, `=` and argument rebuild the token |
| StanArgs.Resolve | cmdstanjupyter/__init__.py:58 | an exact spelling names its own option with no argument; only option strings name an option |
| StanArgs.ResolveMeaning | cmdstanjupyter/__init__.py:58 | an option string names the one option whose spelling starts with its text before `=` (no other does), and it carries the text after `=` unless the token is an exact spelling |
| StanArgs.ResolveFlag | cmdstanjupyter/__init__.py:31-56 | every option's own spelling names that option, with no argument |
| StanArgs.ResolveUnknown | cmdstanjupyter/__init__.py:58 | a token free of `=` that starts no spelling names nothing (argparse rejects it) |
| StanArgs.OptionLikeShape | cmdstanjupyter/__init__.py:58 | only a token of two or more characters starting with `-` is an option string; a token `int()` accepts, such as `-1`, never is; a `--` token with more after it always is |
| StanArgs.ArgumentRun | cmdstanjupyter/__init__.py:48 | `nargs="*"` takes the longest run of argument tokens, stopping at the first option string |
| StanArgs.DefaultsWellFormed | cmdstanjupyter/__init__.py:28-56 | before any token is read, the name is `_stan_model` and every option is `None` |
| StanArgs.ConsumeOption | cmdstanjupyter/__init__.py:31-56 | an option uses itself and then only argument tokens; the value it stores is of its kind; with `=value` it uses one token; a `store_true` flag stores `True` and refuses an `=value` |
| StanArgs.ConsumedValue | cmdstanjupyter/__init__.py:48-56 | `--name` stores its argument (after `=` or the next token) and fails exactly when there is none; an integer option stores `int()` of its argument and fails exactly when there is none or `int()` rejects it; `--include_paths` always succeeds, storing the argument after `=` or the maximal run of argument tokens after it |
| StanArgs.StuckOptionFails | cmdstanjupyter/__init__.py:58 | an option string anywhere in the tokens that names no option, or whose argument argparse rejects, fails the whole parse |
| StanArgs.UnknownOptionFails | cmdstanjupyter/__init__.py:58 | an option string naming no option of the table is a usage error wherever it stands |
| StanArgs.MissingArgumentFails | cmdstanjupyter/__init__.py:49-56 | `--name` or an integer option followed by nothing or by an option string is a usage error |
| StanArgs.NonIntegerFails | cmdstanjupyter/__init__.py:53-56 | an integer option whose argument `int()` rejects, after `=` or as the next token, is a usage error |
| StanArgs.FlagArgumentFails | cmdstanjupyter/__init__.py:31-55 | a `store_true` flag given `=value` is a usage error |
| StanArgs.ParseTokens | cmdstanjupyter/__init__.py:58 | a successful parse keeps every key with a value of the right kind; every failure is a usage error (the lemmas above say when it fails; `NotGivenKeeps` and `LastOccurrenceWins` say which value each option holds) |
| StanArgs.ParseTokensOption | cmdstanjupyter/__init__.py:58 | after parsing, an option has a value exactly when it had one before or some token names it |
| StanArgs.NotGivenKeeps | cmdstanjupyter/__init__.py:58 | an option that no token names keeps the value it had before parsing |
| StanArgs.LastOccurrenceWins | cmdstanjupyter/__init__.py:58 | when several tokens name an option, its entry holds the value read at the last of them |
| StanArgs.ParseTokensName | cmdstanjupyter/__init__.py:28-58 | the name is the previous one or an argument token; once the positional is filled it never changes; a leading argument token fills it |
| StanArgs.MoveCppOptions | cmdstanjupyter/__init__.py:64-67 | the loop over `CPP_OPTS` leaves every non-C++ entry in the stanc map and moves exactly the C++ entries, with their values, into the new map |
| StanArgs.ParseArgs | cmdstanjupyter/__init__.py:25-75 | the method's result equals `ParseArgsSpec`: a parse error, `InvalidVariableName`, or the name with the two maps |
| StanArgs.VariableNameSource | cmdstanjupyter/__init__.py:28-69 | the returned name is an identifier; it is `_stan_model` unless an argument token supplies it: whenever no token is read as the positional (as in `--STAN_THREADS 4` or `--name foo`) it is `_stan_model`; a leading argument token is always the name |
| StanArgs.PositionalIrrelevant | cmdstanjupyter/__init__.py:28-58 | when no token is read as the positional, parsing gives the same result whether or not the positional is still open |
| StanArgs.ArgumentRunAppend | cmdstanjupyter/__init__.py:48 | the run of arguments `nargs="*"` takes from a concatenation stops inside the first part or runs on into the second |
| StanArgs.ConsumeAppend | cmdstanjupyter/__init__.py:48-56 | an option reads the same arguments when more tokens follow, unless it is an `--include_paths` run that reaches the end |
| StanArgs.ListRunTakes | cmdstanjupyter/__init__.py:48 | an `--include_paths` run that reaches the end also takes an argument token put after it |
| StanArgs.SkipOptions | cmdstanjupyter/__init__.py:58 | when no option before an argument token takes it, the options before it are read on their own and parsing goes on from that token |
| StanArgs.ExtraArgumentFails | cmdstanjupyter/__init__.py:28-58 | once the positional is filled, an argument token that no option takes fails the parse (argparse's "unrecognized arguments") |
| StanArgs.ExampleExtraArgument | cmdstanjupyter/__init__.py:28-58 | `a b` is a usage error |
| StanArgs.PositionalIsName | cmdstanjupyter/__init__.py:28-73 | an argument token that no option before it takes is the name: `parse_args` returns it, or raises `ValueError` for it when it is not an identifier, unless argparse gives up |
| StanArgs.DefaultNameWithoutPositional | cmdstanjupyter/__init__.py:28-75 | when no token is read as the positional, `parse_args` does not raise and the name is `_stan_model` |
| StanArgs.ParseOptionAndArgument | cmdstanjupyter/__init__.py:48-49 | `--name` or `--include_paths` followed by one argument token stores that token as text or as a one-element list |
| StanArgs.ExampleArgumentIsNotName | cmdstanjupyter/__init__.py:28-49 | in `--include_paths a` and `--name a` the argument belongs to the option, so the name stays `_stan_model` |
| StanArgs.ExampleOptionThenInvalidName | cmdstanjupyter/__init__.py:58-73 | in `-O 2cool` the name after the option is still checked, and `ValueError` is raised for it |
| StanArgs.InvalidNameRaises | cmdstanjupyter/__init__.py:69-73 | a leading argument token that is not an identifier never yields maps; a `ValueError` always names such a token |
| StanArgs.OptionsPresentIffGiven | cmdstanjupyter/__init__.py:58-67 | an option is in one of the maps exactly when a token names it, and in the C++ map exactly when its key is in `CPP_OPTS`; the name is in neither map; the maps share no key |
| StanArgs.OptionValuesFit | cmdstanjupyter/__init__.py:31-60 | every returned flag is `True`, never `False` or `None`; integer options hold ints, `--name` text and `--include_paths` a list |
| StanArgs.PartitionOfArgs | cmdstanjupyter/__init__.py:60-67 | the two maps split the options without overlap or loss, keep their values, and the C++ side holds exactly the `CPP_OPTS` keys |
| StanArgs.IntIsArgument | cmdstanjupyter/__init__.py:53-56 | `str(n)` is always read as an argument, never as an option, even for negative `n` |
| StanArgs.ParseFlagAndInt | cmdstanjupyter/__init__.py:52-58 | a flag, then an integer option and `str(n)`, store `True` and `n`; for example `--STAN_OPENCL --OPENCL_DEVICE_ID -1` |
| StanArgs.DropNone | cmdstanjupyter/__init__.py:60 | the keys kept are exactly those given a value, each with that value |
| StanArgs.PartsWithoutName | cmdstanjupyter/__init__.py:62-67 | popping `variable_name` before moving the C++ options changes neither map |
| StanArgs.ExampleSplit | cmdstanjupyter/__init__.py:62-67 | the name, `O` and `STAN_THREADS` split into `{"O": True}` for stanc and `{"STAN_THREADS": 4}` for C++ |
| StanArgs.ParseNameFlagAndInt | cmdstanjupyter/__init__.py:28-58 | a name, a flag, then an integer option and `str(n)`: the name fills the positional and the options store `True` and `n` |
| StanArgs.ExampleNamespace | cmdstanjupyter/__init__.py:60-67 | dropping `None` from the namespace of `m -O --STAN_THREADS 4` leaves the name, `O` and `STAN_THREADS`, and classifies them |
| StanArgs.ExampleClassification | cmdstanjupyter/__init__.py:25-75 | `m -O --STAN_THREADS 4` gives `("m", {"O": True}, {"STAN_THREADS": 4})` |
| StanArgs.ExampleUnknownOption | cmdstanjupyter/__init__.py:58 | `--not-a-real-flag` is a usage error at any position on the line |
| StanArgs.NameOnly | cmdstanjupyter/__init__.py:58-75 | a single argument token gives two empty maps and is the name, or raises `ValueError` if it is not an identifier |
| StanArgs.ExampleKeywordName | cmdstanjupyter/__init__.py:69 | the keyword `class` is accepted as a name |
| StanArgs.ExampleCommaIsNotASeparator | cmdstanjupyter/__init__.py:58 | `m,-O` is one token and raises `ValueError` as a name |
| StanArgs.ExampleInvalidName | cmdstanjupyter/__init__.py:69-73 | `2cool` raises `ValueError` |
| Magics.CompileBindsOnlyOnSuccess | cmdstanjupyter/__init__.py:83-116 | returns `True` exactly when the file exists and the compiler builds a model; then only that variable is (re)bound, to that model; on `False` the namespace is unchanged; no file or directory the model keeps is touched |
| Magics.StanValidatesFirst | cmdstanjupyter/__init__.py:143 | arguments `parse_args` rejects make `%%stan` raise before any folder, file or variable changes |
| Magics.StanWritesCell | cmdstanjupyter/__init__.py:145-150 | `%%stan` raises only when `.stan` is a regular file or the target path is a directory; it then writes no file and binds nothing, though `.stan` has been created if it was missing; otherwise `.stan` is a directory and `.stan/<name>.stan` holds exactly the cell, with no other file changed |
| Magics.StanBindsOnlyOnSuccess | cmdstanjupyter/__init__.py:143-152 | `%%stan` changes the namespace only through `compile_stan_model` on the file it wrote, and returns what that compile returned |
| Magics.StanOverwrites | cmdstanjupyter/__init__.py:145-150 | two `%%stan` runs for the same name leave one program file holding the second cell |
| Magics.StanfReadsWords | cmdstanjupyter/__init__.py:127-128 | `%stanf` takes the first word as the path and parses the remaining words; with fewer than two words it raises before anything else |
| Magics.StanfBindsOnlyOnSuccess | cmdstanjupyter/__init__.py:118-131 | `%stanf` touches no file or directory the model keeps, and changes the namespace only when the compile succeeds |
| Magics.StanMagics.constructor | cmdstanjupyter/__init__.py:80-81 | the magics start on the given namespace and file system |
| Magics.StanMagics.CompileStanModel | cmdstanjupyter/__init__.py:83-116 | the new namespace and the result are those of `CompileSpec`, and no path is both a file and a directory |
| Magics.StanMagics.Stanf | cmdstanjupyter/__init__.py:118-131 | the new state and outcome are those of `StanfSpec` |
| Magics.StanMagics.Stan | cmdstanjupyter/__init__.py:133-152 | the new state and outcome are those of `StanSpec`; the file system stays consistent |

## Left out

- Logging (`logger.info`, `logger.error`), the timing and `humanize.naturaldelta` report, and `display(Code(...))` after `%stanf` compiles are output only. They change no state the model keeps.
- The HTML style injection at import time (lines 16-18) and the IPython plumbing are left out. This covers `@magics_class`, `@line_magic`, `@cell_magic`, `Magics.__init__`'s `shell` and `load_ipython_extension` / `unload_ipython_extension`.
- `setup.py` is not part of this model.
- The cmdstanpy compiler and its build artifacts are a parameter (`Compiler`). Whatever it does besides returning a model or raising is not part of this model. So is everything behind `copts.CPP_OPTS` except its five keys.
- The file system is a map of regular files and a set of directories. Only `.stan` is ever created as a directory. Permissions, symbolic links, relative-path resolution and I/O errors other than "is a directory" / "not a directory" are left out.
- Magics.StanMagics.Stan, Magics.StanMagics.Stanf: a magic returns an `Outcome` instead of returning `None` or raising. argparse's usage exit (`SystemExit` after printing usage) is one error value, `UsageError`, with no message.
- StanArgs.ParseTokens leaves out these argparse features:
  - `-h`/`--help`: it prints help and exits, and is modelled as a usage error.
  - Combined short flags (`-OO` stores `True` via `-O` twice in argparse): modelled as a usage error.
  - `--` as the end-of-options marker: modelled as a usage error.
  - `fromfile_prefix_chars` and `allow_abbrev` variants other than the default.
- PyStrings.ParseInt: `int()` also accepts surrounding whitespace, `_` between digits and non-ASCII digits. Only ASCII digits with an optional sign are modelled; the tokens never hold whitespace.
- PyStrings.IsIdentifier: `str.isidentifier()` also accepts non-ASCII letters (Unicode XID). Only ASCII identifiers are modelled.
- StanArgs.IsOptionLike: argparse's negative-number pattern `\d` also matches non-ASCII digits. Only ASCII digits are modelled.
- Dictionaries are modelled as maps. The insertion order of `stanc_args` and `cpp_args` is not kept.
