/**
 * The `%stanf` line magic and the `%%stan` cell magic: compile a Stan program with the
 * options `parse_args` classified, and bind the model to a variable of the notebook.
 * The notebook namespace and the file system are fields of `StanMagics`; the
 * compiler (cmdstanpy's `CmdStanModel`) is a parameter that either builds a model or fails.
 */
module Magics {
  import opened Wrappers
  import opened PyStrings
  import opened StanArgs

  /** The folder the cell magic writes programs to. */
  const STAN_FOLDER: string := ".stan"

  /** `f"{STAN_FOLDER}/{variable_name}.stan"` */
  function StanPath(variableName: string): string {
    STAN_FOLDER + "/" + variableName + ".stan"
  }

  /** A compiled model, as the compiler hands it back. */
  datatype Model = Model(handle: nat)

  /**
   * The compiler: given the program's path, its text (`None` when the path is a
   * directory), the stanc options and the C++ options, a model or a failure.
   */
  type Compiler = (string, Option<string>, map<string, Value>, map<string, Value>) -> Option<Model>

  /** The state the magics see: the notebook namespace, the regular files and the directories. */
  datatype Session = Session(userNs: map<string, Model>, files: map<string, string>, dirs: set<string>)

  /** No path is both a regular file and a directory. */
  predicate FsValid(s: Session) {
    s.files.Keys !! s.dirs
  }

  /** `os.path.exists`: a regular file or a directory. */
  predicate PathExists(s: Session, path: string) {
    path in s.files || path in s.dirs
  }

  function ReadSource(s: Session, path: string): Option<string> {
    if path in s.files then Some(s.files[path]) else None
  }

  /** Why a magic raises instead of returning. */
  datatype MagicError =
    | ArgumentError(error: ArgError)  // from `parse_args`
    | NotEnoughValues                 // `%stanf` without both a file and an argument string
    | OsError(path: string)           // the program could not be opened for writing

  /** How a magic ends: it returns, after a compile that succeeded or not, or it raises. */
  datatype Outcome = Completed(compiled: bool) | Raised(error: MagicError)

  /** `compile_stan_model`: the new session and the value it returns. */
  function CompileSpec(s: Session, file: string, variableName: string,
                       stancOpts: map<string, Value>, cppOpts: map<string, Value>,
                       compiler: Compiler): (Session, bool)
  {
    if !PathExists(s, file) then (s, false)
    else
      match compiler(file, ReadSource(s, file), stancOpts, cppOpts)
      case None => (s, false)
      case Some(model) => (s.(userNs := s.userNs[variableName := model]), true)
  }

  /** `open(file, "w").write(cell)` in `folder`: fails unless `folder` is a directory and `file` is not one. */
  function WriteFile(s: Session, folder: string, file: string, text: string): Result<Session, MagicError> {
    if folder !in s.dirs || file in s.dirs then Failure(OsError(file))
    else Success(s.(files := s.files[file := text]))
  }

  /** `%%stan`: parse the line, make `.stan` if absent, write the cell, compile it. */
  function StanSpec(s: Session, line: string, cell: string, compiler: Compiler): (Session, Outcome) {
    match ParseArgsSpec(line)
    case Failure(e) => (s, Raised(ArgumentError(e)))
    case Success(ParsedArgs(variableName, stancOpts, cppOpts)) =>
      var s1 := if PathExists(s, STAN_FOLDER) then s else s.(dirs := s.dirs + {STAN_FOLDER});
      var file := StanPath(variableName);
      match WriteFile(s1, STAN_FOLDER, file, cell)
      case Failure(e) => (s1, Raised(e))
      case Success(s2) =>
        var (s3, ok) := CompileSpec(s2, file, variableName, stancOpts, cppOpts, compiler);
        (s3, Completed(ok))
  }

  /** `%stanf`: the first word is the file, the rest of the line is parsed; the file is shown when the compile succeeds. */
  function StanfSpec(s: Session, line: string, compiler: Compiler): (Session, Outcome) {
    var parts := SplitOnce(line);
    if |parts| != 2 then (s, Raised(NotEnoughValues))
    else
      match ParseArgsSpec(parts[1])
      case Failure(e) => (s, Raised(ArgumentError(e)))
      case Success(ParsedArgs(variableName, stancOpts, cppOpts)) =>
        var (s1, ok) := CompileSpec(s, parts[0], variableName, stancOpts, cppOpts, compiler);
        (s1, Completed(ok))
  }

  /**
   * `compile_stan_model` touches none of the files or directories the model keeps (the
   * compiler's build artifacts are not modelled); it returns `True` exactly when the
   * file exists and the compiler builds a model, and then binds that model to the
   * name and changes no other variable; when it returns `False` the namespace is unchanged.
   */
  lemma CompileBindsOnlyOnSuccess(s: Session, file: string, variableName: string,
                                  stancOpts: map<string, Value>, cppOpts: map<string, Value>,
                                  compiler: Compiler)
    ensures var (s', ok) := CompileSpec(s, file, variableName, stancOpts, cppOpts, compiler);
      && s'.files == s.files && s'.dirs == s.dirs
      && (ok <==> PathExists(s, file) && compiler(file, ReadSource(s, file), stancOpts, cppOpts).Some?)
      && (!ok ==> s'.userNs == s.userNs)
      && (ok ==> && s'.userNs.Keys == s.userNs.Keys + {variableName}
                 && s'.userNs[variableName] == compiler(file, ReadSource(s, file), stancOpts, cppOpts).value
                 && forall k | k in s.userNs && k != variableName :: s'.userNs[k] == s.userNs[k])
  {
  }

  /** Arguments `parse_args` rejects make `%%stan` raise before anything is written or bound. */
  lemma StanValidatesFirst(s: Session, line: string, cell: string, compiler: Compiler)
    requires ParseArgsSpec(line).Failure?
    ensures StanSpec(s, line, cell, compiler) == (s, Raised(ArgumentError(ParseArgsSpec(line).error)))
  {
  }

  /**
   * When `%%stan` returns, `.stan` is a directory, `.stan/<name>.stan` holds exactly the
   * cell (whatever was there before) and no other file changed. It raises only when
   * `.stan` is a regular file or the program's path is a directory, and then no file is
   * written and no variable bound, though `.stan` may already have been created.
   */
  lemma StanWritesCell(s: Session, line: string, cell: string, compiler: Compiler)
    requires FsValid(s) && ParseArgsSpec(line).Success?
    ensures var file := StanPath(ParseArgsSpec(line).value.variableName);
      var (s', out) := StanSpec(s, line, cell, compiler);
      && FsValid(s')
      && (out.Raised? <==> STAN_FOLDER in s.files || file in s.dirs)
      && (out.Raised? ==> s'.files == s.files && s'.userNs == s.userNs)
      && (out.Raised? ==> s'.dirs == if PathExists(s, STAN_FOLDER) then s.dirs else s.dirs + {STAN_FOLDER})
      && (out.Completed? ==> s'.dirs == s.dirs + {STAN_FOLDER} && s'.files == s.files[file := cell])
  {
    var p := ParseArgsSpec(line).value;
    var file := StanPath(p.variableName);
    var s1 := if PathExists(s, STAN_FOLDER) then s else s.(dirs := s.dirs + {STAN_FOLDER});
    if WriteFile(s1, STAN_FOLDER, file, cell).Success? {
      CompileBindsOnlyOnSuccess(WriteFile(s1, STAN_FOLDER, file, cell).value, file, p.variableName, p.stancArgs, p.cppArgs, compiler);
    }
  }

  /**
   * `%%stan` changes the namespace only through the compile of the program it wrote:
   * when it returns, the namespace is the one `compile_stan_model` leaves and the outcome
   * is what that compile returned; otherwise the namespace is unchanged.
   */
  lemma StanBindsOnlyOnSuccess(s: Session, line: string, cell: string, compiler: Compiler)
    requires ParseArgsSpec(line).Success?
    ensures var p := ParseArgsSpec(line).value;
      var file := StanPath(p.variableName);
      var (s', out) := StanSpec(s, line, cell, compiler);
      && (out != Completed(true) ==> s'.userNs == s.userNs)
      && (out.Completed? ==>
            var (s2, ok) := CompileSpec(s'.(userNs := s.userNs), file, p.variableName, p.stancArgs, p.cppArgs, compiler);
            s'.userNs == s2.userNs && out == Completed(ok))
  {
    var p := ParseArgsSpec(line).value;
    var file := StanPath(p.variableName);
    var s1 := if PathExists(s, STAN_FOLDER) then s else s.(dirs := s.dirs + {STAN_FOLDER});
    if WriteFile(s1, STAN_FOLDER, file, cell).Success? {
      CompileBindsOnlyOnSuccess(WriteFile(s1, STAN_FOLDER, file, cell).value, file, p.variableName, p.stancArgs, p.cppArgs, compiler);
    }
  }

  /**
   * Running `%%stan` twice for the same variable leaves one program file holding the
   * second cell, not both cells.
   */
  lemma StanOverwrites(s: Session, line1: string, cell1: string, line2: string, cell2: string, compiler: Compiler)
    requires FsValid(s)
    requires ParseArgsSpec(line1).Success? && ParseArgsSpec(line2).Success?
    requires ParseArgsSpec(line1).value.variableName == ParseArgsSpec(line2).value.variableName
    requires StanSpec(s, line1, cell1, compiler).1.Completed?
    ensures var (s1, _) := StanSpec(s, line1, cell1, compiler);
      var (s2, out2) := StanSpec(s1, line2, cell2, compiler);
      var file := StanPath(ParseArgsSpec(line1).value.variableName);
      && out2.Completed?
      && s2.files == s.files[file := cell2]
      && s2.files[file] == cell2
  {
    var file := StanPath(ParseArgsSpec(line1).value.variableName);
    var (s1, _) := StanSpec(s, line1, cell1, compiler);
    StanWritesCell(s, line1, cell1, compiler);
    assert s1.files == s.files[file := cell1] && STAN_FOLDER in s1.dirs && FsValid(s1);
    assert STAN_FOLDER !in s1.files && file !in s1.dirs;
    StanWritesCell(s1, line2, cell2, compiler);
  }

  /**
   * `%stanf` reads the first word of the line as the program's path and parses the
   * remaining words as `parse_args` would; with fewer than two words it raises before
   * anything happens.
   */
  lemma StanfReadsWords(s: Session, line: string, compiler: Compiler)
    ensures var words := Split(line);
      && (|words| < 2 ==> StanfSpec(s, line, compiler) == (s, Raised(NotEnoughValues)))
      && (|words| >= 2 ==>
            StanfSpec(s, line, compiler) ==
              match ClassifyTokens(words[1..])
              case Failure(e) => (s, Raised(ArgumentError(e)))
              case Success(p) =>
                var (s1, ok) := CompileSpec(s, words[0], p.variableName, p.stancArgs, p.cppArgs, compiler);
                (s1, Completed(ok)))
  {
    SplitOnceAgrees(line);
  }

  /** `%stanf` touches none of the files or directories the model keeps, and changes the namespace only through a compile that succeeded. */
  lemma StanfBindsOnlyOnSuccess(s: Session, line: string, compiler: Compiler)
    ensures var (s', out) := StanfSpec(s, line, compiler);
      && s'.files == s.files && s'.dirs == s.dirs
      && (out != Completed(true) ==> s'.userNs == s.userNs)
  {
    var parts := SplitOnce(line);
    if |parts| == 2 && ParseArgsSpec(parts[1]).Success? {
      var p := ParseArgsSpec(parts[1]).value;
      CompileBindsOnlyOnSuccess(s, parts[0], p.variableName, p.stancArgs, p.cppArgs, compiler);
    }
  }

  /** The magics of one notebook: its namespace and the file system around it. */
  class StanMagics {
    var userNs: map<string, Model>
    var files: map<string, string>
    var dirs: set<string>

    function State(): Session
      reads this
    {
      Session(userNs, files, dirs)
    }

    ghost predicate Valid()
      reads this
    {
      FsValid(State())
    }

    constructor (userNs: map<string, Model>, files: map<string, string>, dirs: set<string>)
      requires files.Keys !! dirs
      ensures Valid() && State() == Session(userNs, files, dirs)
    {
      this.userNs := userNs;
      this.files := files;
      this.dirs := dirs;
    }

    /** `compile_stan_model`: compile `file` and bind the model to `variableName` on success. */
    method CompileStanModel(file: string, variableName: string,
                            stancOpts: map<string, Value>, cppOpts: map<string, Value>,
                            compiler: Compiler) returns (ok: bool)
      requires Valid()
      modifies this`userNs
      ensures Valid()
      ensures (State(), ok) == CompileSpec(old(State()), file, variableName, stancOpts, cppOpts, compiler)
    {
      if !(file in files || file in dirs) {
        return false;
      }
      var source := if file in files then Some(files[file]) else None;
      var compiled := compiler(file, source, stancOpts, cppOpts);
      if compiled.None? {
        return false;
      }
      userNs := userNs[variableName := compiled.value];
      return true;
    }

    /** `%stanf <file> <arguments>` */
    method Stanf(line: string, compiler: Compiler) returns (outcome: Outcome)
      requires Valid()
      modifies this`userNs
      ensures Valid()
      ensures (State(), outcome) == StanfSpec(old(State()), line, compiler)
    {
      var parts := SplitOnce(line);
      if |parts| != 2 {
        return Raised(NotEnoughValues);
      }
      var file, rest := parts[0], parts[1];
      var parsed := ParseArgs(rest);
      if parsed.Failure? {
        return Raised(ArgumentError(parsed.error));
      }
      var ok := CompileStanModel(file, parsed.value.variableName, parsed.value.stancArgs, parsed.value.cppArgs, compiler);
      return Completed(ok);
    }

    /** `%%stan <arguments>` with the cell's text */
    method Stan(line: string, cell: string, compiler: Compiler) returns (outcome: Outcome)
      requires Valid()
      modifies this
      ensures Valid()
      ensures (State(), outcome) == StanSpec(old(State()), line, cell, compiler)
    {
      var parsed := ParseArgs(line);
      if parsed.Failure? {
        return Raised(ArgumentError(parsed.error));
      }
      var variableName := parsed.value.variableName;
      if !(STAN_FOLDER in files || STAN_FOLDER in dirs) {
        dirs := dirs + {STAN_FOLDER};
      }
      var file := StanPath(variableName);
      if STAN_FOLDER !in dirs || file in dirs {
        return Raised(OsError(file));
      }
      files := files[file := cell];
      var ok := CompileStanModel(file, variableName, parsed.value.stancArgs, parsed.value.cppArgs, compiler);
      return Completed(ok);
    }
  }
}
