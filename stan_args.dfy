/**
 * `parse_args`: the classification of a magic's argument string into the name of
 * the notebook variable, the options for the stanc frontend and the options for the
 * C++ build. The argparse parser it builds has one optional positional and the twelve
 * options below; the model follows argparse on exactly that table.
 */
module StanArgs {
  import opened Wrappers
  import opened PyStrings

  /** A value argparse stores: `True`, an `int`, a `str` or a `list` of `str`. */
  datatype Value = BoolVal(b: bool) | IntVal(i: int) | StrVal(s: string) | ListVal(items: seq<string>)

  /** How an option consumes the tokens that follow it. */
  datatype Action =
    | StoreTrue     // action="store_true", default=None
    | StoreString   // one argument, kept as text
    | StoreInt      // one argument, type=int
    | StoreList     // nargs="*": every argument up to the next option

  /** The options of the parser, in the order they are declared. */
  datatype Opt =
    | O | AllowUndefined | UseOpencl | WarnUninitialized | WarnPedantic | IncludePaths | Name
    | StanOpencl | OpenclDeviceId | OpenclPlatformId | StanMpi | StanThreads

  /** The exact spelling of each option on the command line. */
  function Flag(o: Opt): string {
    match o
    case O => "-O"
    case AllowUndefined => "--allow_undefined"
    case UseOpencl => "--use-opencl"
    case WarnUninitialized => "--warn-uninitialized"
    case WarnPedantic => "--warn-pedantic"
    case IncludePaths => "--include_paths"
    case Name => "--name"
    case StanOpencl => "--STAN_OPENCL"
    case OpenclDeviceId => "--OPENCL_DEVICE_ID"
    case OpenclPlatformId => "--OPENCL_PLATFORM_ID"
    case StanMpi => "--STAN_MPI"
    case StanThreads => "--STAN_THREADS"
  }

  /** The key each option is stored under (argparse's `dest`); hyphens are kept where `dest` is given. */
  function Dest(o: Opt): string {
    match o
    case O => "O"
    case AllowUndefined => "allow_undefined"
    case UseOpencl => "use-opencl"
    case WarnUninitialized => "warn-uninitialized"
    case WarnPedantic => "warn-pedantic"
    case IncludePaths => "include_paths"
    case Name => "name"
    case StanOpencl => "STAN_OPENCL"
    case OpenclDeviceId => "OPENCL_DEVICE_ID"
    case OpenclPlatformId => "OPENCL_PLATFORM_ID"
    case StanMpi => "STAN_MPI"
    case StanThreads => "STAN_THREADS"
  }

  function ActionOf(o: Opt): Action {
    match o
    case O | AllowUndefined | UseOpencl | WarnUninitialized | WarnPedantic => StoreTrue
    case IncludePaths => StoreList
    case Name => StoreString
    case StanOpencl | StanMpi => StoreTrue
    case OpenclDeviceId | OpenclPlatformId | StanThreads => StoreInt
  }

  /** The key of the positional argument and its default. */
  const VARIABLE_NAME_KEY: string := "variable_name"
  const DEFAULT_VARIABLE_NAME: string := "_stan_model"

  /** The keys cmdstanpy treats as C++ build options (`copts.CPP_OPTS`). */
  const CPP_OPTS: set<string> := {"STAN_OPENCL", "OPENCL_DEVICE_ID", "OPENCL_PLATFORM_ID", "STAN_MPI", "STAN_THREADS"}

  /** The option spelled `flag`, if there is one. */
  function Lookup(flag: string): (r: Option<Opt>)
    ensures r.Some? ==> Flag(r.value) == flag
    ensures r.None? ==> forall o: Opt :: Flag(o) != flag
  {
    if flag == "-O" then Some(O)
    else if flag == "--allow_undefined" then Some(AllowUndefined)
    else if flag == "--use-opencl" then Some(UseOpencl)
    else if flag == "--warn-uninitialized" then Some(WarnUninitialized)
    else if flag == "--warn-pedantic" then Some(WarnPedantic)
    else if flag == "--include_paths" then Some(IncludePaths)
    else if flag == "--name" then Some(Name)
    else if flag == "--STAN_OPENCL" then Some(StanOpencl)
    else if flag == "--OPENCL_DEVICE_ID" then Some(OpenclDeviceId)
    else if flag == "--OPENCL_PLATFORM_ID" then Some(OpenclPlatformId)
    else if flag == "--STAN_MPI" then Some(StanMpi)
    else if flag == "--STAN_THREADS" then Some(StanThreads)
    else None
  }

  /** The option stored under `key`, if there is one. */
  function OptOfKey(key: string): (r: Option<Opt>)
    ensures r.Some? ==> Dest(r.value) == key
  {
    if key == "O" then Some(O)
    else if key == "allow_undefined" then Some(AllowUndefined)
    else if key == "use-opencl" then Some(UseOpencl)
    else if key == "warn-uninitialized" then Some(WarnUninitialized)
    else if key == "warn-pedantic" then Some(WarnPedantic)
    else if key == "include_paths" then Some(IncludePaths)
    else if key == "name" then Some(Name)
    else if key == "STAN_OPENCL" then Some(StanOpencl)
    else if key == "OPENCL_DEVICE_ID" then Some(OpenclDeviceId)
    else if key == "OPENCL_PLATFORM_ID" then Some(OpenclPlatformId)
    else if key == "STAN_MPI" then Some(StanMpi)
    else if key == "STAN_THREADS" then Some(StanThreads)
    else None
  }

  /** Every option is found by its own spelling, and its key belongs to no other option. */
  lemma TableConsistent(o: Opt)
    ensures Lookup(Flag(o)) == Some(o)
    ensures OptOfKey(Dest(o)) == Some(o)
    ensures Dest(o) != VARIABLE_NAME_KEY
    ensures Dest(o) in CPP_OPTS <==> o in {StanOpencl, OpenclDeviceId, OpenclPlatformId, StanMpi, StanThreads}
  {
  }

  /** Distinct options have distinct spellings and distinct keys. */
  lemma OptionsDistinct(a: Opt, b: Opt)
    ensures a != b ==> Flag(a) != Flag(b) && Dest(a) != Dest(b)
  {
    TableConsistent(a);
    TableConsistent(b);
  }

  /** The tail of argparse's negative-number pattern `^-\d+$|^-\d*\.\d+$`, after the `-`. */
  predicate NumberTail(r: string, seenDot: bool) {
    if r == [] then false
    else if |r| == 1 then IsAsciiDigit(r[0])
    else if IsAsciiDigit(r[0]) then NumberTail(r[1..], seenDot)
    else r[0] == '.' && !seenDot && NumberTail(r[1..], true)
  }

  /**
   * A token argparse reads as an option string rather than as an argument: it starts
   * with `-`, is longer than `-` itself and does not look like a negative number.
   */
  predicate IsOptionLike(t: string) {
    |t| >= 2 && t[0] == '-' && !NumberTail(t[1..], false)
  }

  lemma FlagIsOptionLike(o: Opt)
    ensures IsOptionLike(Flag(o))
  {
  }

  /** The parser's options, in the order they are declared. */
  const ALL_OPTS: seq<Opt> :=
    [O, AllowUndefined, UseOpencl, WarnUninitialized, WarnPedantic, IncludePaths, Name,
     StanOpencl, OpenclDeviceId, OpenclPlatformId, StanMpi, StanThreads]

  /** The long spelling of the help option argparse adds: reading it prints the help and exits. */
  const HELP_FLAG: string := "--help"

  /** No spelling is the start of another one. */
  lemma FlagsPrefixFree(a: Opt, b: Opt)
    ensures Flag(a) <= Flag(b) ==> a == b
  {
    if a in {O, AllowUndefined, UseOpencl, WarnUninitialized, WarnPedantic, IncludePaths} {
      PrefixFreeFirst(a, b);
    } else {
      PrefixFreeLast(a, b);
    }
  }

  // the character that tells `a` apart from every spelling sharing its start
  lemma PrefixFreeFirst(a: Opt, b: Opt)
    requires a in {O, AllowUndefined, UseOpencl, WarnUninitialized, WarnPedantic, IncludePaths}
    ensures Flag(a) <= Flag(b) ==> a == b
  {
    if Flag(a) <= Flag(b) {
      var fa, fb := Flag(a), Flag(b);
      assert forall i | 0 <= i < |fa| :: fa[i] == fb[i];
      if a == O { assert fb[1] == 'O'; }
      else if a == AllowUndefined { assert fb[2] == 'a'; }
      else if a == UseOpencl { assert fb[2] == 'u'; }
      else if a == WarnUninitialized { assert fb[7] == 'u'; }
      else if a == WarnPedantic { assert fb[7] == 'p'; }
      else { assert fb[2] == 'i'; }
    }
  }

  lemma PrefixFreeLast(a: Opt, b: Opt)
    requires a in {Name, StanOpencl, OpenclDeviceId, OpenclPlatformId, StanMpi, StanThreads}
    ensures Flag(a) <= Flag(b) ==> a == b
  {
    if Flag(a) <= Flag(b) {
      var fa, fb := Flag(a), Flag(b);
      assert forall i | 0 <= i < |fa| :: fa[i] == fb[i];
      if a == Name { assert fb[2] == 'n'; }
      else if a == StanOpencl { assert fb[7] == 'O'; }
      else if a == OpenclDeviceId { assert fb[9] == 'D'; }
      else if a == OpenclPlatformId { assert fb[9] == 'P'; }
      else if a == StanMpi { assert fb[7] == 'M'; }
      else { assert fb[7] == 'T'; }
    }
  }

  /** A spelling starts no spelling but its own. */
  lemma OnlyExtension(o: Opt)
    ensures forall o': Opt :: Flag(o) <= Flag(o') ==> o' == o
  {
    forall o': Opt ensures Flag(o) <= Flag(o') ==> o' == o {
      FlagsPrefixFree(o, o');
    }
  }

  /** No spelling holds `=`. */
  lemma NoEqualsInFlag(o: Opt)
    ensures '=' !in Flag(o)
  {
  }

  lemma AllOptsComplete(o: Opt)
    ensures o in ALL_OPTS
  {
  }

  /** A spelling followed by `=` and an argument is an option string. */
  lemma ExplicitIsOptionLike(o: Opt, arg: string)
    ensures IsOptionLike(Flag(o) + "=" + arg)
  {
    var t := Flag(o) + "=" + arg;
    assert t[1..][0] == Flag(o)[1];
  }

  /** A token starting with `--` is an option string. */
  lemma LongIsOptionLike(t: string)
    requires |t| > 2 && t[..2] == "--"
    ensures IsOptionLike(t)
  {
    assert t[1..][0] == '-';
  }

  lemma {:induction false} DigitsAreNumberTail(ds: string, seenDot: bool)
    requires ds != [] && AllDigits(ds)
    ensures NumberTail(ds, seenDot)
  {
    if |ds| > 1 {
      DigitsAreNumberTail(ds[1..], seenDot);
    }
  }

  /**
   * What argparse reads as an option string: only a token of two characters or more
   * starting with `-`; never a token `int()` accepts, so `-1` is an argument; and always
   * a token starting with `--` that has more after it.
   */
  lemma OptionLikeShape(t: string)
    ensures IsOptionLike(t) ==> |t| >= 2 && t[0] == '-'
    ensures ParseInt(t).Some? ==> !IsOptionLike(t)
    ensures |t| > 2 && t[..2] == "--" ==> IsOptionLike(t)
  {
    if ParseInt(t).Some? && |t| >= 2 && t[0] == '-' {
      DigitsAreNumberTail(t[1..], false);
    }
    if |t| > 2 && t[..2] == "--" {
      LongIsOptionLike(t);
    }
  }

  /** The options of `os` whose spelling starts with `prefix`, in order. */
  function Extending(prefix: string, os: seq<Opt>): (r: seq<Opt>)
    ensures forall o :: o in r <==> o in os && prefix <= Flag(o)
  {
    if os == [] then []
    else (if prefix <= Flag(os[0]) then [os[0]] else []) + Extending(prefix, os[1..])
  }

  /** `t.partition("=")`: the text before the first `=`, and the text after it when there is one. */
  function Partition(t: string): (r: (string, Option<string>))
    ensures '=' !in r.0
    ensures r.1.None? <==> '=' !in t
    ensures r.1.None? ==> r.0 == t
    ensures r.1.Some? ==> t == r.0 + "=" + r.1.value
  {
    if t == [] then ([], None)
    else if t[0] == '=' then ([], Some(t[1..]))
    else
      var (head, arg) := Partition(t[1..]);
      assert arg.Some? ==> t == [t[0]] + (head + "=" + arg.value);
      ([t[0]] + head, arg)
  }

  /**
   * The option an option string names, with the argument written after `=`, if any;
   * `None` when it names none of the table (unknown, the start of several spellings, or
   * the help option). An exact spelling is taken first, then `--x=v` with `--x` a
   * spelling, then a `--` token whose text before `=` starts exactly one spelling.
   * A token argparse reads as an argument names nothing.
   */
  function Resolve(t: string): (r: Option<(Opt, Option<string>)>)
    ensures Lookup(t).Some? ==> r == Some((Lookup(t).value, None))
    ensures r.Some? ==> IsOptionLike(t)
  {
    match Lookup(t)
    case Some(o) =>
      FlagIsOptionLike(o);
      Some((o, None))
    case None =>
      var (head, arg) := Partition(t);
      if arg.Some? && Lookup(head).Some? then
        ExplicitIsOptionLike(Lookup(head).value, arg.value);
        Some((Lookup(head).value, arg))
      else if |t| > 2 && t[..2] == "--" then
        var c := Extending(head, ALL_OPTS);
        if |c| == 1 && !(head <= HELP_FLAG) then
          LongIsOptionLike(t);
          Some((c[0], arg))
        else None
      else None
  }

  /**
   * An option string names an option whose spelling starts with the text before `=`,
   * and no other spelling starts with that text; the argument after `=` goes with it.
   */
  lemma ResolveMeaning(t: string)
    requires Resolve(t).Some?
    ensures var (o, arg) := Resolve(t).value;
      && Partition(t).0 <= Flag(o)
      && (forall o': Opt :: Partition(t).0 <= Flag(o') ==> o' == o)
      && arg == (if Lookup(t).Some? then None else Partition(t).1)
  {
    var (head, arg) := Partition(t);
    match Lookup(t)
    case Some(o) =>
      OnlyExtension(o);
      NoEqualsInFlag(o);
    case None =>
      if arg.Some? && Lookup(head).Some? {
        OnlyExtension(Lookup(head).value);
      } else {
        var c := Extending(head, ALL_OPTS);
        assert Resolve(t) == Some((c[0], arg));
        assert |c| == 1;
        forall o': Opt | head <= Flag(o') ensures o' == c[0] {
          AllOptsComplete(o');
          assert o' in c;
        }
      }
  }

  /** Every spelling names its own option, with no argument. */
  lemma ResolveFlag(o: Opt)
    ensures Resolve(Flag(o)) == Some((o, None))
  {
    TableConsistent(o);
  }

  /** A token free of `=` that starts no spelling names nothing. */
  lemma ResolveUnknown(t: string)
    requires '=' !in t
    requires forall o: Opt :: !(t <= Flag(o))
    ensures Resolve(t) == None
  {
    assert Partition(t) == (t, None);
    assert Lookup(t).None?;
    var c := Extending(t, ALL_OPTS);
    assert forall i | 0 <= i < |c| :: c[i] in c;
  }

  /** `t` is an option string naming `o`. */
  predicate Names(t: string, o: Opt) {
    Resolve(t).Some? && Resolve(t).value.0 == o
  }

  /** Some token names option `o`, spelled out or abbreviated. */
  predicate Given(tokens: seq<string>, o: Opt) {
    exists i | 0 <= i < |tokens| :: Names(tokens[i], o)
  }

  /** The number of leading tokens that argparse reads as arguments, not options. */
  function ArgumentRun(tokens: seq<string>): (n: nat)
    ensures n <= |tokens|
    ensures forall i | 0 <= i < n :: !IsOptionLike(tokens[i])
    ensures n < |tokens| ==> IsOptionLike(tokens[n])
  {
    if tokens == [] || IsOptionLike(tokens[0]) then 0 else 1 + ArgumentRun(tokens[1..])
  }

  /** The namespace argparse fills in: every key, with `None` for an option not given. */
  type RawArgs = map<string, Option<Value>>

  /** The value an option of this kind stores. */
  predicate Fits(o: Opt, v: Value) {
    match ActionOf(o)
    case StoreTrue => v == BoolVal(true)
    case StoreString => v.StrVal?
    case StoreInt => v.IntVal?
    case StoreList => v.ListVal?
  }

  /** The namespace holds the name as text, one entry per option of the right kind, and no other key. */
  predicate WellFormed(ns: RawArgs) {
    && VARIABLE_NAME_KEY in ns && ns[VARIABLE_NAME_KEY].Some? && ns[VARIABLE_NAME_KEY].value.StrVal?
    && (forall o: Opt :: Dest(o) in ns && (ns[Dest(o)].None? || Fits(o, ns[Dest(o)].value)))
    && (forall k | k in ns :: k == VARIABLE_NAME_KEY || OptOfKey(k).Some?)
  }

  /** The namespace before any token is read: the defaults. */
  const DEFAULTS: RawArgs := map[
    "variable_name" := Some(StrVal("_stan_model")),
    "O" := None, "allow_undefined" := None, "use-opencl" := None,
    "warn-uninitialized" := None, "warn-pedantic" := None, "include_paths" := None,
    "name" := None, "STAN_OPENCL" := None, "OPENCL_DEVICE_ID" := None,
    "OPENCL_PLATFORM_ID" := None, "STAN_MPI" := None, "STAN_THREADS" := None]

  lemma DefaultsWellFormed()
    ensures WellFormed(DEFAULTS)
    ensures DEFAULTS[VARIABLE_NAME_KEY] == Some(StrVal(DEFAULT_VARIABLE_NAME))
    ensures forall o: Opt :: DEFAULTS[Dest(o)].None?
  {
    forall o: Opt ensures Dest(o) in DEFAULTS && DEFAULTS[Dest(o)].None? {
    }
  }

  /** Why argparse gives up (it exits with a usage message), or why `parse_args` raises. */
  datatype ArgError =
    | UsageError                        // argparse: unknown option, missing or malformed argument, extra argument
    | InvalidVariableName(name: string) // ValueError: the name is not a Python identifier

  function Store(ns: RawArgs, o: Opt, v: Value): RawArgs {
    ns[Dest(o) := Some(v)]
  }

  lemma StoreKeepsWellFormed(ns: RawArgs, o: Opt, v: Value)
    requires WellFormed(ns) && Fits(o, v)
    ensures WellFormed(Store(ns, o, v))
  {
    var ns' := Store(ns, o, v);
    TableConsistent(o);
    forall o2: Opt ensures Dest(o2) in ns' && (ns'[Dest(o2)].None? || Fits(o2, ns'[Dest(o2)].value)) {
      TableConsistent(o2);
    }
  }

  /**
   * What option `o`, read at `tokens[0]` with the argument `explicit` written after `=`,
   * takes: how many tokens it uses (itself included) and the value it stores, or `None`
   * when argparse rejects its argument (missing, an option string instead of an
   * argument, not an `int`, or an argument given to a flag).
   */
  function ConsumeOption(tokens: seq<string>, o: Opt, explicit: Option<string>): (r: Option<(nat, Value)>)
    requires tokens != []
    ensures r.Some? ==> 1 <= r.value.0 <= |tokens| && Fits(o, r.value.1)
    ensures r.Some? ==> forall i | 1 <= i < r.value.0 :: !IsOptionLike(tokens[i])
    ensures explicit.Some? && r.Some? ==> r.value.0 == 1
    ensures ActionOf(o) == StoreTrue ==> r == if explicit.None? then Some((1, BoolVal(true))) else None
  {
    match explicit
    case Some(arg) =>
      (match ActionOf(o)
       case StoreTrue => None
       case StoreString => Some((1, StrVal(arg)))
       case StoreInt =>
         (match ParseInt(arg)
          case None => None
          case Some(i) => Some((1, IntVal(i))))
       case StoreList => Some((1, ListVal([arg]))))
    case None =>
      match ActionOf(o)
      case StoreTrue => Some((1, BoolVal(true)))
      case StoreString =>
        if |tokens| < 2 || IsOptionLike(tokens[1]) then None else Some((2, StrVal(tokens[1])))
      case StoreInt =>
        if |tokens| < 2 || IsOptionLike(tokens[1]) then None
        else (match ParseInt(tokens[1])
              case None => None
              case Some(i) => Some((2, IntVal(i))))
      case StoreList =>
        var n := ArgumentRun(tokens[1..]);
        assert forall i | 1 <= i < 1 + n :: tokens[i] == tokens[1..][i - 1];
        Some((1 + n, ListVal(tokens[1..1 + n])))
  }

  /**
   * argparse's `parse_args` on the token list, for this parser. `positionalDone` says
   * whether the positional `variable_name` has been consumed. A token that is not an
   * option fills the positional the first time and is an unrecognised argument after
   * that; an option stores its value, the last occurrence winning.
   */
  function ParseTokens(tokens: seq<string>, ns: RawArgs, positionalDone: bool): (r: Result<RawArgs, ArgError>)
    requires WellFormed(ns)
    ensures r.Success? ==> WellFormed(r.value) && r.value.Keys == ns.Keys
    ensures r.Failure? ==> r.error == UsageError
    decreases |tokens|
  {
    if tokens == [] then Success(ns)
    else if !IsOptionLike(tokens[0]) then
      if positionalDone then Failure(UsageError)
      else ParseTokens(tokens[1..], ns[VARIABLE_NAME_KEY := Some(StrVal(tokens[0]))], true)
    else
      match Resolve(tokens[0])
      case None => Failure(UsageError)
      case Some((o, explicit)) =>
        match ConsumeOption(tokens, o, explicit)
        case None => Failure(UsageError)
        case Some((k, v)) =>
          StoreKeepsWellFormed(ns, o, v);
          ParseTokens(tokens[k..], Store(ns, o, v), positionalDone)
  }

  /** What `parse_args` returns: the variable name, the stanc options and the C++ options. */
  datatype ParsedArgs = ParsedArgs(variableName: string, stancArgs: map<string, Value>, cppArgs: map<string, Value>)

  /** The namespace with every `None` entry dropped: the keys given a value, with that value. */
  function DropNone(raw: RawArgs): (m: map<string, Value>)
    ensures forall k :: k in m <==> k in raw && raw[k].Some?
    ensures forall k | k in m :: raw[k] == Some(m[k])
  {
    map k | k in raw && raw[k].Some? :: raw[k].value
  }

  /** The entries that stay with stanc: neither the variable name nor a C++ option. */
  function StancPart(args: map<string, Value>): map<string, Value> {
    map k | k in args && k != VARIABLE_NAME_KEY && k !in CPP_OPTS :: args[k]
  }

  /** The entries that move to the C++ options. */
  function CppPart(args: map<string, Value>): map<string, Value> {
    map k | k in args && k in CPP_OPTS :: args[k]
  }

  /** `parse_args` on an already split argument string. */
  function ClassifyTokens(tokens: seq<string>): Result<ParsedArgs, ArgError> {
    DefaultsWellFormed();
    match ParseTokens(tokens, DEFAULTS, false)
    case Failure(e) => Failure(e)
    case Success(raw) =>
      var args := DropNone(raw);
      var name := raw[VARIABLE_NAME_KEY].value.s;
      if IsIdentifier(name) then Success(ParsedArgs(name, StancPart(args), CppPart(args)))
      else Failure(InvalidVariableName(name))
  }

  /** `parse_args(argstring)`: the specification the method below is proved against. */
  function ParseArgsSpec(argstring: string): Result<ParsedArgs, ArgError> {
    ClassifyTokens(Split(argstring))
  }

  /**
   * The loop over `CPP_OPTS` in `parse_args`: every C++ option present in `stancArgs` is
   * popped from it into a fresh map.
   */
  method MoveCppOptions(args: map<string, Value>) returns (stancArgs: map<string, Value>, cppArgs: map<string, Value>)
    requires VARIABLE_NAME_KEY !in args
    ensures stancArgs == StancPart(args)
    ensures cppArgs == CppPart(args)
  {
    stancArgs := args;
    cppArgs := map[];
    var pending := CPP_OPTS;
    while pending != {}
      invariant pending <= CPP_OPTS
      invariant forall k :: k in cppArgs <==> k in args && k in CPP_OPTS && k !in pending
      invariant forall k :: k in stancArgs <==> k in args && (k !in CPP_OPTS || k in pending)
      invariant forall k | k in cppArgs :: cppArgs[k] == args[k]
      invariant forall k | k in stancArgs :: stancArgs[k] == args[k]
      decreases pending
    {
      var arg :| arg in pending;
      if arg in stancArgs {
        cppArgs := cppArgs[arg := stancArgs[arg]];
        stancArgs := stancArgs - {arg};
      }
      pending := pending - {arg};
    }
  }

  /** Popping the variable name first changes neither part. */
  lemma PartsWithoutName(args: map<string, Value>)
    ensures StancPart(args - {VARIABLE_NAME_KEY}) == StancPart(args)
    ensures CppPart(args - {VARIABLE_NAME_KEY}) == CppPart(args)
  {
    assert VARIABLE_NAME_KEY !in CPP_OPTS;
  }

  /**
   * `parse_args`: split on whitespace, parse, drop the `None` entries, pop the variable
   * name, move every C++ option into its own map, then check the name.
   */
  method ParseArgs(argstring: string) returns (r: Result<ParsedArgs, ArgError>)
    ensures r == ParseArgsSpec(argstring)
  {
    DefaultsWellFormed();
    var parsed := ParseTokens(Split(argstring), DEFAULTS, false);
    if parsed.Failure? {
      return Failure(parsed.error);
    }
    var args := DropNone(parsed.value);
    var variableName := args[VARIABLE_NAME_KEY].s;
    var stancArgs, cppArgs := MoveCppOptions(args - {VARIABLE_NAME_KEY});
    PartsWithoutName(args);

    if !IsIdentifier(variableName) {
      return Failure(InvalidVariableName(variableName));
    }
    return Success(ParsedArgs(variableName, stancArgs, cppArgs));
  }

  /**
   * Tokens 1 to k-1 are arguments, so a token naming an option is the first one or
   * comes at position k or later.
   */
  lemma GivenSplit(tokens: seq<string>, k: nat, o: Opt)
    requires 1 <= k <= |tokens|
    requires forall i | 1 <= i < k :: !IsOptionLike(tokens[i])
    ensures Given(tokens, o) <==> Names(tokens[0], o) || Given(tokens[k..], o)
  {
    if Given(tokens, o) {
      var i :| 0 <= i < |tokens| && Names(tokens[i], o);
      if i != 0 {
        assert tokens[k..][i - k] == tokens[i];
      }
    }
    if Given(tokens[k..], o) {
      var j :| 0 <= j < |tokens[k..]| && Names(tokens[k..][j], o);
      assert tokens[k + j] == tokens[k..][j];
    }
  }

  /** An argument at the front of the tokens fills the positional, which must still be open. */
  lemma ArgumentStep(tokens: seq<string>, ns: RawArgs, positionalDone: bool)
    requires WellFormed(ns) && tokens != [] && !IsOptionLike(tokens[0])
    requires ParseTokens(tokens, ns, positionalDone).Success?
    ensures !positionalDone && forall o: Opt :: !Names(tokens[0], o)
    ensures WellFormed(ns[VARIABLE_NAME_KEY := Some(StrVal(tokens[0]))])
    ensures ParseTokens(tokens, ns, positionalDone)
         == ParseTokens(tokens[1..], ns[VARIABLE_NAME_KEY := Some(StrVal(tokens[0]))], true)
  {
  }

  /** A leading argument token, with the positional still open, fills it. */
  lemma ArgumentFront(tokens: seq<string>, ns: RawArgs)
    requires WellFormed(ns) && tokens != [] && !IsOptionLike(tokens[0])
    ensures WellFormed(ns[VARIABLE_NAME_KEY := Some(StrVal(tokens[0]))])
    ensures ParseTokens(tokens, ns, false)
         == ParseTokens(tokens[1..], ns[VARIABLE_NAME_KEY := Some(StrVal(tokens[0]))], true)
  {
  }

  /** The option read at the front of the tokens: what it stores and where parsing resumes. */
  lemma OptionStep(tokens: seq<string>, ns: RawArgs, positionalDone: bool) returns (o: Opt, k: nat, v: Value)
    requires WellFormed(ns) && tokens != [] && IsOptionLike(tokens[0])
    requires ParseTokens(tokens, ns, positionalDone).Success?
    ensures Names(tokens[0], o) && 1 <= k <= |tokens| && Fits(o, v)
    ensures ConsumeOption(tokens, o, Resolve(tokens[0]).value.1) == Some((k, v))
    ensures forall i | 1 <= i < k :: !IsOptionLike(tokens[i])
    ensures WellFormed(Store(ns, o, v))
    ensures ParseTokens(tokens, ns, positionalDone) == ParseTokens(tokens[k..], Store(ns, o, v), positionalDone)
  {
    var r := Resolve(tokens[0]).value;
    o := r.0;
    var c := ConsumeOption(tokens, o, r.1).value;
    k, v := c.0, c.1;
    StoreKeepsWellFormed(ns, o, v);
  }

  /** Setting the variable name leaves every option's entry as it was. */
  lemma NameKeepsOptions(ns: RawArgs, name: Option<Value>, o: Opt)
    requires Dest(o) in ns
    ensures ns[VARIABLE_NAME_KEY := name][Dest(o)] == ns[Dest(o)]
  {
    TableConsistent(o);
  }

  /** Storing a value for one option leaves every other option's entry as it was. */
  lemma StoreKeepsOthers(ns: RawArgs, stored: Opt, v: Value, o: Opt)
    requires Dest(o) in ns
    ensures Store(ns, stored, v)[Dest(o)] == if o == stored then Some(v) else ns[Dest(o)]
  {
    OptionsDistinct(o, stored);
  }

  /** Option `o` has a value after parsing exactly when it had one before or a token names it. */
  lemma {:induction false} ParseTokensOption(tokens: seq<string>, ns: RawArgs, positionalDone: bool, o: Opt)
    requires WellFormed(ns) && ParseTokens(tokens, ns, positionalDone).Success?
    ensures ParseTokens(tokens, ns, positionalDone).value[Dest(o)].Some? <==> ns[Dest(o)].Some? || Given(tokens, o)
    decreases |tokens|
  {
    if tokens != [] {
      var t := tokens[0];
      if !IsOptionLike(t) {
        ArgumentStep(tokens, ns, positionalDone);
        ParseTokensOption(tokens[1..], ns[VARIABLE_NAME_KEY := Some(StrVal(t))], true, o);
        GivenSplit(tokens, 1, o);
        NameKeepsOptions(ns, Some(StrVal(t)), o);
      } else {
        var o', k, v := OptionStep(tokens, ns, positionalDone);
        ParseTokensOption(tokens[k..], Store(ns, o', v), positionalDone, o);
        GivenSplit(tokens, k, o);
        StoreKeepsOthers(ns, o', v, o);
      }
    }
  }

  /** An option no token names keeps the value it had before parsing. */
  lemma {:induction false} NotGivenKeeps(tokens: seq<string>, ns: RawArgs, positionalDone: bool, o: Opt)
    requires WellFormed(ns) && ParseTokens(tokens, ns, positionalDone).Success? && !Given(tokens, o)
    ensures ParseTokens(tokens, ns, positionalDone).value[Dest(o)] == ns[Dest(o)]
    decreases |tokens|
  {
    if tokens != [] {
      var t := tokens[0];
      if !IsOptionLike(t) {
        ArgumentStep(tokens, ns, positionalDone);
        GivenSplit(tokens, 1, o);
        NotGivenKeeps(tokens[1..], ns[VARIABLE_NAME_KEY := Some(StrVal(t))], true, o);
        NameKeepsOptions(ns, Some(StrVal(t)), o);
      } else {
        var o', k, v := OptionStep(tokens, ns, positionalDone);
        GivenSplit(tokens, k, o);
        NotGivenKeeps(tokens[k..], Store(ns, o', v), positionalDone, o);
        StoreKeepsOthers(ns, o', v, o);
      }
    }
  }

  /** No token past the first `b` names `o` if none past the first `a <= b` does. */
  lemma NotGivenLater(tokens: seq<string>, a: nat, b: nat, o: Opt)
    requires a <= b <= |tokens| && !Given(tokens[a..], o)
    ensures !Given(tokens[b..], o)
  {
    forall j | 0 <= j < |tokens[b..]|
      ensures !Names(tokens[b..][j], o)
    {
      assert tokens[b..][j] == tokens[a..][j + b - a];
    }
  }

  /**
   * When an option is named several times, the last occurrence wins: the option's entry
   * holds the value read at the last token naming it.
   */
  lemma {:induction false} LastOccurrenceWins(tokens: seq<string>, ns: RawArgs, positionalDone: bool, o: Opt, i: nat)
    requires WellFormed(ns) && ParseTokens(tokens, ns, positionalDone).Success?
    requires i < |tokens| && Names(tokens[i], o) && !Given(tokens[i + 1..], o)
    ensures ConsumeOption(tokens[i..], o, Resolve(tokens[i]).value.1).Some?
    ensures ParseTokens(tokens, ns, positionalDone).value[Dest(o)]
      == Some(ConsumeOption(tokens[i..], o, Resolve(tokens[i]).value.1).value.1)
    decreases |tokens|
  {
    var t := tokens[0];
    if !IsOptionLike(t) {
      ArgumentStep(tokens, ns, positionalDone);
      var rest := tokens[1..];
      assert rest[i - 1] == tokens[i] && rest[i - 1..] == tokens[i..] && rest[i..] == tokens[i + 1..];
      LastOccurrenceWins(rest, ns[VARIABLE_NAME_KEY := Some(StrVal(t))], true, o, i - 1);
      NameKeepsOptions(ns, Some(StrVal(t)), o);
    } else {
      var o', k, v := OptionStep(tokens, ns, positionalDone);
      if i == 0 {
        assert tokens[0..] == tokens;
        NotGivenLater(tokens, 1, k, o);
        NotGivenKeeps(tokens[k..], Store(ns, o', v), positionalDone, o);
        StoreKeepsOthers(ns, o', v, o);
      } else {
        // option strings are never taken as arguments, so the option at `i` lies past them
        assert k <= i;
        var rest := tokens[k..];
        assert rest[i - k] == tokens[i] && rest[i - k..] == tokens[i..] && rest[i - k + 1..] == tokens[i + 1..];
        LastOccurrenceWins(rest, Store(ns, o', v), positionalDone, o, i - k);
      }
    }
  }

  /**
   * The variable name after parsing is the one before, or a token read as an argument;
   * once the positional is filled it no longer changes, and a leading argument token fills it.
   */
  lemma {:induction false} ParseTokensName(tokens: seq<string>, ns: RawArgs, positionalDone: bool)
    requires WellFormed(ns) && ParseTokens(tokens, ns, positionalDone).Success?
    ensures var name := ParseTokens(tokens, ns, positionalDone).value[VARIABLE_NAME_KEY];
      && (name == ns[VARIABLE_NAME_KEY] || (name.value.s in tokens && !IsOptionLike(name.value.s)))
      && (positionalDone ==> name == ns[VARIABLE_NAME_KEY])
      && (!positionalDone && tokens != [] && !IsOptionLike(tokens[0]) ==> name == Some(StrVal(tokens[0])))
    decreases |tokens|
  {
    if tokens != [] {
      var t := tokens[0];
      if !IsOptionLike(t) {
        ArgumentStep(tokens, ns, positionalDone);
        ParseTokensName(tokens[1..], ns[VARIABLE_NAME_KEY := Some(StrVal(t))], true);
      } else {
        var o', k, v := OptionStep(tokens, ns, positionalDone);
        TableConsistent(o');
        ParseTokensName(tokens[k..], Store(ns, o', v), positionalDone);
        var name := ParseTokens(tokens, ns, positionalDone).value[VARIABLE_NAME_KEY];
        if name.value.s in tokens[k..] {
          var j :| 0 <= j < |tokens[k..]| && tokens[k..][j] == name.value.s;
          assert tokens[k + j] == name.value.s;
        }
      }
    }
  }

  /**
   * What an option stores. An option taking one argument reads the text after `=`, or
   * else the next token when that is an argument: `--name` stores that text and an
   * integer option its `int()` value, and both fail when there is no such argument or,
   * for an integer option, when it is not an integer. `--include_paths` stores the text
   * after `=` alone, or else every argument token up to the next option string or the end.
   */
  lemma ConsumedValue(tokens: seq<string>, o: Opt, explicit: Option<string>)
    requires tokens != []
    ensures var r := ConsumeOption(tokens, o, explicit);
      var arg := if explicit.Some? then Some(explicit.value)
                 else if |tokens| >= 2 && !IsOptionLike(tokens[1]) then Some(tokens[1]) else None;
      && (ActionOf(o) == StoreString ==>
            (r.Some? <==> arg.Some?) && (r.Some? ==> r.value.1 == StrVal(arg.value)))
      && (ActionOf(o) == StoreInt ==>
            (r.Some? <==> arg.Some? && ParseInt(arg.value).Some?)
            && (r.Some? ==> r.value.1 == IntVal(ParseInt(arg.value).value)))
      && (ActionOf(o) in {StoreString, StoreInt} && r.Some? ==> r.value.0 == if explicit.Some? then 1 else 2)
      && (ActionOf(o) == StoreList ==> r.Some?)
      && (ActionOf(o) == StoreList && explicit.Some? ==> r == Some((1, ListVal([explicit.value]))))
      && (ActionOf(o) == StoreList && explicit.None? && r.Some? ==>
            && r.value.1 == ListVal(tokens[1..r.value.0])
            && (r.value.0 == |tokens| || IsOptionLike(tokens[r.value.0])))
  {
  }

  /**
   * An option string argparse cannot read, wherever it stands, makes the whole parse fail:
   * it names no option, or the option cannot take what follows it.
   */
  lemma {:induction false} StuckOptionFails(tokens: seq<string>, ns: RawArgs, positionalDone: bool, i: nat)
    requires WellFormed(ns) && i < |tokens| && IsOptionLike(tokens[i])
    requires Resolve(tokens[i]).None?
          || ConsumeOption(tokens[i..], Resolve(tokens[i]).value.0, Resolve(tokens[i]).value.1).None?
    ensures ParseTokens(tokens, ns, positionalDone).Failure?
    decreases |tokens|
  {
    if i == 0 {
      assert tokens[0..] == tokens;
    } else if !IsOptionLike(tokens[0]) {
      if !positionalDone {
        assert tokens[1..][i - 1..] == tokens[i..];
        StuckOptionFails(tokens[1..], ns[VARIABLE_NAME_KEY := Some(StrVal(tokens[0]))], true, i - 1);
      }
    } else if Resolve(tokens[0]).Some? {
      var (o, explicit) := Resolve(tokens[0]).value;
      if ConsumeOption(tokens, o, explicit).Some? {
        var (k, v) := ConsumeOption(tokens, o, explicit).value;
        // the arguments an option takes are never option strings, so it stops at or before `i`
        assert k <= i;
        StoreKeepsWellFormed(ns, o, v);
        assert tokens[k..][i - k..] == tokens[i..];
        StuckOptionFails(tokens[k..], Store(ns, o, v), positionalDone, i - k);
      }
    }
  }

  /** An option string that names no option of the table fails the parse, wherever it stands. */
  lemma UnknownOptionFails(tokens: seq<string>, ns: RawArgs, positionalDone: bool, i: nat)
    requires WellFormed(ns) && i < |tokens| && IsOptionLike(tokens[i]) && Resolve(tokens[i]).None?
    ensures ParseTokens(tokens, ns, positionalDone).Failure?
  {
    StuckOptionFails(tokens, ns, positionalDone, i);
  }

  /** `--name` or an integer option with no argument after it (the end, or an option string) fails the parse. */
  lemma MissingArgumentFails(tokens: seq<string>, ns: RawArgs, positionalDone: bool, i: nat, o: Opt)
    requires WellFormed(ns) && i < |tokens| && Resolve(tokens[i]) == Some((o, None))
    requires ActionOf(o) == StoreString || ActionOf(o) == StoreInt
    requires i + 1 == |tokens| || IsOptionLike(tokens[i + 1])
    ensures ParseTokens(tokens, ns, positionalDone).Failure?
  {
    ConsumedValue(tokens[i..], o, None);
    StuckOptionFails(tokens, ns, positionalDone, i);
  }

  /** An integer option whose argument, after `=` or as the next token, is not an integer fails the parse. */
  lemma NonIntegerFails(tokens: seq<string>, ns: RawArgs, positionalDone: bool, i: nat, o: Opt)
    requires WellFormed(ns) && i < |tokens| && ActionOf(o) == StoreInt
    requires || (Resolve(tokens[i]) == Some((o, None)) && i + 1 < |tokens| && ParseInt(tokens[i + 1]).None?)
             || (Resolve(tokens[i]).Some? && Resolve(tokens[i]).value.0 == o
                 && Resolve(tokens[i]).value.1.Some? && ParseInt(Resolve(tokens[i]).value.1.value).None?)
    ensures ParseTokens(tokens, ns, positionalDone).Failure?
  {
    assert tokens[i..][1..] == tokens[i + 1..];
    ConsumedValue(tokens[i..], o, Resolve(tokens[i]).value.1);
    StuckOptionFails(tokens, ns, positionalDone, i);
  }

  /** A flag given an argument with `=` (`-O=1`, `--STAN_MPI=yes`) fails the parse. */
  lemma FlagArgumentFails(tokens: seq<string>, ns: RawArgs, positionalDone: bool, i: nat, o: Opt)
    requires WellFormed(ns) && i < |tokens| && ActionOf(o) == StoreTrue
    requires Resolve(tokens[i]).Some? && Resolve(tokens[i]).value.0 == o && Resolve(tokens[i]).value.1.Some?
    ensures ParseTokens(tokens, ns, positionalDone).Failure?
  {
    StuckOptionFails(tokens, ns, positionalDone, i);
  }

  lemma DefaultNameIsIdentifier()
    ensures IsIdentifier(DEFAULT_VARIABLE_NAME)
  {
    var s := DEFAULT_VARIABLE_NAME;
    forall i | 1 <= i < |s| ensures IsIdentifierPart(s[i]) {
    }
  }

  /**
   * The variable name `parse_args` returns is `_stan_model` unless a token read as an
   * argument supplies it: when no token is read as the positional (so after
   * `--STAN_THREADS 4` or `--name foo` too) it is the default, and a leading argument
   * token is always the name. The name returned is a Python identifier.
   */
  lemma VariableNameSource(argstring: string)
    requires ParseArgsSpec(argstring).Success?
    ensures var tokens, name := Split(argstring), ParseArgsSpec(argstring).value.variableName;
      && IsIdentifier(name)
      && (name == DEFAULT_VARIABLE_NAME || (name in tokens && !IsOptionLike(name)))
      && (ParsesWithoutPositional(tokens) ==> name == DEFAULT_VARIABLE_NAME)
      && ((forall i | 0 <= i < |tokens| :: IsOptionLike(tokens[i])) ==> name == DEFAULT_VARIABLE_NAME)
      && (tokens != [] && !IsOptionLike(tokens[0]) ==> name == tokens[0])
  {
    DefaultsWellFormed();
    var tokens := Split(argstring);
    ParseTokensName(tokens, DEFAULTS, false);
    if ParsesWithoutPositional(tokens) {
      PositionalIrrelevant(tokens, DEFAULTS);
      ParseTokensName(tokens, DEFAULTS, true);
    }
  }

  /**
   * A name that is not an identifier raises: a leading argument token that fails
   * `isidentifier` yields no maps, and the name a `ValueError` reports is always such a token.
   */
  lemma InvalidNameRaises(argstring: string)
    ensures var tokens, r := Split(argstring), ParseArgsSpec(argstring);
      && (tokens != [] && !IsOptionLike(tokens[0]) && !IsIdentifier(tokens[0]) ==>
            r == Failure(UsageError) || r == Failure(InvalidVariableName(tokens[0])))
      && (r.Failure? && r.error.InvalidVariableName? ==>
            !IsIdentifier(r.error.name) && r.error.name in tokens && !IsOptionLike(r.error.name))
  {
    DefaultsWellFormed();
    DefaultNameIsIdentifier();
    var tokens := Split(argstring);
    var parsed := ParseTokens(tokens, DEFAULTS, false);
    if parsed.Success? {
      ParseTokensName(tokens, DEFAULTS, false);
      var name := parsed.value[VARIABLE_NAME_KEY].value.s;
      assert ParseArgsSpec(argstring).Failure? <==> !IsIdentifier(name);
      assert ParseArgsSpec(argstring).Failure? ==> ParseArgsSpec(argstring) == Failure(InvalidVariableName(name));
    }
  }

  /** The tokens parse with no token read as the positional `variable_name`. */
  predicate ParsesWithoutPositional(tokens: seq<string>) {
    DefaultsWellFormed();
    ParseTokens(tokens, DEFAULTS, true).Success?
  }

  /**
   * Read after `pre`, the argument token `w` fills the positional: `pre` parses without
   * it, and no option of `pre` takes `w` as an argument, since `pre + [w]` does not parse
   * without a positional.
   */
  predicate PositionalAfter(pre: seq<string>, w: string, ns: RawArgs) {
    && WellFormed(ns) && !IsOptionLike(w)
    && ParseTokens(pre, ns, true).Success? && ParseTokens(pre + [w], ns, true).Failure?
  }

  /**
   * The first step of a parse that reads no positional: an option, resolved and read
   * the same way whether or not the positional is still open.
   */
  lemma OptionFirst(tokens: seq<string>, ns: RawArgs) returns (o: Opt, k: nat, v: Value)
    requires WellFormed(ns) && tokens != [] && ParseTokens(tokens, ns, true).Success?
    ensures IsOptionLike(tokens[0]) && Resolve(tokens[0]).Some? && Resolve(tokens[0]).value.0 == o
    ensures ConsumeOption(tokens, o, Resolve(tokens[0]).value.1) == Some((k, v))
    ensures 1 <= k <= |tokens| && WellFormed(Store(ns, o, v))
    ensures forall pd: bool :: ParseTokens(tokens, ns, pd) == ParseTokens(tokens[k..], Store(ns, o, v), pd)
  {
    var r := Resolve(tokens[0]).value;
    o := r.0;
    var c := ConsumeOption(tokens, o, r.1).value;
    k, v := c.0, c.1;
    StoreKeepsWellFormed(ns, o, v);
  }

  /** An option read at the front of the tokens, whatever follows its arguments. */
  lemma OptionFront(tokens: seq<string>, ns: RawArgs, positionalDone: bool, o: Opt, explicit: Option<string>, k: nat, v: Value)
    requires WellFormed(ns) && tokens != [] && IsOptionLike(tokens[0])
    requires Resolve(tokens[0]) == Some((o, explicit)) && ConsumeOption(tokens, o, explicit) == Some((k, v))
    ensures WellFormed(Store(ns, o, v))
    ensures ParseTokens(tokens, ns, positionalDone) == ParseTokens(tokens[k..], Store(ns, o, v), positionalDone)
  {
    StoreKeepsWellFormed(ns, o, v);
  }

  /** When no token is read as the positional, whether the positional was still open does not matter. */
  lemma {:induction false} PositionalIrrelevant(tokens: seq<string>, ns: RawArgs)
    requires WellFormed(ns) && ParseTokens(tokens, ns, true).Success?
    ensures ParseTokens(tokens, ns, false) == ParseTokens(tokens, ns, true)
    decreases |tokens|
  {
    if tokens != [] {
      var o, k, v := OptionFirst(tokens, ns);
      PositionalIrrelevant(tokens[k..], Store(ns, o, v));
    }
  }

  lemma {:induction false} ArgumentRunAppend(s: seq<string>, x: seq<string>)
    ensures ArgumentRun(s + x) == if ArgumentRun(s) < |s| then ArgumentRun(s) else |s| + ArgumentRun(x)
  {
    if s == [] {
      assert s + x == x;
    } else {
      assert (s + x)[0] == s[0];
      if !IsOptionLike(s[0]) {
        assert (s + x)[1..] == s[1..] + x;
        ArgumentRunAppend(s[1..], x);
      }
    }
  }

  /** Reading an option looks no further than its own arguments, unless it is a `nargs="*"` run that reaches the end. */
  lemma ConsumeAppend(tokens: seq<string>, x: seq<string>, o: Opt, explicit: Option<string>)
    requires tokens != [] && ConsumeOption(tokens, o, explicit).Some?
    ensures || (ActionOf(o) == StoreList && explicit.None? && ConsumeOption(tokens, o, explicit).value.0 == |tokens|)
            || ConsumeOption(tokens + x, o, explicit) == ConsumeOption(tokens, o, explicit)
  {
    var t := tokens + x;
    assert t[0] == tokens[0];
    if |tokens| >= 2 {
      assert t[1] == tokens[1];
    }
    if ActionOf(o) == StoreList && explicit.None? {
      assert t[1..] == tokens[1..] + x;
      ArgumentRunAppend(tokens[1..], x);
      var n := ArgumentRun(tokens[1..]);
      if n < |tokens| - 1 {
        assert t[1..1 + n] == tokens[1..1 + n];
      }
    }
  }

  /** A `nargs="*"` run that reaches the end of `pre` also takes an argument token put after it. */
  lemma ListRunTakes(pre: seq<string>, w: string, ns: RawArgs, o: Opt)
    requires WellFormed(ns) && pre != []
    ensures (&& Resolve(pre[0]) == Some((o, None)) && ActionOf(o) == StoreList && !IsOptionLike(w)
             && ConsumeOption(pre, o, None).Some? && ConsumeOption(pre, o, None).value.0 == |pre|)
            ==> ParseTokens(pre + [w], ns, true).Success?
  {
    if && Resolve(pre[0]) == Some((o, None)) && ActionOf(o) == StoreList && !IsOptionLike(w)
       && ConsumeOption(pre, o, None).Some? && ConsumeOption(pre, o, None).value.0 == |pre|
    {
      var t := pre + [w];
      assert t[0] == pre[0];
      assert t[1..] == pre[1..] + [w];
      ArgumentRunAppend(pre[1..], [w]);
      assert [w][1..] == [];
      var c := ConsumeOption(t, o, None).value;
      assert c.0 == |t|;
      StoreKeepsWellFormed(ns, o, c.1);
      assert t[c.0..] == [];
    }
  }

  lemma DropAppend(a: seq<string>, b: seq<string>, k: nat)
    requires k <= |a|
    ensures (a + b)[k..] == a[k..] + b
  {
  }

  /** The first option of `pre` takes the same arguments when more tokens follow `pre`. */
  lemma ConsumeSame(pre: seq<string>, rest: seq<string>, ns: RawArgs, o: Opt, explicit: Option<string>, k: nat, v: Value)
    requires pre != [] && rest != [] && PositionalAfter(pre, rest[0], ns)
    requires Resolve(pre[0]).Some? && Resolve(pre[0]).value.0 == o && Resolve(pre[0]).value.1 == explicit
    requires ConsumeOption(pre, o, explicit) == Some((k, v))
    ensures ConsumeOption(pre + [rest[0]], o, explicit) == Some((k, v))
    ensures ConsumeOption(pre + rest, o, explicit) == Some((k, v))
  {
    ConsumeAppend(pre, [rest[0]], o, explicit);
    ConsumeAppend(pre, rest, o, explicit);
    ListRunTakes(pre, rest[0], ns, o);
  }

  /** The first option of `pre` is read the same way when more tokens follow `pre`. */
  lemma SkipFirst(pre: seq<string>, rest: seq<string>, ns: RawArgs, positionalDone: bool) returns (k: nat, ns': RawArgs)
    requires pre != [] && rest != [] && PositionalAfter(pre, rest[0], ns)
    ensures 1 <= k <= |pre| && PositionalAfter(pre[k..], rest[0], ns')
    ensures ParseTokens(pre, ns, true) == ParseTokens(pre[k..], ns', true)
    ensures ParseTokens(pre + rest, ns, positionalDone) == ParseTokens(pre[k..] + rest, ns', positionalDone)
  {
    var w := rest[0];
    var t1, t2 := pre + [w], pre + rest;
    assert t1[0] == pre[0] && t2[0] == pre[0];
    var o, v;
    o, k, v := OptionFirst(pre, ns);
    ns' := Store(ns, o, v);
    var e := Resolve(pre[0]).value.1;
    ConsumeSame(pre, rest, ns, o, e, k, v);
    OptionFront(t1, ns, true, o, e, k, v);
    OptionFront(t2, ns, positionalDone, o, e, k, v);
    DropAppend(pre, [w], k);
    DropAppend(pre, rest, k);
  }

  /** The options before an argument token that fills the positional are read on their own. */
  lemma {:induction false} SkipOptions(pre: seq<string>, rest: seq<string>, ns: RawArgs, positionalDone: bool)
    requires rest != [] && PositionalAfter(pre, rest[0], ns)
    ensures ParseTokens(pre + rest, ns, positionalDone) == ParseTokens(rest, ParseTokens(pre, ns, true).value, positionalDone)
    decreases |pre|
  {
    if pre == [] {
      assert pre + rest == rest;
    } else {
      var k, ns' := SkipFirst(pre, rest, ns, positionalDone);
      SkipOptions(pre[k..], rest, ns', positionalDone);
    }
  }

  /**
   * Once the positional is filled, an argument token that no option takes is left over,
   * and argparse gives up ("unrecognized arguments").
   */
  lemma ExtraArgumentFails(pre: seq<string>, rest: seq<string>, ns: RawArgs)
    requires rest != [] && PositionalAfter(pre, rest[0], ns)
    ensures ParseTokens(pre + rest, ns, true).Failure?
  {
    SkipOptions(pre, rest, ns, true);
  }

  /** `a b`: the second argument token has nowhere to go. */
  lemma ExampleExtraArgument(line: string)
    requires Split(line) == ["a", "b"]
    ensures ParseArgsSpec(line) == Failure(UsageError)
  {
    DefaultsWellFormed();
    var ns1 := DEFAULTS[VARIABLE_NAME_KEY := Some(StrVal("a"))];
    ArgumentFront(Split(line), DEFAULTS);
    assert Split(line)[1..] == [] + ["b"];
    ExtraArgumentFails([], ["b"], ns1);
  }

  /**
   * An argument token that no option before it takes is the variable name: `parse_args`
   * returns it as the name, or raises `ValueError` for it when it is not an identifier,
   * unless argparse gives up.
   */
  lemma PositionalIsName(argstring: string, pre: seq<string>, rest: seq<string>)
    requires Split(argstring) == pre + rest && rest != [] && PositionalAfter(pre, rest[0], DEFAULTS)
    ensures var r := ParseArgsSpec(argstring);
      && (r.Success? ==> r.value.variableName == rest[0])
      && (!IsIdentifier(rest[0]) ==> r == Failure(UsageError) || r == Failure(InvalidVariableName(rest[0])))
  {
    var ns1 := ParseTokens(pre, DEFAULTS, true).value;
    SkipOptions(pre, rest, DEFAULTS, false);
    if ParseTokens(rest, ns1, false).Success? {
      ParseTokensName(rest, ns1, false);
    }
  }

  /** `-O 2cool`: the name after an option is still checked, and raises. */
  lemma ExampleOptionThenInvalidName(line: string)
    requires Split(line) == ["-O", "2cool"]
    ensures ParseArgsSpec(line) == Failure(InvalidVariableName("2cool"))
  {
    var tokens := Split(line);
    DefaultsWellFormed();
    ResolveFlag(O);
    var ns1 := Store(DEFAULTS, O, BoolVal(true));
    StoreKeepsWellFormed(DEFAULTS, O, BoolVal(true));
    assert ParseTokens([Flag(O)], DEFAULTS, true) == Success(ns1);
    assert ParseTokens([Flag(O), "2cool"], DEFAULTS, true) == ParseTokens(["2cool"], ns1, true);
    assert tokens == [Flag(O)] + ["2cool"];
    PositionalIsName(line, [Flag(O)], ["2cool"]);
    assert ParseTokens(["2cool"], ns1, false).Success?;
  }

  /**
   * With no token read as the positional, `parse_args` does not raise and the name is
   * `_stan_model`, whatever options come with their arguments.
   */
  lemma DefaultNameWithoutPositional(argstring: string)
    requires ParsesWithoutPositional(Split(argstring))
    ensures ParseArgsSpec(argstring).Success? && ParseArgsSpec(argstring).value.variableName == DEFAULT_VARIABLE_NAME
  {
    DefaultsWellFormed();
    DefaultNameIsIdentifier();
    var tokens := Split(argstring);
    PositionalIrrelevant(tokens, DEFAULTS);
    ParseTokensName(tokens, DEFAULTS, true);
  }

  /** An option that takes text, then one argument token: the option stores it. */
  lemma ParseOptionAndArgument(tokens: seq<string>, ns: RawArgs, positionalDone: bool, o: Opt, w: string)
    requires WellFormed(ns) && ActionOf(o) in {StoreString, StoreList} && !IsOptionLike(w)
    requires tokens == [Flag(o), w]
    ensures ParseTokens(tokens, ns, positionalDone)
         == Success(Store(ns, o, if ActionOf(o) == StoreString then StrVal(w) else ListVal([w])))
  {
    ResolveFlag(o);
    FlagIsOptionLike(o);
    var v := if ActionOf(o) == StoreString then StrVal(w) else ListVal([w]);
    assert tokens[1] == w && tokens[1..] == [w] && tokens[1..2] == [w] && [w][1..] == [];
    assert ArgumentRun(tokens[1..]) == 1;
    assert ConsumeOption(tokens, o, None) == Some((2, v));
    OptionFront(tokens, ns, positionalDone, o, None, 2, v);
    assert tokens[2..] == [];
  }

  /** `--include_paths a` and `--name a`: the argument belongs to the option, so the name stays `_stan_model`. */
  lemma ExampleArgumentIsNotName(line: string, o: Opt)
    requires o in {IncludePaths, Name} && Split(line) == [Flag(o), "a"]
    ensures ParseArgsSpec(line).Success? && ParseArgsSpec(line).value.variableName == DEFAULT_VARIABLE_NAME
  {
    DefaultsWellFormed();
    ParseOptionAndArgument(Split(line), DEFAULTS, true, o, "a");
    DefaultNameWithoutPositional(line);
  }

  /**
   * After `parse_args`, an option is in one of the two maps exactly when it was given,
   * in the C++ map exactly when its key is a C++ option; the variable name is in neither,
   * the maps share no key, and every key is an option's.
   */
  lemma OptionsPresentIffGiven(argstring: string)
    requires ParseArgsSpec(argstring).Success?
    ensures var tokens, p := Split(argstring), ParseArgsSpec(argstring).value;
      && VARIABLE_NAME_KEY !in p.stancArgs && VARIABLE_NAME_KEY !in p.cppArgs
      && p.stancArgs.Keys !! p.cppArgs.Keys
      && (forall k | k in p.stancArgs || k in p.cppArgs :: OptOfKey(k).Some?)
      && (forall o: Opt :: Dest(o) in p.stancArgs || Dest(o) in p.cppArgs <==> Given(tokens, o))
      && (forall o: Opt | Given(tokens, o) ::
            if Dest(o) in CPP_OPTS then Dest(o) in p.cppArgs else Dest(o) in p.stancArgs)
  {
    DefaultsWellFormed();
    var tokens := Split(argstring);
    var raw := ParseTokens(tokens, DEFAULTS, false).value;
    forall o: Opt ensures Dest(o) in DropNone(raw) <==> Given(tokens, o) {
      TableConsistent(o);
      ParseTokensOption(tokens, DEFAULTS, false, o);
    }
  }

  /**
   * Every value `parse_args` returns is of its option's kind: `True` for a flag (never
   * `False` or `None`), an `int` for the integer options, text for `--name` and a list
   * for `--include_paths`.
   */
  lemma OptionValuesFit(argstring: string)
    requires ParseArgsSpec(argstring).Success?
    ensures var p := ParseArgsSpec(argstring).value;
      && (forall o: Opt | Dest(o) in p.stancArgs :: Fits(o, p.stancArgs[Dest(o)]))
      && (forall o: Opt | Dest(o) in p.cppArgs :: Fits(o, p.cppArgs[Dest(o)]))
  {
    DefaultsWellFormed();
  }

  /**
   * The two maps split the options left after the variable name is removed: no key in
   * both, none lost, each value the one parsed, and the C++ side holding exactly the keys
   * in `CPP_OPTS`, whatever their values or positions.
   */
  lemma PartitionOfArgs(args: map<string, Value>)
    ensures StancPart(args).Keys !! CppPart(args).Keys
    ensures StancPart(args).Keys + CppPart(args).Keys == args.Keys - {VARIABLE_NAME_KEY}
    ensures CppPart(args).Keys == args.Keys * CPP_OPTS
    ensures forall k | k in CppPart(args) :: CppPart(args)[k] == args[k]
    ensures forall k | k in StancPart(args) :: StancPart(args)[k] == args[k]
  {
  }

  /** `str(n)` is read as an argument, never as an option, even when `n` is negative. */
  lemma IntIsArgument(n: int)
    ensures !IsOptionLike(IntToString(n))
  {
    var s := IntToString(n);
    if n < 0 {
      NatToStringDigits(-n);
      assert s[1..] == NatToString(-n);
      DigitsAreNumberTail(s[1..], false);
    } else {
      NatToStringDigits(n);
      assert s[0] == NatToString(n)[0];
    }
  }

  /**
   * A flag, then an integer option with its value, store `True` and the value: so
   * `-O --STAN_THREADS 4`, and `--STAN_OPENCL --OPENCL_DEVICE_ID -1` with its negative id.
   */
  lemma ParseFlagAndInt(tokens: seq<string>, ns: RawArgs, positionalDone: bool, f: Opt, i: Opt, n: int)
    requires WellFormed(ns) && ActionOf(f) == StoreTrue && ActionOf(i) == StoreInt
    requires tokens == [Flag(f), Flag(i), IntToString(n)]
    ensures ParseTokens(tokens, ns, positionalDone)
         == Success(Store(Store(ns, f, BoolVal(true)), i, IntVal(n)))
  {
    ResolveFlag(f);
    ResolveFlag(i);
    FlagIsOptionLike(f);
    FlagIsOptionLike(i);
    IntIsArgument(n);
    ParseIntToString(n);
    var ns2 := Store(ns, f, BoolVal(true));
    OptionFront(tokens, ns, positionalDone, f, None, 1, BoolVal(true));
    var rest := tokens[1..];
    assert rest == [Flag(i), IntToString(n)];
    assert ConsumeOption(rest, i, None) == Some((2, IntVal(n)));
    OptionFront(rest, ns2, positionalDone, i, None, 2, IntVal(n));
    assert rest[2..] == [];
  }

  /** The name, `O` and `STAN_THREADS` split into stanc's `{"O": True}` and the C++ `{"STAN_THREADS": 4}`. */
  lemma ExampleSplit(m: map<string, Value>)
    requires m == map["variable_name" := StrVal("m"), "O" := BoolVal(true), "STAN_THREADS" := IntVal(4)]
    ensures StancPart(m) == map["O" := BoolVal(true)]
    ensures CppPart(m) == map["STAN_THREADS" := IntVal(4)]
  {
  }

  /** After `m -O --STAN_THREADS 4` only the name, `O` and `STAN_THREADS` are not `None`. */
  lemma ExampleNamespace(raw: RawArgs)
    requires raw == Store(Store(DEFAULTS[VARIABLE_NAME_KEY := Some(StrVal("m"))], O, BoolVal(true)), StanThreads, IntVal(4))
    ensures DropNone(raw) == map["variable_name" := StrVal("m"), "O" := BoolVal(true), "STAN_THREADS" := IntVal(4)]
    ensures StancPart(DropNone(raw)) == map["O" := BoolVal(true)]
    ensures CppPart(DropNone(raw)) == map["STAN_THREADS" := IntVal(4)]
  {
    DefaultsWellFormed();
    var expected := map["variable_name" := StrVal("m"), "O" := BoolVal(true), "STAN_THREADS" := IntVal(4)];
    forall k | k in DropNone(raw) ensures k in expected {
      if k != VARIABLE_NAME_KEY && k != "O" && k != "STAN_THREADS" {
        var o := OptOfKey(k).value;
        assert DEFAULTS[Dest(o)].None?;
      }
    }
    assert DropNone(raw) == expected;
    ExampleSplit(expected);
  }

  /** Tokens that parse to `raw`, with an identifier as the name, classify into `raw`'s two parts. */
  lemma ClassifyParsed(tokens: seq<string>, raw: RawArgs)
    requires WellFormed(DEFAULTS) && ParseTokens(tokens, DEFAULTS, false) == Success(raw)
    requires IsIdentifier(raw[VARIABLE_NAME_KEY].value.s)
    ensures ClassifyTokens(tokens)
         == Success(ParsedArgs(raw[VARIABLE_NAME_KEY].value.s, StancPart(DropNone(raw)), CppPart(DropNone(raw))))
  {
  }

  /** A name, then a flag and an integer option with its value: the name fills the positional. */
  lemma ParseNameFlagAndInt(tokens: seq<string>, ns: RawArgs, w: string, f: Opt, i: Opt, n: int)
    requires WellFormed(ns) && !IsOptionLike(w) && ActionOf(f) == StoreTrue && ActionOf(i) == StoreInt
    requires tokens == [w, Flag(f), Flag(i), IntToString(n)]
    ensures ParseTokens(tokens, ns, false)
         == Success(Store(Store(ns[VARIABLE_NAME_KEY := Some(StrVal(w))], f, BoolVal(true)), i, IntVal(n)))
  {
    ArgumentFront(tokens, ns);
    assert tokens[1..] == [Flag(f), Flag(i), IntToString(n)];
    ParseFlagAndInt(tokens[1..], ns[VARIABLE_NAME_KEY := Some(StrVal(w))], true, f, i, n);
  }

  /** The tokens `m -O --STAN_THREADS 4` name `m`, then store `True` and `4`. */
  lemma ScenarioTokens(tokens: seq<string>)
    requires tokens == ["m", "-O", "--STAN_THREADS", "4"]
    ensures WellFormed(DEFAULTS)
    ensures ParseTokens(tokens, DEFAULTS, false)
         == Success(Store(Store(DEFAULTS[VARIABLE_NAME_KEY := Some(StrVal("m"))], O, BoolVal(true)), StanThreads, IntVal(4)))
  {
    DefaultsWellFormed();
    assert Flag(O) == "-O" && Flag(StanThreads) == "--STAN_THREADS" && IntToString(4) == "4";
    ParseNameFlagAndInt(tokens, DEFAULTS, "m", O, StanThreads, 4);
  }

  /**
   * `m -O --STAN_THREADS 4`, however it is spaced, names `m`, gives stanc `{"O": True}`
   * and the C++ build `{"STAN_THREADS": 4}`.
   */
  lemma ExampleClassification(line: string)
    requires Split(line) == ["m", "-O", "--STAN_THREADS", "4"]
    ensures ParseArgsSpec(line)
         == Success(ParsedArgs("m", map["O" := BoolVal(true)], map["STAN_THREADS" := IntVal(4)]))
  {
    var tokens := Split(line);
    ScenarioTokens(tokens);
    var raw := Store(Store(DEFAULTS[VARIABLE_NAME_KEY := Some(StrVal("m"))], O, BoolVal(true)), StanThreads, IntVal(4));
    ExampleNamespace(raw);
    assert raw[VARIABLE_NAME_KEY].value.s == "m";
    assert IsIdentifier("m");
    ClassifyParsed(tokens, raw);
    assert ParseArgsSpec(line) == ClassifyTokens(tokens);
  }

  /** `--not-a-real-flag` starts no spelling, so it names nothing. */
  lemma UnknownFlagNamesNothing(t: string)
    requires t == "--not-a-real-flag"
    ensures Resolve(t) == None
  {
    forall o: Opt ensures !(t <= Flag(o)) {
      assert t[2] == 'n' && |t| == 17;
    }
    ResolveUnknown(t);
  }

  /** `--not-a-real-flag` makes argparse give up wherever it stands on the line. */
  lemma ExampleUnknownOption(line: string, i: nat)
    requires i < |Split(line)| && Split(line)[i] == "--not-a-real-flag"
    ensures ParseArgsSpec(line) == Failure(UsageError)
  {
    DefaultsWellFormed();
    UnknownFlagNamesNothing(Split(line)[i]);
    UnknownOptionFails(Split(line), DEFAULTS, false, i);
  }

  /**
   * A line that is a single argument token sets the name and nothing else: both maps are
   * empty, and the name is returned or raises according to `isidentifier`.
   */
  lemma NameOnly(w: string)
    requires !IsOptionLike(w)
    ensures ClassifyTokens([w])
         == if IsIdentifier(w) then Success(ParsedArgs(w, map[], map[])) else Failure(InvalidVariableName(w))
  {
    DefaultsWellFormed();
    var ns1 := DEFAULTS[VARIABLE_NAME_KEY := Some(StrVal(w))];
    assert [w][1..] == [];
    assert ParseTokens([w], DEFAULTS, false) == Success(ns1);
    forall k | k in ns1 && k != VARIABLE_NAME_KEY ensures ns1[k].None? {
      assert DEFAULTS[Dest(OptOfKey(k).value)].None?;
    }
    assert DropNone(ns1) == map[VARIABLE_NAME_KEY := StrVal(w)];
  }

  /** A Python keyword passes `isidentifier`, so `class` is accepted as the name. */
  lemma ExampleKeywordName()
    ensures ParseArgsSpec("class") == Success(ParsedArgs("class", map[], map[]))
  {
    SplitOfWords("class", ["class"]);
    NameOnly("class");
    assert IsIdentifier("class");
  }

  /** A comma does not separate arguments: `m,-O` is one token, and not an identifier. */
  lemma ExampleCommaIsNotASeparator()
    ensures ParseArgsSpec("m,-O") == Failure(InvalidVariableName("m,-O"))
  {
    SplitOfWords("m,-O", ["m,-O"]);
    NameOnly("m,-O");
    assert !IsIdentifierPart("m,-O"[1]);
  }

  /** A name that starts with a digit raises. */
  lemma ExampleInvalidName()
    ensures ParseArgsSpec("2cool") == Failure(InvalidVariableName("2cool"))
  {
    SplitOfWords("2cool", ["2cool"]);
    NameOnly("2cool");
  }
}
