/** The kernel command line of src/threads/init.c: `read_command_line` splits the loader's
    argument area into words, `parse_options` consumes the leading options, and `run_actions`
    and `run_interactive` look actions up in the action table and check their argument counts.
    A NULL-terminated `char **` array is a sequence of strings: the NULL after them is its end.
    The action functions themselves lie outside the model; what they return is a parameter. */
module CommandLine {
  import opened Wrappers
  import Console

  type String = seq<char>

  /** Bytes of the command-line area the loader fills (`LOADER_ARGS_LEN`). */
  const LOADER_ARGS_LEN: nat := 128
  /** Slots of the static `argv` array of `read_command_line`, the terminating NULL included. */
  const ARGV_SLOTS: nat := LOADER_ARGS_LEN / 2 + 1
  /** What `run_task` returns for a test it cannot find (`-ERT_NOT_FOUND`). */
  const NOT_FOUND: int := -1

  // ---------------------------------------------------------------- read_command_line

  /** The outcome of splitting the command line: the panic "command line arguments overflow",
      or the arguments. */
  datatype Boot = Overflow | Args(argv: seq<String>)

  /** `b` with `first` in front of its arguments. */
  function Prefix(first: seq<String>, b: Boot): (r: Boot)
    ensures r.Overflow? <==> b.Overflow?
  {
    match b
    case Overflow => Overflow
    case Args(rest) => Args(first + rest)
  }

  /** `strnlen` on the area from offset `p`: the characters before the next NUL or the end. */
  function StrLen(area: seq<char>, p: nat): (n: nat)
    requires p <= |area|
    ensures p + n <= |area| && (p + n < |area| ==> area[p + n] == Console.NUL)
    ensures forall k :: p <= k < p + n ==> area[k] != Console.NUL
    decreases |area| - p
  {
    if p == |area| || area[p] == Console.NUL then 0 else 1 + StrLen(area, p + 1)
  }

  /** The `n` arguments the loop of `read_command_line` finds from offset `p` of `area`: each
      one runs to the next NUL or the end of the area, and the next starts one byte further on;
      an argument that would start at or past the end is an overflow. */
  function ArgsFrom(area: seq<char>, p: nat, n: nat): (r: Boot)
    ensures r.Args? ==> |r.argv| == n
    decreases n
  {
    if n == 0 then Args([])
    else if p >= |area| then Overflow
    else
      var len := StrLen(area, p);
      Prefix([area[p..p + len]], ArgsFrom(area, p + len + 1, n - 1))
  }

  /** `read_command_line` with a bound on the number of arguments: besides the arguments that
      start past the end, more arguments than `argv` has slots before its NULL also panic. */
  function CommandLine(area: seq<char>, argc: nat): (r: Boot)
    ensures r.Args? ==> |r.argv| == argc < ARGV_SLOTS
  {
    if argc >= ARGV_SLOTS then Overflow else ArgsFrom(area, 0, argc)
  }

  /** Arguments laid out as the loader lays them out: each followed by a NUL. */
  function Pack(args: seq<String>): seq<char> {
    if |args| == 0 then [] else args[0] + [Console.NUL] + Pack(args[1..])
  }

  /** Whether `s` appears in `area` at offset `p`. */
  predicate At(area: seq<char>, p: nat, s: seq<char>) {
    p + |s| <= |area| && forall k :: 0 <= k < |s| ==> area[p + k] == s[k]
  }

  lemma Prefix2(first: seq<String>, second: seq<String>, b: Boot)
    ensures Prefix(first, Prefix(second, b)) == Prefix(first + second, b)
  {
    if b.Args? {
      assert first + (second + b.argv) == first + second + b.argv;
    }
  }

  /** `read_command_line`: takes the `argc` arguments from the 128-byte area in order, and
      panics when one would start at or past its end or when they do not fit in `argv`. */
  method ReadCommandLine(area: seq<char>, argc: nat) returns (r: Boot)
    requires |area| == LOADER_ARGS_LEN
    ensures r == CommandLine(area, argc)
  {
    var argv: seq<String> := [];
    var p: nat := 0;
    var i: nat := 0;
    while i < argc
      invariant i <= argc && i < ARGV_SLOTS && |argv| == i
      invariant ArgsFrom(area, 0, argc) == Prefix(argv, ArgsFrom(area, p, argc - i))
      decreases argc - i
    {
      if p >= |area| || i == ARGV_SLOTS - 1 {
        assert p >= |area| ==> ArgsFrom(area, p, argc - i) == Overflow;
        return Overflow;
      }
      var len := StrLen(area, p);
      assert ArgsFrom(area, p, argc - i) == Prefix([area[p..p + len]], ArgsFrom(area, p + len + 1, argc - i - 1));
      Prefix2(argv, [area[p..p + len]], ArgsFrom(area, p + len + 1, argc - i - 1));
      argv := argv + [area[p..p + len]];
      p := p + len + 1;
      i := i + 1;
    }
    assert argv + [] == argv;
    return Args(argv);
  }

  /** What appears at an offset appears piece by piece. */
  lemma AtSplit(area: seq<char>, p: nat, x: seq<char>, y: seq<char>)
    requires At(area, p, x + y)
    ensures At(area, p, x) && At(area, p + |x|, y)
  {
    forall k | 0 <= k < |x|
      ensures area[p + k] == x[k]
    {
      assert (x + y)[k] == x[k];
    }
    forall k | 0 <= k < |y|
      ensures area[p + |x| + k] == y[k]
    {
      assert (x + y)[|x| + k] == y[k];
    }
  }

  /** A NUL-free string followed by a NUL at offset `p` is what `strnlen` measures there. */
  lemma StrLenOfTerminated(area: seq<char>, p: nat, w: String)
    requires At(area, p, w + [Console.NUL]) && Console.NUL !in w
    ensures StrLen(area, p) == |w| && area[p..p + |w|] == w
  {
    forall j | p <= j < p + |w|
      ensures area[j] == w[j - p] && area[p..p + |w|][j - p] == w[j - p] && area[j] != Console.NUL
    {
      assert area[p + (j - p)] == (w + [Console.NUL])[j - p];
    }
    assert area[p + |w|] == (w + [Console.NUL])[|w|];
    StrLenExact(area, p, |w|);
  }

  /** `strnlen` stops at the first NUL. */
  lemma {:induction false} StrLenExact(area: seq<char>, p: nat, m: nat)
    requires p + m < |area| && area[p + m] == Console.NUL
    requires forall k :: p <= k < p + m ==> area[k] != Console.NUL
    ensures StrLen(area, p) == m
    decreases m
  {
    if m > 0 {
      StrLenExact(area, p + 1, m - 1);
    }
  }

  /** Arguments packed at offset `p` of the area come back out of the loop unchanged. */
  lemma {:induction false} ArgsFromPack(area: seq<char>, p: nat, args: seq<String>)
    requires forall k :: 0 <= k < |args| ==> Console.NUL !in args[k]
    requires At(area, p, Pack(args))
    ensures ArgsFrom(area, p, |args|) == Args(args)
    decreases |args|
  {
    if |args| > 0 {
      var w := args[0];
      var rest := Pack(args[1..]);
      var q := p + |w| + 1;
      assert Pack(args) == (w + [Console.NUL]) + rest;
      AtSplit(area, p, w + [Console.NUL], rest);
      StrLenOfTerminated(area, p, w);
      ArgsFromPack(area, q, args[1..]);
      assert [w] + args[1..] == args;
    }
  }

  /** The loader's layout round-trips: an area that begins with packed arguments, no more of
      them than `argv` has room for, is split back into exactly those arguments. */
  lemma CommandLineOfPack(area: seq<char>, args: seq<String>)
    requires |area| == LOADER_ARGS_LEN && |args| < ARGV_SLOTS
    requires forall k :: 0 <= k < |args| ==> Console.NUL !in args[k]
    requires |Pack(args)| <= |area| && area[..|Pack(args)|] == Pack(args)
    ensures CommandLine(area, |args|) == Args(args)
  {
    assert At(area, 0, Pack(args)) by {
      assert forall k :: 0 <= k < |Pack(args)| ==> area[k] == area[..|Pack(args)|][k];
    }
    ArgsFromPack(area, 0, args);
  }

  /** Conversely, whatever the loop finds, laid out again, matches the area from offset `p` on,
      the area being followed by a NUL (the last argument may run up to its end). */
  lemma {:induction false} ArgsFromIsPacked(area: seq<char>, p: nat, n: nat)
    requires p <= |area| && ArgsFrom(area, p, n).Args?
    ensures At(area + [Console.NUL], p, Pack(ArgsFrom(area, p, n).argv))
    decreases n
  {
    if n > 0 {
      var len := StrLen(area, p);
      var arg := area[p..p + len];
      var q := p + len + 1;
      var r := ArgsFrom(area, q, n - 1);
      var a := ArgsFrom(area, p, n).argv;
      assert a == [arg] + r.argv && a[1..] == r.argv;
      var packed := Pack(a);
      var tail := Pack(r.argv);
      assert packed == arg + [Console.NUL] + tail;
      var ext := area + [Console.NUL];
      if q <= |area| {
        ArgsFromIsPacked(area, q, n - 1);
      } else {
        assert tail == [];
      }
      forall k | 0 <= k < |packed|
        ensures ext[p + k] == packed[k]
      {
        if k > len {
          assert packed[k] == tail[k - len - 1];
        }
      }
    }
  }

  /** A NUL-filled area read as 65 arguments: the loop never meets the end of the area, so the
      unbounded loop returns 65 arguments, and the NULL after them would go to index 65 of an
      array of 65 slots. The bounded split panics instead. */
  lemma EmptyArgumentsOverflowArgv()
    ensures var area := seq(LOADER_ARGS_LEN, _ => Console.NUL);
            ArgsFrom(area, 0, ARGV_SLOTS) == Args(seq(ARGV_SLOTS, _ => []))
    ensures CommandLine(seq(LOADER_ARGS_LEN, _ => Console.NUL), ARGV_SLOTS) == Overflow
  {
    var area := seq(LOADER_ARGS_LEN, _ => Console.NUL);
    var args: seq<String> := seq(ARGV_SLOTS, _ => []);
    PackEmpty(args);
    ArgsFromPack(area, 0, args);
  }

  lemma {:induction false} PackEmpty(args: seq<String>)
    requires forall k :: 0 <= k < |args| ==> args[k] == []
    ensures Pack(args) == seq(|args|, _ => Console.NUL)
    decreases |args|
  {
    if |args| > 0 {
      PackEmpty(args[1..]);
      assert args[0] + [Console.NUL] == [Console.NUL];
    }
  }

  // ---------------------------------------------------------------- parse_options

  /** Which optional subsystems the kernel is built with (`FILESYS`, `VM`, `USERPROG`). */
  datatype Build = Build(filesys: bool, vm: bool, userprog: bool)

  /** What the machine does at shutdown (`shutdown_configure`). */
  datatype Shutdown = NoShutdown | PowerOff | Reboot

  /** The kernel variables the options set. The texts handed to `atoi` for `-rs` and `-ul`
      are kept in the order the options appear; a missing value is `None`. */
  datatype Settings = Settings(shutdown: Shutdown, formatFilesys: bool,
                               filesysDevice: Option<String>, scratchDevice: Option<String>,
                               swapDevice: Option<String>, seeds: seq<Option<String>>,
                               userPageLimits: seq<Option<String>>, mlfqs: bool)

  /** The outcome of `parse_options`: the index of the first non-option and the settings, the
      help text (after which `usage` powers off), or the panic on an unknown option. */
  datatype Parsed = Parsed(rest: nat, settings: Settings) | Usage | UnknownOption(name: String)

  /** Whether a word is an option: it starts with `-`. */
  predicate IsOption(arg: String) {
    |arg| > 0 && arg[0] == '-'
  }

  /** The index of the first `=` in `s`, or `|s|`. */
  function EqualsAt(s: String): (n: nat)
    ensures n <= |s| && (n < |s| ==> s[n] == '=')
    ensures forall k :: 0 <= k < n ==> s[k] != '='
  {
    if |s| == 0 || s[0] == '=' then 0 else 1 + EqualsAt(s[1..])
  }

  /** The name and value `strtok_r` finds in an option: the name runs up to the first `=`, the
      value is what follows it, and an empty value is no value. */
  function SplitOption(arg: String): (String, Option<String>) {
    var n := EqualsAt(arg);
    if n + 1 < |arg| then (arg[..n], Some(arg[n + 1..])) else (arg[..n], None)
  }

  /** The split loses nothing: the name has no `=`, and name, `=` and value give back the
      option; without a value the option is the name, perhaps followed by one `=`. */
  lemma SplitOptionJoins(arg: String)
    ensures var (name, value) := SplitOption(arg);
            '=' !in name &&
            (value.Some? ==> |value.value| > 0 && arg == name + ['='] + value.value) &&
            (value.None? ==> arg == name || arg == name + ['='])
  {
    var n := EqualsAt(arg);
    if n < |arg| {
      assert arg == arg[..n] + ['='] + arg[n + 1..] by {
        assert arg[n] == '=';
        assert arg == arg[..n] + [arg[n]] + arg[n + 1..];
      }
    } else {
      assert arg[..n] == arg;
    }
  }

  /** Names the option chain accepts, besides `-h`, in a kernel built as `build`. */
  predicate Known(build: Build, name: String) {
    name in {"-q", "-r", "-rs", "-mlfqs"} ||
    (build.filesys && name in {"-f", "-filesys", "-scratch"}) ||
    (build.filesys && build.vm && name == "-swap") ||
    (build.userprog && name == "-ul")
  }

  /** The effect of one option other than `-h`, or `None` for an unknown name. */
  function Apply(build: Build, name: String, value: Option<String>, s: Settings): (r: Option<Settings>)
    ensures r.Some? <==> Known(build, name)
    ensures r.Some? ==> (r.value.mlfqs <==> s.mlfqs || name == "-mlfqs")
  {
    if name == "-q" then Some(s.(shutdown := PowerOff))
    else if name == "-r" then Some(s.(shutdown := Reboot))
    else if build.filesys && name == "-f" then Some(s.(formatFilesys := true))
    else if build.filesys && name == "-filesys" then Some(s.(filesysDevice := value))
    else if build.filesys && name == "-scratch" then Some(s.(scratchDevice := value))
    else if build.filesys && build.vm && name == "-swap" then Some(s.(swapDevice := value))
    else if name == "-rs" then Some(s.(seeds := s.seeds + [value]))
    else if name == "-mlfqs" then Some(s.(mlfqs := true))
    else if build.userprog && name == "-ul" then Some(s.(userPageLimits := s.userPageLimits + [value]))
    else None
  }

  /** The options from index `i` on, applied to `s` in order. The leading options are consumed
      exactly: every word before `rest` is an option and the word at `rest`, if any, is not.
      A panic names an option the build does not know. */
  function Options(argv: seq<String>, build: Build, i: nat, s: Settings): (r: Parsed)
    requires i <= |argv|
    ensures r.Parsed? ==> i <= r.rest <= |argv| && (r.rest < |argv| ==> !IsOption(argv[r.rest]))
    ensures r.Parsed? ==> forall k :: i <= k < r.rest ==> IsOption(argv[k])
    ensures r.UnknownOption? ==> r.name != "-h" && !Known(build, r.name)
    decreases |argv| - i
  {
    if i == |argv| || !IsOption(argv[i]) then Parsed(i, s)
    else
      var (name, value) := SplitOption(argv[i]);
      if name == "-h" then Usage
      else match Apply(build, name, value, s)
        case None => UnknownOption(name)
        case Some(next) => Options(argv, build, i + 1, next)
  }

  /** Whether one of `argv[i..j)` is an `-mlfqs` option. */
  predicate NamesMlfqs(argv: seq<String>, i: nat, j: nat)
    requires i <= j <= |argv|
  {
    exists k :: i <= k < j && SplitOption(argv[k]).0 == "-mlfqs"
  }

  /** The scheduler flag ends up set exactly when it was already set or an `-mlfqs` option was
      among the consumed ones. */
  lemma {:induction false} MlfqsIffNamed(argv: seq<String>, build: Build, i: nat, s: Settings)
    requires i <= |argv| && Options(argv, build, i, s).Parsed?
    ensures var r := Options(argv, build, i, s);
            r.settings.mlfqs <==> s.mlfqs || NamesMlfqs(argv, i, r.rest)
    decreases |argv| - i
  {
    var r := Options(argv, build, i, s);
    if i < |argv| && IsOption(argv[i]) {
      var (name, value) := SplitOption(argv[i]);
      var next := Apply(build, name, value, s).value;
      MlfqsIffNamed(argv, build, i + 1, next);
      if NamesMlfqs(argv, i, r.rest) && !s.mlfqs && name != "-mlfqs" {
        var k :| i <= k < r.rest && SplitOption(argv[k]).0 == "-mlfqs";
        assert NamesMlfqs(argv, i + 1, r.rest);
      }
    }
  }

  /** `parse_options`: applies the options in order until the first word that is not one. */
  method ParseOptions(argv: seq<String>, build: Build, s: Settings) returns (r: Parsed)
    ensures r == Options(argv, build, 0, s)
  {
    var i := 0;
    var cur := s;
    while i < |argv| && IsOption(argv[i])
      invariant i <= |argv| && Options(argv, build, 0, s) == Options(argv, build, i, cur)
      decreases |argv| - i
    {
      var (name, value) := SplitOption(argv[i]);
      if name == "-h" {
        return Usage;
      }
      var next := Apply(build, name, value, cur);
      if next.None? {
        return UnknownOption(name);
      }
      cur := next.value;
      i := i + 1;
    }
    return Parsed(i, cur);
  }

  // ---------------------------------------------------------------- actions

  /** An entry of the action table: its name and its argument count, the name included. */
  datatype Action = Action(name: String, argc: nat)

  /** The action table of a kernel built as `build`, in table order. */
  function Table(build: Build): (t: seq<Action>)
    ensures ValidTable(t)
  {
    [Action("run", 2), Action("whoami", 1), Action("exit", 1)] +
    (if build.filesys
     then [Action("ls", 1), Action("cat", 2), Action("rm", 2), Action("extract", 1), Action("append", 2)]
     else [])
  }

  /** The first entry of `table` named `name`. */
  function Lookup(table: seq<Action>, name: String): (r: Option<Action>)
    ensures r.Some? ==> r.value in table && r.value.name == name
    ensures r.None? ==> forall k :: 0 <= k < |table| ==> table[k].name != name
  {
    if |table| == 0 then None
    else if table[0].name == name then Some(table[0])
    else Lookup(table[1..], name)
  }

  /** The table search of `run_actions` and `run_interactive`, entry by entry up to the end. */
  method FindAction(table: seq<Action>, name: String) returns (r: Option<Action>)
    ensures r == Lookup(table, name)
  {
    var k := 0;
    while k < |table|
      invariant k <= |table| && Lookup(table, name) == Lookup(table[k..], name)
      decreases |table| - k
    {
      if table[k].name == name {
        return Some(table[k]);
      }
      assert table[k..][1..] == table[k + 1..];
      k := k + 1;
    }
    return None;
  }

  /** One invocation: the action and the words handed to it, its name first. */
  datatype Call = Call(action: Action, argv: seq<String>)

  /** The outcome of `run_actions`: all actions done, or a panic (unknown action, missing
      arguments, a test that is not there), or `exit` powering the machine off. Each carries
      the invocations made, the last one included. */
  datatype Run =
    | Finished(calls: seq<Call>)
    | UnknownAction(calls: seq<Call>, name: String)
    | MissingArguments(calls: seq<Call>, name: String)
    | NoSuchTest(calls: seq<Call>)
    | PoweredOff(calls: seq<Call>)

  /** What an action returns: `whoami` always 0, the others as `status` says. */
  function Result(call: Call, status: seq<String> -> int): int {
    if call.action.name == "whoami" then 0 else status(call.argv)
  }

  /** Whether every entry of `table` takes at least its own name. */
  predicate ValidTable(table: seq<Action>) {
    forall k :: 0 <= k < |table| ==> table[k].argc >= 1
  }

  /** The actions from index `i` on, after the invocations `done`, looked up in `table`. */
  function Actions(argv: seq<String>, table: seq<Action>, status: seq<String> -> int, i: nat, done: seq<Call>): (r: Run)
    requires i <= |argv| && ValidTable(table)
    decreases |argv| - i
  {
    if i == |argv| then Finished(done)
    else match Lookup(table, argv[i])
      case None => UnknownAction(done, argv[i])
      case Some(a) =>
        if i + a.argc > |argv| then MissingArguments(done, argv[i])
        else
          var call := Call(a, argv[i..i + a.argc]);
          if a.name == "exit" then PoweredOff(done + [call])
          else if Result(call, status) == NOT_FOUND then NoSuchTest(done + [call])
          else Actions(argv, table, status, i + a.argc, done + [call])
  }

  /** The words of the invocations, one after another. */
  function Words(calls: seq<Call>): seq<String> {
    if |calls| == 0 then [] else calls[0].argv + Words(calls[1..])
  }

  lemma {:induction false} WordsAppend(calls: seq<Call>, c: Call)
    ensures Words(calls + [c]) == Words(calls) + c.argv
    decreases |calls|
  {
    if |calls| == 0 {
      assert [c][1..] == [];
    } else {
      assert (calls + [c])[1..] == calls[1..] + [c];
      WordsAppend(calls[1..], c);
    }
  }

  /** An invocation that hands its action the action's name and exactly the number of words
      its table entry asks for. */
  predicate WellFormed(c: Call) {
    |c.argv| == c.action.argc >= 1 && c.argv[0] == c.action.name
  }

  /** When every action runs, the invocations use the words exactly: laid end to end they are
      the command line, and each is well formed. */
  lemma {:induction false} FinishedCoversArgv(argv: seq<String>, table: seq<Action>, status: seq<String> -> int,
                                              i: nat, done: seq<Call>)
    requires i <= |argv| && ValidTable(table) && Words(done) == argv[..i]
    requires Actions(argv, table, status, i, done).Finished?
    ensures var calls := Actions(argv, table, status, i, done).calls;
            done <= calls && Words(calls) == argv &&
            forall k :: |done| <= k < |calls| ==> WellFormed(calls[k])
    decreases |argv| - i
  {
    if i == |argv| {
      assert argv[..i] == argv;
    } else {
      var a := Lookup(table, argv[i]).value;
      var call := Call(a, argv[i..i + a.argc]);
      assert Actions(argv, table, status, i, done) == Actions(argv, table, status, i + a.argc, done + [call]);
      assert WellFormed(call);
      WordsAppend(done, call);
      assert argv[..i] + argv[i..i + a.argc] == argv[..i + a.argc];
      FinishedCoversArgv(argv, table, status, i + a.argc, done + [call]);
    }
  }

  /** `run_actions`: runs the actions one after another, advancing by each one's count. The
      kernel's table is `Table(build)`. */
  method RunActions(argv: seq<String>, table: seq<Action>, status: seq<String> -> int) returns (r: Run)
    requires ValidTable(table)
    ensures r == Actions(argv, table, status, 0, [])
  {
    var i := 0;
    var done: seq<Call> := [];
    while i < |argv|
      invariant i <= |argv| && Actions(argv, table, status, 0, []) == Actions(argv, table, status, i, done)
      decreases |argv| - i
    {
      var found := FindAction(table, argv[i]);
      if found.None? {
        return UnknownAction(done, argv[i]);
      }
      var a := found.value;
      if i + a.argc > |argv| {
        return MissingArguments(done, argv[i]);
      }
      var call := Call(a, argv[i..i + a.argc]);
      ghost var r := Actions(argv, table, status, i, done);
      done := done + [call];
      if a.name == "exit" {
        return PoweredOff(done);
      }
      if Result(call, status) == NOT_FOUND {
        return NoSuchTest(done);
      }
      assert r == Actions(argv, table, status, i + a.argc, done);
      i := i + a.argc;
    }
    return Finished(done);
  }

  /** What `run_interactive` does with one command: report an unknown name, report a wrong
      number of words, or invoke the action. */
  datatype Reply = Unknown(name: String) | WrongCount(name: String, got: nat, want: nat) | Invoked(call: Call)

  /** `run_interactive`'s decision for a non-empty command. The action runs exactly when its
      name is in the table and the command has exactly the entry's number of words, and then it
      gets the whole command. */
  function Interact(argv: seq<String>, table: seq<Action>): (r: Reply)
    requires |argv| > 0
    ensures r.Invoked? <==> Lookup(table, argv[0]).Some? && |argv| == Lookup(table, argv[0]).value.argc
    ensures r.Invoked? ==> r.call.argv == argv && r.call.action.name == argv[0]
  {
    match Lookup(table, argv[0])
    case None => Unknown(argv[0])
    case Some(a) => if |argv| != a.argc then WrongCount(argv[0], |argv|, a.argc) else Invoked(Call(a, argv))
  }

  /** `run_interactive`: finds the action, counts the words and invokes it. */
  method RunInteractive(argv: seq<String>, table: seq<Action>) returns (r: Reply)
    requires |argv| > 0
    ensures r == Interact(argv, table)
  {
    var found := FindAction(table, argv[0]);
    if found.None? {
      return Unknown(argv[0]);
    }
    var argc := 0;
    while argc < |argv|
      invariant argc <= |argv|
      decreases |argv| - argc
    {
      argc := argc + 1;
    }
    if argc != found.value.argc {
      return WrongCount(argv[0], argc, found.value.argc);
    }
    return Invoked(Call(found.value, argv));
  }

  /** A command the console accepts is one the kernel command line accepts too: typed as the
      whole command line, it makes the same first invocation. */
  lemma InteractiveAgreesWithBatch(argv: seq<String>, table: seq<Action>, status: seq<String> -> int)
    requires |argv| > 0 && ValidTable(table) && Interact(argv, table).Invoked?
    ensures var r := Actions(argv, table, status, 0, []);
            |r.calls| == 1 && r.calls[0] == Interact(argv, table).call
  {
    var a := Lookup(table, argv[0]).value;
    assert argv[0..a.argc] == argv;
    var call := Call(a, argv);
    if a.name != "exit" && Result(call, status) != NOT_FOUND {
      assert Actions(argv, table, status, a.argc, [call]) == Finished([call]);
    }
  }

  /** The converse fails: the batch runner takes `whoami whoami` as two actions, while the
      console refuses it for having two words where `whoami` takes one. */
  lemma BatchAcceptsMoreThanInteractive(status: seq<String> -> int)
    ensures Interact(["whoami", "whoami"], Table(Build(false, false, false))) == WrongCount("whoami", 2, 1)
    ensures Actions(["whoami", "whoami"], Table(Build(false, false, false)), status, 0, []).Finished?
  {
    var argv: seq<String> := ["whoami", "whoami"];
    var t := Table(Build(false, false, false));
    var a := Action("whoami", 1);
    assert Lookup(t, "whoami") == Some(a);
    assert argv[0..1] == ["whoami"] && argv[1..2] == ["whoami"];
  }
}
