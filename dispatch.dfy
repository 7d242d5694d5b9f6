/** One cycle of the main loop of myshell.c: the line is cut at its newline,
    parsed, and the first-match-wins chain picks what runs; the executors are
    represented by the argument vectors and file names they would be handed. */
module ShellDispatch {
  import opened ShellParse

  // ---------------------------------------------------------------------
  // The dispatch chain (myshell.c:218-239)
  // ---------------------------------------------------------------------

  /** The globals main reads after parseInput, apart from num_commands. */
  datatype Flags = Flags(exit: bool, parallel: bool, sequential: bool, redirection: bool, cd: bool)

  /** The branch of the if-chain that is taken; Idle when none is. */
  datatype Mode = Exit | Parallel | Sequential | Redirect | Direct | Idle

  /** Position of a branch in the chain. */
  function Rank(m: Mode): nat
  {
    match m
    case Exit => 0
    case Parallel => 1
    case Sequential => 2
    case Redirect => 3
    case Direct => 4
    case Idle => 5
  }

  /** The condition written on each branch, read on its own; Idle has none. */
  predicate Guard(m: Mode, f: Flags, n: nat)
  {
    match m
    case Exit => f.exit
    case Parallel => f.parallel && n > 1
    case Sequential => f.sequential && n > 1
    case Redirect => f.redirection
    case Direct => n == 1 || f.cd
    case Idle => true
  }

  /** The first branch, in chain order, whose condition holds. */
  function SelectMode(f: Flags, n: nat): (m: Mode)
    ensures Guard(m, f, n)
    ensures forall m' :: Rank(m') < Rank(m) ==> !Guard(m', f, n)
  {
    if f.exit then Exit
    else if f.parallel && n > 1 then Parallel
    else if f.sequential && n > 1 then Sequential
    else if f.redirection then Redirect
    else if n == 1 || f.cd then Direct
    else Idle
  }

  /** The chain is a priority order: any branch whose condition holds is taken
      unless a branch earlier in the chain is. */
  lemma SelectModeFirstMatch(f: Flags, n: nat, m: Mode)
    requires Guard(m, f, n)
    ensures Rank(SelectMode(f, n)) <= Rank(m)
    ensures SelectMode(f, n) == m <==> forall m' :: Rank(m') < Rank(m) ==> !Guard(m', f, n)
  {
    var r := SelectMode(f, n);
    if forall m' :: Rank(m') < Rank(m) ==> !Guard(m', f, n) {
      RankInjective(r, m);
    }
  }

  lemma RankInjective(a: Mode, b: Mode)
    requires Rank(a) == Rank(b)
    ensures a == b
  {
  }

  // ---------------------------------------------------------------------
  // Argument vector preprocessing
  // ---------------------------------------------------------------------

  /** The line read is terminated at the index strcspn returns for the stop set
      "\n" (myshell.c:214): the first newline, or the first NUL, which ends a C
      string anyway. */
  function CutAtNewline(input: string): (line: string)
    ensures line <= input
    ensures '\n' !in line && '\0' !in line
    ensures |line| < |input| ==> input[|line|] in {'\n', '\0'}
  {
    input[..FirstIn(input, {'\n', '\0'})]
  }

  /** Cutting a line that was already cut changes nothing. */
  lemma CutIdempotent(input: string)
    ensures CutAtNewline(CutAtNewline(input)) == CutAtNewline(input)
  {
    var line := CutAtNewline(input);
    NoStopFirstIn(line, {'\n', '\0'});
  }

  lemma {:induction false} NoStopFirstIn<T>(s: seq<T>, stops: set<T>)
    requires forall x :: x in s ==> x !in stops
    ensures FirstIn(s, stops) == |s|
  {
    if s != [] {
      assert s[0] in s;
      forall x | x in s[1..] ensures x !in stops {
        assert x in s;
      }
      NoStopFirstIn(s[1..], stops);
    }
  }

  /** The body of the loop at myshell.c:78-87 for one argument: a single
      trailing newline is overwritten by the terminator. */
  function StripNewline(arg: string): (r: string)
    ensures r <= arg && |arg| - 1 <= |r|
    ensures r == arg <==> (arg == [] || arg[|arg| - 1] != '\n')
  {
    if |arg| > 0 && arg[|arg| - 1] == '\n' then arg[..|arg| - 1] else arg
  }

  /** Only one newline goes, however many the argument ends with. */
  lemma StripOneNewline(s: string)
    ensures StripNewline(s + "\n") == s
  {
  }

  /** StripNewline applied to every argument. */
  function StripAll(argv: seq<string>): (r: seq<string>)
    ensures |r| == |argv|
    ensures forall i :: 0 <= i < |argv| ==> r[i] == StripNewline(argv[i])
  {
    seq(|argv|, i requires 0 <= i < |argv| => StripNewline(argv[i]))
  }

  /** Arguments without a newline, in particular every token of a cut line,
      pass through unchanged. */
  lemma StripAllNoNewline(argv: seq<string>)
    requires forall a :: a in argv ==> '\n' !in a
    ensures StripAll(argv) == argv
  {
    forall i | 0 <= i < |argv| ensures StripNewline(argv[i]) == argv[i] {
      assert argv[i] in argv;
      if |argv[i]| > 0 {
        assert argv[i][|argv[i]| - 1] in argv[i];
      }
    }
  }

  /** The loop at myshell.c:78-87, which rewrites the argument strings in place. */
  method StripTrailingNewlines(a: array<string>)
    modifies a
    ensures a[..] == StripAll(old(a[..]))
  {
    var i := 0;
    while i < a.Length
      invariant 0 <= i <= a.Length
      invariant forall k :: 0 <= k < i ==> a[k] == StripNewline(old(a[k]))
      invariant forall k :: i <= k < a.Length ==> a[k] == old(a[k])
    {
      a[i] := StripNewline(a[i]);
      i := i + 1;
    }
  }

  // ---------------------------------------------------------------------
  // The redirect child (myshell.c:171-190)
  // ---------------------------------------------------------------------

  /** The vector handed to execvp and the file that replaces stdout. */
  datatype Redirection = Redirection(argv: seq<string>, file: string)

  /** What the child computes: the arguments before the first ">", provided a
      token follows that ">"; None when the child exits without exec. */
  function RedirectTarget(argv: seq<string>): (r: Option<Redirection>)
    ensures r.None? <==> (">" !in argv || (argv[|argv| - 1] == ">" && ">" !in argv[..|argv| - 1]))
    ensures r.Some? ==> ">" !in r.value.argv && r.value.argv + [">", r.value.file] <= argv
  {
    var i := FirstIn(argv, {">"});
    if i + 1 < |argv| then
      assert argv[..i] + [">", argv[i + 1]] == argv[..i + 2];
      Some(Redirection(argv[..i], argv[i + 1]))
    else
      assert i < |argv| ==> argv[..|argv| - 1] == argv[..i];
      None
  }

  /** The search loop at myshell.c:171-175, the test at 177 and the
      truncation arg_list[i] = NULL at 182. */
  method RedirectArgv(argv: seq<string>) returns (r: Option<Redirection>)
    ensures r == RedirectTarget(argv)
  {
    var i := 0;
    while i < |argv| && argv[i] != ">"
      invariant 0 <= i <= |argv|
      invariant forall k :: 0 <= k < i ==> argv[k] != ">"
    {
      i := i + 1;
    }
    FirstInUnique(argv, {">"}, i);
    if i < |argv| && i + 1 < |argv| {
      r := Some(Redirection(argv[..i], argv[i + 1]));
    } else {
      r := None;
    }
  }

  /** The first stop is the only index with no stop before it and a stop or the end at it. */
  lemma {:induction false} FirstInUnique<T>(s: seq<T>, stops: set<T>, i: nat)
    requires i <= |s|
    requires forall k :: 0 <= k < i ==> s[k] !in stops
    requires i < |s| ==> s[i] in stops
    ensures FirstIn(s, stops) == i
  {
    if s != [] && s[0] !in stops {
      assert i > 0;
      FirstInUnique(s[1..], stops, i - 1);
    }
  }

  // ---------------------------------------------------------------------
  // One cycle of main
  // ---------------------------------------------------------------------

  /** What a cycle leads to. */
  datatype Action =
    | Terminate                               // "Exiting shell...", loop ends
    | RunConcurrently(cmds: seq<seq<string>>) // executeParallelCommands
    | RunInOrder(cmds: seq<seq<string>>)      // executeSequentialCommands
    | RunRedirected(argv: seq<string>, file: string)
    | RedirectFails                           // the child exits(1) without exec
    | Run(argv: seq<string>)                  // executeCommand, not cd
    | ChangeDir(target: Option<string>)       // chdir(arg_list[1]); None is chdir(NULL)
    | UndefinedChangeDir                      // arg_list[1] lies past the NULL terminator
    | Skip                                    // no branch is taken

  /** The globals after parseInput on a cleared state. */
  function FlagsOf(line: string): (f: Flags)
    ensures f.parallel <==> Occurs(line, "&&")
    ensures f.sequential <==> Occurs(line, "##")
  {
    var cmds := Commands(line);
    Flags(HasToken(cmds, "exit"), Strstr(line, "&&").Some?, Strstr(line, "##").Some?,
          HasToken(cmds, ">"), HasToken(cmds, "cd"))
  }

  /** What the chosen branch does with the parsed commands. */
  function Execute(m: Mode, cmds: seq<seq<string>>, cd: bool): Action
    requires m == Redirect || m == Direct ==> cmds != []
  {
    match m
    case Exit => Terminate
    case Parallel => RunConcurrently(cmds)
    case Sequential => RunInOrder(cmds)
    case Redirect =>
      var r := RedirectTarget(cmds[0]);
      if r.Some? then RunRedirected(r.value.argv, r.value.file) else RedirectFails
    case Direct =>
      if !cd then Run(StripAll(cmds[0]))
      else if |cmds[0]| == 0 then UndefinedChangeDir
      else ChangeDir(if |cmds[0]| > 1 then Some(cmds[0][1]) else None)
    case Idle => Skip
  }

  /** A token that occurs somewhere means there is a command. */
  lemma HasTokenNonEmpty(cmds: seq<seq<string>>, w: string)
    requires HasToken(cmds, w)
    ensures cmds != []
  {
  }

  /** The whole cycle as a function of the cut line, on a cleared state. */
  function Plan(line: string): Action
  {
    var cmds := Commands(line);
    var f := FlagsOf(line);
    var m := SelectMode(f, |cmds|);
    if m == Redirect then HasTokenNonEmpty(cmds, ">"); Execute(m, cmds, f.cd)
    else if m == Direct && f.cd then HasTokenNonEmpty(cmds, "cd"); Execute(m, cmds, f.cd)
    else Execute(m, cmds, f.cd)
  }

  // ---------------------------------------------------------------------
  // What a line leads to, branch by branch
  // ---------------------------------------------------------------------

  /** The shell stops exactly when some command holds the token exit, whatever
      else the line holds. */
  lemma PlanTerminate(line: string)
    ensures Plan(line) == Terminate <==> HasToken(Commands(line), "exit")
  {
  }

  /** The parallel executor gets every command, and only when the line holds
      "&&" and more than one command. */
  lemma PlanConcurrent(line: string)
    ensures var cmds := Commands(line);
      && (Plan(line).RunConcurrently? <==>
            !HasToken(cmds, "exit") && Occurs(line, "&&") && |cmds| > 1)
      && (Plan(line).RunConcurrently? ==> Plan(line).cmds == cmds)
  {
  }

  /** The sequential executor gets every command when the line holds "##" and
      more than one command, unless the parallel branch came first. */
  lemma PlanInOrder(line: string)
    ensures var cmds := Commands(line);
      && (Plan(line).RunInOrder? <==>
            !HasToken(cmds, "exit") && !Occurs(line, "&&") && Occurs(line, "##") && |cmds| > 1)
      && (Plan(line).RunInOrder? ==> Plan(line).cmds == cmds)
  {
  }

  /** With a '>' token and no earlier branch, only the first command is run,
      cut before its first '>', with stdout sent to the token after it. */
  lemma PlanRedirect(line: string)
    ensures var cmds := Commands(line);
      var earlier := HasToken(cmds, "exit") || ((Occurs(line, "&&") || Occurs(line, "##")) && |cmds| > 1);
      && ((Plan(line).RunRedirected? || Plan(line) == RedirectFails) <==> !earlier && HasToken(cmds, ">"))
      && (Plan(line).RunRedirected? ==>
            ">" !in Plan(line).argv && Plan(line).argv + [">", Plan(line).file] <= cmds[0])
      && (Plan(line) == RedirectFails ==> RedirectTarget(cmds[0]).None?)
  {
  }

  /** A lone command with none of exit, '>' or cd is run with its trailing
      newlines stripped. */
  lemma PlanRun(line: string)
    ensures var cmds := Commands(line);
      && (Plan(line).Run? <==>
            |cmds| == 1 && !HasToken(cmds, "exit") && !HasToken(cmds, ">") && !HasToken(cmds, "cd"))
      && (Plan(line).Run? ==> Plan(line).argv == StripAll(cmds[0]))
  {
  }

  /** cd changes directory to the second token of the first command, whichever
      command the cd token was in; with several commands but no marker it is
      still the only thing that happens. */
  lemma PlanChangeDir(line: string)
    ensures var cmds := Commands(line);
      var earlier := HasToken(cmds, "exit") || ((Occurs(line, "&&") || Occurs(line, "##")) && |cmds| > 1);
      && ((Plan(line).ChangeDir? || Plan(line) == UndefinedChangeDir) <==>
            !earlier && !HasToken(cmds, ">") && HasToken(cmds, "cd"))
      && (Plan(line).ChangeDir? ==>
            cmds != [] && cmds[0] != [] && Plan(line).target == (if |cmds[0]| > 1 then Some(cmds[0][1]) else None))
      && (Plan(line) == UndefinedChangeDir ==> cmds != [] && cmds[0] == [])
  {
  }

  /** Nothing runs when no branch applies: no exit, '>' or cd token, and not
      exactly one command nor a marker with several. */
  lemma PlanSkip(line: string)
    ensures var cmds := Commands(line);
      Plan(line) == Skip <==>
        && !HasToken(cmds, "exit") && !HasToken(cmds, ">") && !HasToken(cmds, "cd")
        && |cmds| != 1 && !((Occurs(line, "&&") || Occurs(line, "##")) && |cmds| > 1)
  {
  }

  /** A line that holds a single command: the markers play no part, and the
      words exit, '>' and cd decide in that order. */
  lemma PlanOneCommand(line: string, argv: seq<string>)
    requires Commands(line) == [argv]
    ensures Plan(line) ==
      if "exit" in argv then Terminate
      else if ">" in argv then
        (if RedirectTarget(argv).Some?
         then RunRedirected(RedirectTarget(argv).value.argv, RedirectTarget(argv).value.file)
         else RedirectFails)
      else if "cd" in argv then ChangeDir(if |argv| > 1 then Some(argv[1]) else None)
      else Run(StripAll(argv))
  {
    forall w ensures HasToken([argv], w) <==> w in argv {
      if w in argv {
        assert argv in [argv];
      }
    }
  }

  /** On a line cut at its newline the strip loop changes nothing: the single
      command runs exactly as parsed. */
  lemma PlanRunCutLine(input: string)
    ensures var line := CutAtNewline(input);
      Plan(line).Run? ==> Plan(line).argv == Commands(line)[0]
  {
    var line := CutAtNewline(input);
    var cmds := Commands(line);
    if Plan(line).Run? {
      PlanRun(line);
      TokensWellFormed(line);
      assert cmds[0] in cmds;
      StripAllNoNewline(cmds[0]);
    }
  }

  /** Lines 212-256 of one iteration of main, after getline. Exit leaves the
      loop before the reset; every other cycle ends with every flag but
      exit_cond cleared. */
  method Cycle(state: ParserState, input: string) returns (action: Action)
    requires state.Cleared() && !state.exitCond
    requires WithinCapacity(CutAtNewline(input))
    modifies state
    ensures action == Plan(CutAtNewline(input))
    ensures state.exitCond <==> action == Terminate
    ensures !state.exitCond ==> state.Cleared()
  {
    var line := CutAtNewline(input);
    var cmds := state.Parse(line);
    var f := Flags(state.exitCond, state.parallel, state.sequential, state.redirection, state.cd);
    assert f == FlagsOf(line);
    var mode := SelectMode(f, state.numCommands);
    if mode == Exit {
      action := Terminate;
      return;
    } else if mode == Parallel {
      action := RunConcurrently(cmds);
    } else if mode == Sequential {
      action := RunInOrder(cmds);
    } else if mode == Redirect {
      HasTokenNonEmpty(cmds, ">");
      var r := RedirectArgv(cmds[0]);
      action := if r.Some? then RunRedirected(r.value.argv, r.value.file) else RedirectFails;
    } else if mode == Direct && !state.cd {
      var argv := cmds[0];
      var a := new string[|argv|](i requires 0 <= i < |argv| => argv[i]);
      assert a[..] == argv;
      StripTrailingNewlines(a);
      action := Run(a[..]);
    } else if mode == Direct {
      HasTokenNonEmpty(cmds, "cd");
      if |cmds[0]| == 0 {
        action := UndefinedChangeDir;
      } else if |cmds[0]| == 1 {
        action := ChangeDir(None);
      } else {
        action := ChangeDir(Some(cmds[0][1]));
      }
    } else {
      action := Skip;
    }
    state.Reset();
  }

  // ---------------------------------------------------------------------
  // The loop of main over the lines read
  // ---------------------------------------------------------------------

  /** One cycle on a line as getline returns it. */
  function Step(input: string): Action
  {
    Plan(CutAtNewline(input))
  }

  /** step applied to each input in turn, up to and including the first
      Terminate: what a run of the loop does, one action per line read. */
  function UntilTerminate<T>(inputs: seq<T>, step: T -> Action): (r: seq<Action>)
    ensures |r| <= |inputs|
    ensures forall k :: 0 <= k < |r| ==> r[k] == step(inputs[k])
    ensures forall k :: 0 <= k < |r| - 1 ==> r[k] != Terminate
    ensures |r| < |inputs| ==> r != [] && r[|r| - 1] == Terminate
  {
    if inputs == [] then []
    else
      var a := step(inputs[0]);
      if a == Terminate then [a] else [a] + UntilTerminate(inputs[1..], step)
  }

  lemma AppendAssoc<T>(a: seq<T>, b: seq<T>, c: seq<T>)
    ensures (a + b) + c == a + (b + c)
  {
  }

  /** One cycle peels one action off the rest of the session. */
  lemma UntilTerminateStep<T>(inputs: seq<T>, step: T -> Action, i: nat)
    requires i < |inputs|
    ensures var a := step(inputs[i]);
      UntilTerminate(inputs[i..], step) ==
        if a == Terminate then [a] else [a] + UntilTerminate(inputs[i + 1..], step)
  {
    assert inputs[i..][0] == inputs[i] && inputs[i..][1..] == inputs[i + 1..];
  }

  /** The while (1) loop of main (myshell.c:200-257) over the lines getline
      returns, on zero-initialised globals: each line is planned on its own,
      since every cycle that goes on starts from cleared flags. */
  method Session(lines: seq<string>) returns (actions: seq<Action>)
    requires forall k :: 0 <= k < |lines| && (forall j :: 0 <= j < k ==> Step(lines[j]) != Terminate) ==>
               WithinCapacity(CutAtNewline(lines[k]))
    ensures actions == UntilTerminate(lines, Step)
  {
    var state := new ParserState();
    actions := [];
    var i := 0;
    while i < |lines|
      invariant 0 <= i <= |lines|
      invariant state.Cleared() && !state.exitCond
      invariant forall j :: 0 <= j < i ==> Step(lines[j]) != Terminate
      invariant actions + UntilTerminate(lines[i..], Step) == UntilTerminate(lines, Step)
    {
      var a := Cycle(state, lines[i]);
      UntilTerminateStep(lines, Step, i);
      ghost var later := UntilTerminate(lines[i + 1..], Step);
      if a == Terminate {
        assert UntilTerminate(lines[i..], Step) == [a];
        actions := actions + [a];
        return;
      }
      assert UntilTerminate(lines[i..], Step) == [a] + later;
      AppendAssoc(actions, [a], later);
      actions := actions + [a];
      i := i + 1;
    }
    assert lines[i..] == [];
  }

}
