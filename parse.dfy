/** The line parser of myshell.c: parseInput and the C string primitives it is
    built on (strstr, strsep), with the global parse flags as a class. */
module ShellParse {

  datatype Option<T> = None | Some(value: T)

  /** Rows of the result matrix and slots per row (MAX_COMMANDS, MAX_ARGS). */
  const MaxCommands: nat := 10
  const MaxArgs: nat := 10

  /** strsep reads its delimiter string as a set of characters, so "&&##"
      splits on every single '&' and every single '#'. */
  const CommandDelims: set<char> := {'&', '#'}
  const ArgDelims: set<char> := {' '}
  /** Every character that ends a token, whichever of the two levels splits on it. */
  const AllDelims: set<char> := {' ', '&', '#'}

  // ---------------------------------------------------------------------
  // C library primitives
  // ---------------------------------------------------------------------

  /** Index of the first element of s that is in stops, or |s| if there is none
      (strcspn, and the search loops built like it). */
  function FirstIn<T(==)>(s: seq<T>, stops: set<T>): (i: nat)
    ensures i <= |s|
    ensures forall k :: 0 <= k < i ==> s[k] !in stops
    ensures i < |s| ==> s[i] in stops
  {
    if s == [] then 0
    else if s[0] in stops then 0
    else 1 + FirstIn(s[1..], stops)
  }

  /** One call strsep(&rest, delims) with rest not NULL: the token before the first
      delimiter, and the new rest, None standing for NULL (no delimiter was left). */
  function Strsep(s: string, delims: set<char>): (r: (string, Option<string>))
    ensures forall c :: c in r.0 ==> c !in delims
    ensures r.1.None? ==> r.0 == s
    ensures r.1.Some? ==> |r.0| < |s| && s[|r.0|] in delims && s == r.0 + [s[|r.0|]] + r.1.value
  {
    var i := FirstIn(s, delims);
    if i == |s| then (s, None) else (s[..i], Some(s[i + 1..]))
  }

  /** True when p occurs in s starting at index i. */
  predicate OccursAt(s: string, p: string, i: int)
  {
    0 <= i && i + |p| <= |s| && s[i..i + |p|] == p
  }

  ghost predicate Occurs(s: string, p: string)
  {
    exists i :: OccursAt(s, p, i)
  }

  /** strstr(s + from, p), as an index into s: the first occurrence at or after from. */
  function StrstrFrom(s: string, p: string, from: nat): (r: Option<nat>)
    requires from <= |s|
    ensures r.Some? ==> from <= r.value && OccursAt(s, p, r.value)
    ensures r.Some? ==> forall j :: from <= j < r.value ==> !OccursAt(s, p, j)
    ensures r.None? ==> forall j :: from <= j ==> !OccursAt(s, p, j)
    decreases |s| - from
  {
    if from + |p| > |s| then None
    else if s[from..from + |p|] == p then Some(from)
    else StrstrFrom(s, p, from + 1)
  }

  /** strstr(s, p): the index of the first occurrence of p in s, None for NULL. */
  function Strstr(s: string, p: string): (r: Option<nat>)
    ensures r.Some? <==> Occurs(s, p)
    ensures r.Some? ==> OccursAt(s, p, r.value) && forall j :: 0 <= j < r.value ==> !OccursAt(s, p, j)
  {
    StrstrFrom(s, p, 0)
  }

  // ---------------------------------------------------------------------
  // What parseInput computes, as functions
  // ---------------------------------------------------------------------

  /** Measure for a strsep cursor: NULL is smallest, then by remaining length. */
  function Size(rest: Option<string>): nat
  {
    match rest
    case None => 0
    case Some(s) => |s| + 1
  }

  /** Every token that repeated calls strsep(&rest, delims) return until rest is NULL. */
  function Segments(rest: Option<string>, delims: set<char>): seq<string>
    decreases Size(rest)
  {
    match rest
    case None => []
    case Some(s) =>
      var (tok, next) := Strsep(s, delims);
      [tok] + Segments(next, delims)
  }

  /** The segments that are not the empty string, in order. */
  function NonEmpty(xs: seq<string>): (r: seq<string>)
    ensures forall t :: t in r ==> t != [] && t in xs
  {
    if xs == [] then []
    else (if xs[0] == [] then [] else [xs[0]]) + NonEmpty(xs[1..])
  }

  /** The argument vector of one command segment (myshell.c:49-60). */
  function Tokens(segment: string): seq<string>
  {
    NonEmpty(Segments(Some(segment), ArgDelims))
  }

  /** f applied to each non-empty segment, in order (myshell.c:43 skips the empty ones). */
  function MapNonEmpty<T>(segments: seq<string>, f: string -> T): seq<T>
  {
    if segments == [] then []
    else (if segments[0] == [] then [] else [f(segments[0])]) + MapNonEmpty(segments[1..], f)
  }

  /** One argument vector per non-empty segment. */
  function CommandsOf(segments: seq<string>): seq<seq<string>>
  {
    MapNonEmpty(segments, Tokens)
  }

  /** The command matrix parseInput returns for a line. */
  function Commands(line: string): seq<seq<string>>
  {
    CommandsOf(Segments(Some(line), CommandDelims))
  }

  /** True when some argument vector holds the token w. */
  predicate HasToken(cmds: seq<seq<string>>, w: string)
  {
    exists c :: c in cmds && w in c
  }

  function Flatten<T>(xss: seq<seq<T>>): seq<T>
  {
    if xss == [] then [] else xss[0] + Flatten(xss[1..])
  }

  /** The NULL terminators at myshell.c:63 and myshell.c:69 need a free slot:
      at most MaxCommands - 1 commands of at most MaxArgs - 1 tokens each. */
  predicate WithinCapacity(line: string)
  {
    var cmds := Commands(line);
    |cmds| < MaxCommands && forall i :: 0 <= i < |cmds| ==> |cmds[i]| < MaxArgs
  }

  // ---------------------------------------------------------------------
  // The global parse state and parseInput itself
  // ---------------------------------------------------------------------

  /** The globals exit_cond, num_commands, are_commands_sequential,
      are_commands_parallel, is_redirection and is_cd. */
  class ParserState {
    var exitCond: bool
    var numCommands: nat
    var sequential: bool
    var parallel: bool
    var redirection: bool
    var cd: bool

    /** Everything main resets at the end of a cycle is zero. */
    predicate Cleared()
      reads this
    {
      numCommands == 0 && !sequential && !parallel && !redirection && !cd
    }

    /** Globals of a fresh process are zero-initialised. */
    constructor ()
      ensures Cleared() && !exitCond
    {
      exitCond, numCommands := false, 0;
      sequential, parallel, redirection, cd := false, false, false, false;
    }

    /** parseInput (myshell.c:28-72). */
    method Parse(line: string) returns (cmds: seq<seq<string>>)
      requires WithinCapacity(line)
      modifies this
      ensures cmds == Commands(line)
      ensures numCommands == old(numCommands) + |cmds|
      ensures sequential == (old(sequential) || Occurs(line, "##"))
      ensures parallel == (old(parallel) || Occurs(line, "&&"))
      ensures exitCond == (old(exitCond) || HasToken(cmds, "exit"))
      ensures redirection == (old(redirection) || HasToken(cmds, ">"))
      ensures cd == (old(cd) || HasToken(cmds, "cd"))
    {
      if Strstr(line, "##").Some? {
        sequential := true;
      }
      if Strstr(line, "&&").Some? {
        parallel := true;
      }
      cmds := [];
      var rest: Option<string> := Some(line);
      while rest.Some?
        invariant Commands(line) == cmds + CommandsOf(Segments(rest, CommandDelims))
        invariant numCommands == old(numCommands) + |cmds|
        invariant sequential == (old(sequential) || Occurs(line, "##"))
        invariant parallel == (old(parallel) || Occurs(line, "&&"))
        invariant exitCond == (old(exitCond) || HasToken(cmds, "exit"))
        invariant redirection == (old(redirection) || HasToken(cmds, ">"))
        invariant cd == (old(cd) || HasToken(cmds, "cd"))
        decreases Size(rest)
      {
        var (command, next) := Strsep(rest.value, CommandDelims);
        MapNonEmptyStep(cmds, rest.value, CommandDelims, Tokens);
        rest := next;
        if command != [] {
          var args := ParseCommand(command);
          HasTokenAppend(cmds, args, "exit");
          HasTokenAppend(cmds, args, ">");
          HasTokenAppend(cmds, args, "cd");
          cmds := cmds + [args];
          numCommands := numCommands + 1;
        }
      }
    }

    /** The inner strsep loop of parseInput (myshell.c:45-63): the argument
        vector of one segment, raising a flag for each exit, '>' and cd token. */
    method ParseCommand(command: string) returns (args: seq<string>)
      modifies this
      ensures args == Tokens(command)
      ensures numCommands == old(numCommands)
      ensures sequential == old(sequential) && parallel == old(parallel)
      ensures exitCond == (old(exitCond) || "exit" in args)
      ensures redirection == (old(redirection) || ">" in args)
      ensures cd == (old(cd) || "cd" in args)
    {
      args := [];
      var argRest: Option<string> := Some(command);
      while argRest.Some?
        invariant Tokens(command) == args + NonEmpty(Segments(argRest, ArgDelims))
        invariant numCommands == old(numCommands)
        invariant sequential == old(sequential) && parallel == old(parallel)
        invariant exitCond == (old(exitCond) || "exit" in args)
        invariant redirection == (old(redirection) || ">" in args)
        invariant cd == (old(cd) || "cd" in args)
        decreases Size(argRest)
      {
        var (arg, argNext) := Strsep(argRest.value, ArgDelims);
        TokensStep(args, argRest.value);
        argRest := argNext;
        if arg != [] {
          NoteToken(arg);
          args := args + [arg];
        }
      }
    }

    /** The per-token checks of myshell.c:53-58: exit, '>' and cd raise their flag. */
    method NoteToken(arg: string)
      modifies this
      ensures exitCond == (old(exitCond) || arg == "exit")
      ensures redirection == (old(redirection) || arg == ">")
      ensures cd == (old(cd) || arg == "cd")
      ensures numCommands == old(numCommands)
      ensures sequential == old(sequential) && parallel == old(parallel)
    {
      if arg == "exit" {
        exitCond := true;
      }
      if arg == ">" {
        redirection := true;
      }
      if arg == "cd" {
        cd := true;
      }
    }

    /** The reset at the end of every non-exit cycle (myshell.c:252-256). */
    method Reset()
      modifies this
      ensures Cleared()
      ensures exitCond == old(exitCond)
    {
      numCommands := 0;
      parallel := false;
      sequential := false;
      redirection := false;
      cd := false;
    }
  }

  // ---------------------------------------------------------------------
  // Lemmas
  // ---------------------------------------------------------------------

  /** One strsep call peels the first segment off. */
  lemma SegmentsStep(s: string, delims: set<char>)
    ensures Segments(Some(s), delims) == [Strsep(s, delims).0] + Segments(Strsep(s, delims).1, delims)
  {
  }

  lemma NonEmptyCons(x: string, xs: seq<string>)
    ensures NonEmpty([x] + xs) == (if x == [] then [] else [x]) + NonEmpty(xs)
  {
    assert ([x] + xs)[1..] == xs;
  }

  lemma MapNonEmptyCons<T>(x: string, xs: seq<string>, f: string -> T)
    ensures MapNonEmpty([x] + xs, f) == (if x == [] then [] else [f(x)]) + MapNonEmpty(xs, f)
  {
    assert ([x] + xs)[1..] == xs;
  }

  /** One turn of the inner strsep loop keeps args + the tokens still to come. */
  lemma TokensStep(args: seq<string>, s: string)
    ensures var (t, next) := Strsep(s, ArgDelims);
      var args' := if t == [] then args else args + [t];
      && args + NonEmpty(Segments(Some(s), ArgDelims)) == args' + NonEmpty(Segments(next, ArgDelims))
      && forall w :: w in args' <==> w in args || (t != [] && w == t)
  {
    var (t, next) := Strsep(s, ArgDelims);
    SegmentsStep(s, ArgDelims);
    NonEmptyCons(t, Segments(next, ArgDelims));
    var later := NonEmpty(Segments(next, ArgDelims));
    if t == [] {
      assert NonEmpty(Segments(Some(s), ArgDelims)) == later;
    } else {
      assert NonEmpty(Segments(Some(s), ArgDelims)) == [t] + later;
      assert (args + [t]) + later == args + ([t] + later);
      assert forall w :: w in args + [t] <==> w in args || w == t;
    }
  }

  /** One turn of the outer strsep loop keeps acc + what is still to come. */
  lemma MapNonEmptyStep<T>(acc: seq<T>, s: string, delims: set<char>, f: string -> T)
    ensures var (t, next) := Strsep(s, delims);
      var acc' := if t == [] then acc else acc + [f(t)];
      acc + MapNonEmpty(Segments(Some(s), delims), f) == acc' + MapNonEmpty(Segments(next, delims), f)
  {
    var (t, next) := Strsep(s, delims);
    SegmentsStep(s, delims);
    MapNonEmptyCons(t, Segments(next, delims), f);
    var later := MapNonEmpty(Segments(next, delims), f);
    if t == [] {
      assert MapNonEmpty(Segments(Some(s), delims), f) == later;
    } else {
      assert MapNonEmpty(Segments(Some(s), delims), f) == [f(t)] + later;
      assert (acc + [f(t)]) + later == acc + ([f(t)] + later);
    }
  }

  lemma HasTokenAppend(cmds: seq<seq<string>>, args: seq<string>, w: string)
    ensures HasToken(cmds + [args], w) <==> HasToken(cmds, w) || w in args
  {
    if w in args {
      assert args in cmds + [args];
    }
    if HasToken(cmds, w) {
      var c :| c in cmds && w in c;
      assert c in cmds + [args];
    }
  }

  lemma {:induction false} FirstInAfter(a: string, d: char, b: string, delims: set<char>)
    requires forall k :: 0 <= k < |a| ==> a[k] !in delims
    requires d in delims
    ensures FirstIn(a + [d] + b, delims) == |a|
  {
    if a != [] {
      assert (a + [d] + b)[0] == a[0];
      assert (a + [d] + b)[1..] == a[1..] + [d] + b;
      FirstInAfter(a[1..], d, b, delims);
    }
  }

  /** A delimiter that ends a delimiter-free prefix is the one strsep stops at. */
  lemma SegmentsAfter(a: string, d: char, b: string, delims: set<char>)
    requires forall k :: 0 <= k < |a| ==> a[k] !in delims
    requires d in delims
    ensures Strsep(a + [d] + b, delims) == (a, Some(b))
    ensures Segments(Some(a + [d] + b), delims) == [a] + Segments(Some(b), delims)
  {
    var s := a + [d] + b;
    FirstInAfter(a, d, b, delims);
    assert s[..|a|] == a && s[|a| + 1..] == b;
  }

  /** A string with no delimiter is a single segment. */
  lemma SegmentsOfUndelimited(a: string, delims: set<char>)
    requires forall k :: 0 <= k < |a| ==> a[k] !in delims
    ensures Strsep(a, delims) == (a, None)
    ensures Segments(Some(a), delims) == [a]
  {
  }

  /** Splitting around one delimiter splits the two sides independently. */
  lemma {:induction false} SegmentsAround(a: string, d: char, b: string, delims: set<char>)
    requires d in delims
    ensures Segments(Some(a + [d] + b), delims) == Segments(Some(a), delims) + Segments(Some(b), delims)
    decreases |a|
  {
    var r := Strsep(a, delims);
    if r.1.None? {
      SegmentsAfter(a, d, b, delims);
    } else {
      var t, v := r.0, r.1.value;
      var e := a[|t|];
      assert t + [e] + (v + [d] + b) == a + [d] + b;
      SegmentsAfter(t, e, v + [d] + b, delims);
      SegmentsAround(v, d, b, delims);
    }
  }

  /** Characters that do not occur in s do not change how s splits. */
  lemma {:induction false} SegmentsIgnoreAbsent(s: string, absent: set<char>, delims: set<char>)
    requires forall k :: 0 <= k < |s| ==> s[k] !in absent
    ensures Segments(Some(s), absent + delims) == Segments(Some(s), delims)
    decreases |s|
  {
    var (t, next) := Strsep(s, delims);
    if next.None? {
      SegmentsOfUndelimited(s, absent + delims);
    } else {
      var e, v := s[|t|], next.value;
      assert s == t + [e] + v;
      forall k | 0 <= k < |t| ensures t[k] !in absent + delims {
        assert t[k] == s[k];
      }
      SegmentsAfter(t, e, v, absent + delims);
      forall k | 0 <= k < |v| ensures v[k] !in absent {
        assert v[k] == s[|t| + 1 + k];
      }
      SegmentsIgnoreAbsent(v, absent, delims);
    }
  }

  /** Each element of segs split on delims. */
  function SplitEach(segs: seq<string>, delims: set<char>): (r: seq<seq<string>>)
    ensures |r| == |segs|
  {
    if segs == [] then [] else [Segments(Some(segs[0]), delims)] + SplitEach(segs[1..], delims)
  }

  /** Splitting on outer delimiters and then splitting each piece on inner ones
      gives the pieces of one split on both. */
  lemma {:induction false} SegmentsRefine(s: string, outer: set<char>, inner: set<char>)
    ensures Segments(Some(s), outer + inner) == Flatten(SplitEach(Segments(Some(s), outer), inner))
    decreases |s|
  {
    var (t, next) := Strsep(s, outer);
    if next.None? {
      SegmentsOfUndelimited(s, outer);
      SegmentsIgnoreAbsent(s, outer, inner);
      assert Flatten(SplitEach([s], inner)) == Segments(Some(s), inner) + [];
    } else {
      var d, v := s[|t|], next.value;
      assert s == t + [d] + v;
      SegmentsAround(t, d, v, outer + inner);
      SegmentsIgnoreAbsent(t, outer, inner);
      SegmentsRefine(v, outer, inner);
      var rest := Segments(Some(v), outer);
      assert Segments(Some(s), outer) == [t] + rest;
      assert SplitEach([t] + rest, inner) == [Segments(Some(t), inner)] + SplitEach(rest, inner);
    }
  }

  lemma {:induction false} NonEmptyAppend(a: seq<string>, b: seq<string>)
    ensures NonEmpty(a + b) == NonEmpty(a) + NonEmpty(b)
  {
    if a != [] {
      assert (a + b)[1..] == a[1..] + b;
      NonEmptyAppend(a[1..], b);
    } else {
      assert a + b == b;
    }
  }

  lemma {:induction false} FlattenCommandsOf(segs: seq<string>)
    ensures Flatten(CommandsOf(segs)) == NonEmpty(Flatten(SplitEach(segs, ArgDelims)))
  {
    if segs != [] {
      var s0, rest := segs[0], segs[1..];
      var first := Segments(Some(s0), ArgDelims);
      FlattenCommandsOf(rest);
      assert SplitEach(segs, ArgDelims) == [first] + SplitEach(rest, ArgDelims);
      assert Flatten(SplitEach(segs, ArgDelims)) == first + Flatten(SplitEach(rest, ArgDelims));
      NonEmptyAppend(first, Flatten(SplitEach(rest, ArgDelims)));
      if s0 == [] {
        assert first == [[]];
        assert NonEmpty(first) == [];
        assert CommandsOf(segs) == CommandsOf(rest);
      } else {
        assert CommandsOf(segs) == [Tokens(s0)] + CommandsOf(rest);
        assert Flatten([Tokens(s0)] + CommandsOf(rest)) == Tokens(s0) + Flatten(CommandsOf(rest));
      }
    }
  }

  /** Concatenating the argument vectors in order gives exactly the non-empty
      tokens of the whole line split on ' ', '&' and '#': nothing is lost,
      nothing is reordered. */
  lemma TokensInOrder(line: string)
    ensures Flatten(Commands(line)) == NonEmpty(Segments(Some(line), AllDelims))
  {
    assert AllDelims == CommandDelims + ArgDelims;
    SegmentsRefine(line, CommandDelims, ArgDelims);
    FlattenCommandsOf(Segments(Some(line), CommandDelims));
  }

  /** No segment holds a delimiter, and each is made of characters of its input. */
  lemma {:induction false} SegmentsChars(rest: Option<string>, delims: set<char>)
    ensures forall t, c :: t in Segments(rest, delims) && c in t ==> c !in delims && rest.Some? && c in rest.value
    decreases Size(rest)
  {
    if rest.Some? {
      var s := rest.value;
      var (t, next) := Strsep(s, delims);
      SegmentsChars(next, delims);
      if next.Some? {
        assert s == t + [s[|t|]] + next.value;
      }
    }
  }

  lemma {:induction false} InFlatten(cmds: seq<seq<string>>, w: string)
    ensures w in Flatten(cmds) <==> HasToken(cmds, w)
  {
    if cmds != [] {
      InFlatten(cmds[1..], w);
      if HasToken(cmds[1..], w) {
        var c :| c in cmds[1..] && w in c;
        assert c in cmds;
      }
      if HasToken(cmds, w) && w !in cmds[0] {
        var c :| c in cmds && w in c;
        assert c in cmds[1..];
      }
      if w in cmds[0] {
        assert cmds[0] in cmds;
      }
    }
  }

  /** Every token is non-empty and holds no ' ', '&' or '#', and every
      character of a token is a character of the line. */
  lemma TokensWellFormed(line: string)
    ensures forall c, t :: c in Commands(line) && t in c ==>
              t != [] && forall ch :: ch in t ==> ch !in AllDelims && ch in line
  {
    var cmds := Commands(line);
    TokensInOrder(line);
    SegmentsChars(Some(line), AllDelims);
    forall c, t | c in cmds && t in c
      ensures t != [] && forall ch :: ch in t ==> ch !in AllDelims && ch in line
    {
      InFlatten(cmds, t);
    }
  }

  /** The exit, '>' and cd flags are set iff the word is one of the line's tokens. */
  lemma FlagIffToken(line: string, w: string)
    ensures HasToken(Commands(line), w) <==> w in NonEmpty(Segments(Some(line), AllDelims))
  {
    TokensInOrder(line);
    InFlatten(Commands(line), w);
  }

  lemma {:induction false} CountMapNonEmpty<T>(segs: seq<string>, f: string -> T)
    ensures |MapNonEmpty(segs, f)| == |NonEmpty(segs)|
  {
    if segs != [] {
      CountMapNonEmpty(segs[1..], f);
    }
  }

  /** num_commands counts exactly the non-empty '&'/'#'-separated segments. */
  lemma CommandCount(line: string)
    ensures |Commands(line)| == |NonEmpty(Segments(Some(line), CommandDelims))|
  {
    CountMapNonEmpty(Segments(Some(line), CommandDelims), Tokens);
  }

  lemma {:induction false} SpacesHaveNoTokens(s: string)
    requires forall k :: 0 <= k < |s| ==> s[k] == ' '
    ensures Tokens(s) == []
    decreases |s|
  {
    if s == [] {
      SegmentsOfUndelimited(s, ArgDelims);
      assert NonEmpty([[]]) == [];
    } else {
      var segs := Segments(Some(s[1..]), ArgDelims);
      assert [] + [' '] + s[1..] == s;
      SegmentsAfter([], ' ', s[1..], ArgDelims);
      assert ([[]] + segs)[1..] == segs;
      assert NonEmpty([[]] + segs) == NonEmpty(segs);
      SpacesHaveNoTokens(s[1..]);
    }
  }

  /** The empty line yields no command; a line of spaces yields one command
      whose argument vector is empty. */
  lemma BlankLines(line: string)
    requires forall k :: 0 <= k < |line| ==> line[k] == ' '
    ensures line == [] ==> Commands(line) == []
    ensures line != [] ==> Commands(line) == [[]]
  {
    SegmentsOfUndelimited(line, CommandDelims);
    MapNonEmptyCons(line, [], Tokens);
    assert [line] + [] == [line];
    SpacesHaveNoTokens(line);
  }

  lemma {:induction false} MapNonEmptyAppend<T>(a: seq<string>, b: seq<string>, f: string -> T)
    ensures MapNonEmpty(a + b, f) == MapNonEmpty(a, f) + MapNonEmpty(b, f)
  {
    if a != [] {
      assert (a + b)[1..] == a[1..] + b;
      MapNonEmptyAppend(a[1..], b, f);
    } else {
      assert a + b == b;
    }
  }

  /** A space splits a segment into two independent halves. */
  lemma TokensAround(a: string, b: string)
    ensures Tokens(a + " " + b) == Tokens(a) + Tokens(b)
  {
    SegmentsAround(a, ' ', b, ArgDelims);
    NonEmptyAppend(Segments(Some(a), ArgDelims), Segments(Some(b), ArgDelims));
  }

  /** A word without spaces is a single token. */
  lemma TokensWord(w: string)
    requires w != [] && ' ' !in w
    ensures Tokens(w) == [w]
  {
    SegmentsOfUndelimited(w, ArgDelims);
    NonEmptyCons(w, []);
  }

  /** A '&' or '#' splits a line into two independent halves. */
  lemma CommandsAround(a: string, d: char, b: string)
    requires d in CommandDelims
    ensures Commands(a + [d] + b) == Commands(a) + Commands(b)
  {
    SegmentsAround(a, d, b, CommandDelims);
    MapNonEmptyAppend(Segments(Some(a), CommandDelims), Segments(Some(b), CommandDelims), Tokens);
  }

  /** A non-empty stretch without '&' and '#' is a single command. */
  lemma CommandsSegment(seg: string)
    requires seg != [] && '&' !in seg && '#' !in seg
    ensures Commands(seg) == [Tokens(seg)]
  {
    SegmentsOfUndelimited(seg, CommandDelims);
    MapNonEmptyCons(seg, [], Tokens);
  }

  /** A doubled delimiter ("&&", "##", "&#", ...) splits like a single one:
      the empty segment between the two is dropped. */
  lemma CommandsDoubled(a: string, d: char, e: char, b: string)
    requires d in CommandDelims && e in CommandDelims
    ensures Commands(a + [d, e] + b) == Commands(a) + Commands(b)
  {
    var tail := [] + [e] + b;
    var later := Segments(Some(b), CommandDelims);
    assert Segments(Some(tail), CommandDelims) == [[]] + later by {
      SegmentsAfter([], e, b, CommandDelims);
    }
    assert a + [d, e] + b == a + [d] + tail;
    SegmentsAround(a, d, tail, CommandDelims);
    MapNonEmptyAppend(Segments(Some(a), CommandDelims), [[]] + later, Tokens);
    MapNonEmptyCons([], later, Tokens);
  }

  /** A blank before or after a segment adds no token. */
  lemma TokensTrim(a: string)
    ensures Tokens(" " + a) == Tokens(a)
    ensures Tokens(a + " ") == Tokens(a)
  {
    var segs := Segments(Some(a), ArgDelims);
    assert Segments(Some(" " + a), ArgDelims) == [[]] + segs by {
      assert [] + [' '] + a == " " + a;
      SegmentsAfter([], ' ', a, ArgDelims);
    }
    NonEmptyCons([], segs);
    assert Segments(Some(a + " "), ArgDelims) == segs + [[]] by {
      assert a + [' '] + [] == a + " ";
      SegmentsAround(a, ' ', [], ArgDelims);
      SegmentsOfUndelimited([], ArgDelims);
    }
    NonEmptyAppend(segs, [[]]);
    NonEmptyCons([], []);
  }
}
