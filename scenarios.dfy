/** Lines built from arbitrary words, and what one cycle of the shell does
    with them. */
module ShellScenarios {
  import opened ShellParse
  import opened ShellDispatch

  /** A string the tokenizer keeps whole: non-empty, no ' ', '&', '#' or newline. */
  predicate Token(w: string)
  {
    w != [] && forall c :: c in w ==> c !in AllDelims && c != '\n'
  }

  /** A token that is none of the words the parser raises a flag for. */
  predicate Word(w: string)
  {
    Token(w) && w != "exit" && w != ">" && w != "cd"
  }

  /** Words joined by single blanks. */
  function Unwords(ws: seq<string>): string
  {
    if ws == [] then ""
    else if |ws| == 1 then ws[0]
    else ws[0] + " " + Unwords(ws[1..])
  }

  /** Joining tokens with blanks and splitting the result gives them back,
      and the joined string holds no command delimiter and no newline. */
  lemma {:induction false} UnwordsTokens(ws: seq<string>)
    requires forall w :: w in ws ==> Token(w)
    ensures Tokens(Unwords(ws)) == ws
    ensures forall c :: c in Unwords(ws) ==> c !in CommandDelims && c != '\n'
  {
    if ws == [] {
      SpacesHaveNoTokens("");
    } else if |ws| == 1 {
      assert ws[0] in ws;
      TokensWord(ws[0]);
    } else {
      var rest := Unwords(ws[1..]);
      assert ws[0] in ws;
      assert forall w :: w in ws[1..] ==> w in ws;
      assert [ws[0]] + ws[1..] == ws;
      UnwordsTokens(ws[1..]);
      TokensWord(ws[0]);
      TokensAround(ws[0], rest);
    }
  }

  lemma PaddedTokens(pre: string, ws: seq<string>, post: string)
    requires forall w :: w in ws ==> Token(w)
    requires (pre == "" || pre == " ") && (post == "" || post == " ")
    ensures Tokens(pre + Unwords(ws) + post) == ws
  {
    var s := Unwords(ws);
    var padded := pre + s + post;
    assert padded == s || padded == s + " " || padded == " " + s || padded == " " + (s + " ");
    UnwordsTokens(ws);
    TokensTrim(s);
    TokensTrim(s + " ");
  }

  lemma PaddedSegment(pre: string, ws: seq<string>, post: string)
    requires ws != [] && forall w :: w in ws ==> Token(w)
    requires (pre == "" || pre == " ") && (post == "" || post == " ")
    ensures var padded := pre + Unwords(ws) + post;
      padded != [] && '&' !in padded && '#' !in padded
  {
    var s := Unwords(ws);
    var padded := pre + s + post;
    assert ws[0] in ws;
    assert |ws| > 1 ==> s == ws[0] + " " + Unwords(ws[1..]);
    UnwordsTokens(ws);
    forall c | c in padded ensures c !in CommandDelims {
      assert c in pre || c in s || c in post;
    }
  }

  /** Blanks around the words of one command change nothing. */
  lemma PaddedCommand(pre: string, ws: seq<string>, post: string)
    requires ws != [] && forall w :: w in ws ==> Token(w)
    requires (pre == "" || pre == " ") && (post == "" || post == " ")
    ensures Commands(pre + Unwords(ws) + post) == [ws]
  {
    PaddedSegment(pre, ws, post);
    CommandsSegment(pre + Unwords(ws) + post);
    PaddedTokens(pre, ws, post);
  }

  /** No plain word is one the parser raises a flag for. */
  lemma WordsRaiseNoFlag(cmds: seq<seq<string>>)
    requires forall c, t :: c in cmds && t in c ==> Word(t)
    ensures !HasToken(cmds, "exit") && !HasToken(cmds, ">") && !HasToken(cmds, "cd")
  {
  }

  lemma Unwords1(x: string)
    ensures Unwords([x]) == x
  {
  }

  lemma Unwords2(x: string, y: string)
    ensures Unwords([x, y]) == x + " " + y
  {
    assert [x, y][1..] == [y];
  }

  lemma Unwords3(x: string, y: string, z: string)
    ensures Unwords([x, y, z]) == x + " " + y + " " + z
  {
    assert [x, y, z][1..] == [y, z];
    Unwords2(y, z);
  }

  // ---------------------------------------------------------------------
  // Markers and delimiters
  // ---------------------------------------------------------------------

  lemma MarkedTail(y: string, z: string)
    requires Word(y) && Word(z)
    ensures Commands(" " + y + " ## " + z) == [[y], [z]]
  {
    assert " " + y + " ## " + z == (" " + Unwords([y]) + " ") + ['#', '#'] + (" " + Unwords([z]) + "") by {
      Unwords1(y);
      Unwords1(z);
    }
    PaddedCommand(" ", [y], " ");
    PaddedCommand(" ", [z], "");
    CommandsDoubled(" " + Unwords([y]) + " ", '#', '#', " " + Unwords([z]) + "");
  }

  lemma MixedMarkersCommands(x: string, y: string, z: string)
    requires Word(x) && Word(y) && Word(z)
    ensures Commands(x + " && " + y + " ## " + z) == [[x], [y], [z]]
  {
    var tail := " " + y + " ## " + z;
    assert x + " && " + y + " ## " + z == ("" + Unwords([x]) + " ") + ['&', '&'] + tail by {
      Unwords1(x);
    }
    MarkedTail(y, z);
    PaddedCommand("", [x], " ");
    CommandsDoubled("" + Unwords([x]) + " ", '&', '&', tail);
  }

  /** With both markers the parallel branch comes first: a && b ## c runs
      all three commands concurrently. */
  lemma MixedMarkersRunConcurrently(x: string, y: string, z: string)
    requires Word(x) && Word(y) && Word(z)
    ensures Plan(x + " && " + y + " ## " + z) == RunConcurrently([[x], [y], [z]])
  {
    var line := x + " && " + y + " ## " + z;
    assert Occurs(line, "&&") by {
      assert line[|x| + 1..|x| + 3] == "&&";
      assert OccursAt(line, "&&", |x| + 1);
    }
    MixedMarkersCommands(x, y, z);
    WordsRaiseNoFlag([[x], [y], [z]]);
    PlanConcurrent(line);
  }

  /** No two neighbouring characters of s are both ch. */
  lemma NoDoubled(s: string, ch: char)
    requires forall i :: 0 <= i < |s| - 1 ==> s[i] != ch || s[i + 1] != ch
    ensures !Occurs(s, [ch, ch])
  {
    forall i | 0 <= i && i + 2 <= |s|
      ensures !OccursAt(s, [ch, ch], i)
    {
      assert s[i..i + 2][0] == s[i] && s[i..i + 2][1] == s[i + 1];
    }
  }

  lemma LoneAmpersandCommands(x: string, y: string)
    requires Word(x) && Word(y)
    ensures Commands(x + " & " + y) == [[x], [y]]
  {
    assert x + " & " + y == ("" + Unwords([x]) + " ") + ['&'] + (" " + Unwords([y]) + "") by {
      Unwords1(x);
      Unwords1(y);
    }
    PaddedCommand("", [x], " ");
    PaddedCommand(" ", [y], "");
    CommandsAround("" + Unwords([x]) + " ", '&', " " + Unwords([y]) + "");
  }

  lemma LoneAmpersandMarkers(x: string, y: string)
    requires Word(x) && Word(y)
    ensures !Occurs(x + " & " + y, "&&") && !Occurs(x + " & " + y, "##")
  {
    var line := x + " & " + y;
    forall i | 0 <= i < |line| - 1
      ensures (line[i] != '&' || line[i + 1] != '&') && line[i] != '#'
    {
      if i < |x| {
        assert line[i] == x[i] && x[i] in x;
      } else if i == |x| || i == |x| + 2 {
        assert line[i] == ' ';
      } else if i == |x| + 1 {
        assert line[i + 1] == ' ';
      } else {
        assert line[i] == y[i - |x| - 3] && y[i - |x| - 3] in y;
      }
    }
    NoDoubled(line, '&');
    NoDoubled(line, '#');
  }

  /** A lone '&' splits the line into two commands but sets neither marker, so
      two commands without a marker, a '>' or a cd run nothing at all. */
  lemma LoneAmpersandSkips(x: string, y: string)
    requires Word(x) && Word(y)
    ensures Commands(x + " & " + y) == [[x], [y]]
    ensures !Occurs(x + " & " + y, "&&") && !Occurs(x + " & " + y, "##")
    ensures Plan(x + " & " + y) == Skip
  {
    LoneAmpersandCommands(x, y);
    LoneAmpersandMarkers(x, y);
    WordsRaiseNoFlag([[x], [y]]);
    PlanSkip(x + " & " + y);
  }

  lemma JoinedCommand(line: string, argv: seq<string>)
    requires line == Unwords(argv)
    requires argv != [] && forall w :: w in argv ==> Token(w)
    ensures Commands(line) == [argv]
  {
    assert line == "" + Unwords(argv) + "";
    PaddedCommand("", argv, "");
  }

  /** '|' is an ordinary token: there is no pipeline, a | b runs a with the
      arguments | and b. */
  lemma PipeIsAToken(x: string, y: string)
    requires Word(x) && Word(y)
    ensures Commands(x + " | " + y) == [[x, "|", y]]
    ensures Plan(x + " | " + y) == Run([x, "|", y])
  {
    var line := x + " | " + y;
    var argv := [x, "|", y];
    Unwords3(x, "|", y);
    JoinedCommand(line, argv);
    PlanOneCommand(line, argv);
    StripAllNoNewline(argv);
  }

  // ---------------------------------------------------------------------
  // Redirection
  // ---------------------------------------------------------------------

  /** x > f runs x with stdout sent to f. */
  lemma RedirectToFile(x: string, f: string)
    requires Word(x) && Word(f)
    ensures Plan(x + " > " + f) == RunRedirected([x], f)
  {
    var line := x + " > " + f;
    var argv := [x, ">", f];
    Unwords3(x, ">", f);
    JoinedCommand(line, argv);
    RedirectAfterOneWord(x, f);
    PlanOneCommand(line, argv);
  }

  lemma RedirectAfterOneWord(x: string, f: string)
    requires x != ">"
    ensures RedirectTarget([x, ">", f]) == Some(Redirection([x], f))
  {
    FirstInUnique([x, ">", f], {">"}, 1);
    assert [x, ">", f][..1] == [x];
  }

  /** x > with nothing after the '>' fails in the child without running x. */
  lemma RedirectWithoutFile(x: string)
    requires Word(x)
    ensures Plan(x + " >") == RedirectFails
  {
    var line := x + " >";
    var argv := [x, ">"];
    Unwords2(x, ">");
    JoinedCommand(line, argv);
    assert RedirectTarget(argv) == None by {
      FirstInUnique(argv, {">"}, 1);
    }
    PlanOneCommand(line, argv);
  }

  // ---------------------------------------------------------------------
  // cd
  // ---------------------------------------------------------------------

  /** cd d changes to d; a bare cd calls chdir(NULL). */
  lemma ChangeDirectory(d: string)
    requires Word(d)
    ensures Plan("cd " + d) == ChangeDir(Some(d))
    ensures Plan("cd") == ChangeDir(None)
  {
    Unwords2("cd", d);
    JoinedCommand("cd " + d, ["cd", d]);
    PlanOneCommand("cd " + d, ["cd", d]);
    Unwords1("cd");
    JoinedCommand("cd", ["cd"]);
    PlanOneCommand("cd", ["cd"]);
  }

  lemma CdSequenceLayout(d: string, x: string)
    ensures "cd " + d + " ## " + x == ("" + Unwords(["cd", d]) + " ") + ['#', '#'] + (" " + Unwords([x]) + "")
  {
    Unwords2("cd", d);
    Unwords1(x);
  }

  lemma CdSequenceCommands(d: string, x: string)
    requires Word(d) && Word(x)
    ensures Commands("cd " + d + " ## " + x) == [["cd", d], [x]]
  {
    var first := "" + Unwords(["cd", d]) + " ";
    CdSequenceLayout(d, x);
    PaddedCommand("", ["cd", d], " ");
    PaddedCommand(" ", [x], "");
    CommandsDoubled(first, '#', '#', " " + Unwords([x]) + "");
  }

  lemma CdSequenceMarkers(d: string, x: string)
    requires Word(d) && Word(x)
    ensures Occurs("cd " + d + " ## " + x, "##")
    ensures !Occurs("cd " + d + " ## " + x, "&&")
  {
    var line := "cd " + d + " ## " + x;
    assert line[|d| + 4..|d| + 6] == "##";
    assert OccursAt(line, "##", |d| + 4);
    forall i | 0 <= i < |line| - 1 ensures line[i] != '&' {
      if 3 <= i < |d| + 3 {
        assert line[i] == d[i - 3] && d[i - 3] in d;
      } else if |d| + 7 <= i {
        assert line[i] == x[i - |d| - 7] && x[i - |d| - 7] in x;
      }
    }
    NoDoubled(line, '&');
  }

  /** In a sequential line cd is one more command handed to execvp; it does
      not change the shell's own directory. */
  lemma ChangeDirectoryInSequence(d: string, x: string)
    requires Word(d) && Word(x)
    ensures Plan("cd " + d + " ## " + x) == RunInOrder([["cd", d], [x]])
  {
    var line := "cd " + d + " ## " + x;
    CdSequenceCommands(d, x);
    CdSequenceMarkers(d, x);
    assert !HasToken([["cd", d], [x]], "exit");
    PlanInOrder(line);
  }

  // ---------------------------------------------------------------------
  // Blank lines
  // ---------------------------------------------------------------------

  /** The empty line runs nothing; a line of blanks is one command with an
      empty argument vector, which is handed to execvp. */
  lemma BlankLinePlans(line: string)
    requires forall k :: 0 <= k < |line| ==> line[k] == ' '
    ensures line == [] ==> Plan(line) == Skip
    ensures line != [] ==> Plan(line) == Run([])
  {
    BlankLines(line);
  }
}
