/**
 * Properties of `match_inputs` over whole input lines: what each built-in
 * changes and leaves alone, how aliases are resolved, the table invariant
 * the loop keeps, and the save/load round trip seen from the command line.
 */
module ShellLemmas {
  import opened Text
  import opened AliasFile
  import opened Shell

  /** `SETSHELLNAME` replaces only the name, by the following words joined with single spaces. */
  lemma DispatchSetShellName(tokens: seq<string>, st: State, max: nat, files: map<string, string>)
    requires |tokens| >= 1 && tokens[0] == "SETSHELLNAME"
    ensures var o := Dispatch(tokens, st, max, files);
      && o.Continue?
      && o.st.terminator == st.terminator && o.st.aliases == st.aliases
      && o.st.name == JoinSpace(tokens[1..])
      && (|tokens| == 1 ==> o.st.name == [])
      && (AllWords(tokens) ==> SplitWhitespace(o.st.name) == tokens[1..] && SingleSpaced(o.st.name))
  {
  }

  /** `SETSHELLNAME A B C` names the shell `A B C`, and the prompt shows it. */
  lemma ShellNameExample(max: nat, files: map<string, string>)
    ensures Dispatch(["SETSHELLNAME", "A", "B", "C"], Initial(), max, files) == Continue(Initial().(name := "A B C"))
    ensures Prompt(Initial().(name := "A B C")) == "A B C> "
  {
    var tokens := ["SETSHELLNAME", "A", "B", "C"];
    assert tokens[1..] == ["A", "B", "C"];
    JoinThreeLetters();
    assert SetShellName(tokens) == "A B C";
    assert Dispatch(tokens, Initial(), max, files) == Continue(Initial().(name := SetShellName(tokens)));
  }

  lemma JoinThreeLetters()
    ensures JoinSpace(["A", "B", "C"]) == "A B C"
  {
    assert ["B", "C"][1..] == ["C"];
    assert JoinSpace(["B", "C"]) == "B C";
    assert ["A", "B", "C"][1..] == ["B", "C"];
  }

  /**
   * `SETTERMINATOR` takes the first argument and ignores the rest; without
   * an argument nothing changes. The name and the aliases never change.
   */
  lemma DispatchSetTerminator(tokens: seq<string>, st: State, max: nat, files: map<string, string>)
    requires |tokens| >= 1 && tokens[0] == "SETTERMINATOR"
    ensures var o := Dispatch(tokens, st, max, files);
      && o.Continue?
      && o.st.name == st.name && o.st.aliases == st.aliases
      && (|tokens| >= 2 ==> o.st.terminator == tokens[1])
      && (|tokens| == 1 ==> o.st == st)
  {
  }

  /** A bare `NEWNAME` lists the table and changes nothing. */
  lemma DispatchNewNameList(st: State, max: nat, files: map<string, string>)
    ensures Dispatch(["NEWNAME"], st, max, files) == Listing(ListNewNames(st.aliases), st)
  {
  }

  /**
   * `NEWNAME x` deletes alias `x` if present and keeps every other alias;
   * when `x` is absent the state is unchanged. Name and terminator stay.
   */
  lemma DispatchNewNameDelete(tokens: seq<string>, st: State, max: nat, files: map<string, string>)
    requires |tokens| == 2 && tokens[0] == "NEWNAME"
    ensures var o := Dispatch(tokens, st, max, files);
      && o.Continue?
      && o.st.name == st.name && o.st.terminator == st.terminator
      && tokens[1] !in o.st.aliases
      && (forall k | k in st.aliases && k != tokens[1] :: k in o.st.aliases && o.st.aliases[k] == st.aliases[k])
      && (tokens[1] in st.aliases ==> |o.st.aliases| == |st.aliases| - 1)
      && (tokens[1] !in st.aliases ==> o.st == st)
  {
    var r := SetNewName(tokens, st.aliases);
    assert Dispatch(tokens, st, max, files) == Continue(st.(aliases := r));
    if tokens[1] in st.aliases {
      RemoveSize(st.aliases, tokens[1]);
    } else {
      assert r == st.aliases;
    }
  }

  lemma RemoveSize(t: Table, k: string)
    requires k in t
    ensures |t - {k}| == |t| - 1
  {
    assert t.Keys == (t - {k}).Keys + {k};
  }

  /**
   * `NEWNAME x y` binds `x` to `y`, inserting or overwriting, and keeps
   * every other alias, the name and the terminator.
   */
  lemma DispatchNewNameDefine(tokens: seq<string>, st: State, max: nat, files: map<string, string>)
    requires |tokens| == 3 && tokens[0] == "NEWNAME"
    ensures var o := Dispatch(tokens, st, max, files);
      && o.Continue?
      && o.st.name == st.name && o.st.terminator == st.terminator
      && o.st.aliases == st.aliases[tokens[1] := tokens[2]]
  {
    var r := SetNewName(tokens, st.aliases);
    assert r == st.aliases[tokens[1] := tokens[2]];
  }

  /** `NEWNAME` with three or more arguments is a usage error and changes nothing. */
  lemma DispatchNewNameInvalid(tokens: seq<string>, st: State, max: nat, files: map<string, string>)
    requires |tokens| >= 4 && tokens[0] == "NEWNAME"
    ensures Dispatch(tokens, st, max, files) == Continue(st)
  {
  }

  /** `LISTNEWNAMES`, whatever follows it, prints the same lines as a bare `NEWNAME`. */
  lemma DispatchListNewNames(tokens: seq<string>, st: State, max: nat, files: map<string, string>)
    requires |tokens| >= 1 && tokens[0] == "LISTNEWNAMES"
    ensures Dispatch(tokens, st, max, files) == Dispatch(["NEWNAME"], st, max, files)
    ensures SpaceFreeKeys(st.aliases) ==> |Dispatch(tokens, st, max, files).entries| == |st.aliases|
  {
    if SpaceFreeKeys(st.aliases) { ListingSize(st.aliases); }
  }

  /**
   * `READNEWNAMES` needs exactly one argument and a file that opens; then
   * the file's lines are loaded onto the current table. Only the table changes.
   */
  lemma DispatchReadNewNames(tokens: seq<string>, st: State, max: nat, files: map<string, string>)
    requires |tokens| >= 1 && tokens[0] == "READNEWNAMES"
    ensures var o := Dispatch(tokens, st, max, files);
      && o.Continue?
      && o.st.name == st.name && o.st.terminator == st.terminator
      && (|tokens| != 2 || tokens[1] !in files ==> o.st == st)
      && (|tokens| == 2 && tokens[1] in files ==>
            o.st.aliases == LoadLines(ReadLines(files[tokens[1]]), st.aliases, max))
  {
  }

  /** `SAVENEWNAMES` with exactly one argument asks for the table to be written there; otherwise nothing happens. */
  lemma DispatchSaveNewNames(tokens: seq<string>, st: State, max: nat, files: map<string, string>)
    requires |tokens| >= 1 && tokens[0] == "SAVENEWNAMES"
    ensures |tokens| == 2 ==> Dispatch(tokens, st, max, files) == Save(tokens[1], st)
    ensures |tokens| != 2 ==> Dispatch(tokens, st, max, files) == Continue(st)
  {
  }

  /** A first token that is neither a selector nor an alias is run with the other tokens. */
  lemma DispatchProgram(tokens: seq<string>, st: State, max: nat, files: map<string, string>)
    requires |tokens| >= 1 && !IsSelector(tokens[0]) && tokens[0] !in st.aliases
    ensures Dispatch(tokens, st, max, files) == Exec(tokens[0], tokens[1..], st)
  {
  }

  /**
   * An alias runs its own command line: the words typed after the alias
   * name make no difference, and the program is the first word of the
   * alias's command line.
   */
  lemma DispatchAlias(name: string, args1: seq<string>, args2: seq<string>, st: State, max: nat, files: map<string, string>)
    requires !IsSelector(name) && name in st.aliases
    ensures Dispatch([name] + args1, st, max, files) == Dispatch([name] + args2, st, max, files)
    ensures var o := Dispatch([name] + args1, st, max, files);
      && (o.Panic? <==> AllWhitespace(st.aliases[name]))
      && (o.Exec? ==> o.st == st && SplitWhitespace(st.aliases[name]) == [o.program] + o.args)
  {
    assert ([name] + args1)[0] == name && ([name] + args2)[0] == name;
  }

  /** `NEWNAME x y` followed by `x` runs `y` with no arguments. */
  lemma DefineThenRun(x: string, y: string, st: State, max: nat, files: map<string, string>)
    requires IsWord(x) && IsWord(y) && !IsSelector(x)
    ensures var o := Dispatch(["NEWNAME", x, y], st, max, files);
      && o.Continue?
      && Dispatch([x], o.st, max, files) == Exec(y, [], o.st)
  {
    var o := Dispatch(["NEWNAME", x, y], st, max, files);
    assert o.st.aliases[x] == y;
    SplitJoin([y]);
    assert SplitWhitespace(y) == [y];
  }

  /**
   * An alias file line whose command part is blank is loaded, and running
   * that alias then indexes an empty word list: `k ` read from a file makes
   * the next input `k` panic.
   */
  lemma BlankAliasPanics(st: State)
    requires st.aliases == map[]
    ensures var files := map["f" := "k \n"];
      var o := Dispatch(["READNEWNAMES", "f"], st, MaxAliases, files);
      && o == Continue(st.(aliases := map["k" := ""]))
      && Dispatch(["k"], o.st, MaxAliases, files) == Panic
  {
    var files := map["f" := "k \n"];
    BlankCommandLoaded("f", files);
    var st' := st.(aliases := map["k" := ""]);
    assert ReadNewNames(["READNEWNAMES", "f"], st.aliases, MaxAliases, files) == map["k" := ""];
    assert Dispatch(["READNEWNAMES", "f"], st, MaxAliases, files) == Continue(st');
    assert AllWhitespace(st'.aliases["k"]);
    assert Invoke(["k"], st') == Panic;
  }

  /**
   * The loop keeps every table it can reach free of alias names with a
   * space or newline and of command lines with a newline, whatever is typed
   * and whatever files are read.
   */
  lemma StepPreservesValid(line: string, st: State, max: nat, files: map<string, string>)
    requires ValidTable(st.aliases)
    ensures var o := Step(line, st, max, files);
      Carries(o) ==> ValidTable(o.st.aliases)
  {
    var tokens := SplitWhitespace(line);
    if |tokens| > 0 && tokens[0] == "READNEWNAMES" && |tokens| == 2 && tokens[1] in files {
      LoadPreservesValid(ReadLines(files[tokens[1]]), st.aliases, max);
    }
    if |tokens| == 3 && tokens[0] == "NEWNAME" {
      assert IsWord(tokens[1]) && IsWord(tokens[2]);
      assert ' ' !in tokens[1] && '\n' !in tokens[1] && '\n' !in tokens[2];
    }
  }

  /**
   * `SAVENEWNAMES p` then, with an empty table, `READNEWNAMES p` restores
   * the table, in whatever order the save wrote it, when the bound admits
   * the whole table and no command line ends in a carriage return.
   */
  lemma SaveThenRead(st: State, p: string, text: string, max: nat, files: map<string, string>)
    requires ValidTable(st.aliases) && NoTrailingCarriageReturn(st.aliases)
    requires |st.aliases| <= max
    requires IsSavedText(st.aliases, text)
    ensures Dispatch(["SAVENEWNAMES", p], st, max, files) == Save(p, st)
    ensures Dispatch(["READNEWNAMES", p], st.(aliases := map[]), max, files[p := text]) == Continue(st)
  {
    DispatchSaveNewNames(["SAVENEWNAMES", p], st, max, files);
    var tokens := ["READNEWNAMES", p];
    var files' := files[p := text];
    var st0 := st.(aliases := map[]);
    SaveLoadFile(st.aliases, text, p, files, max);
    assert LoadLines(ReadLines(files'[p]), map[], max) == st.aliases;
    DispatchReadNewNames(tokens, st0, max, files');
  }
}
