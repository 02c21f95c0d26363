/**
 * The shell's state and `match_inputs` with its handlers (src/main.rs).
 * Terminal I/O, process spawning and file writing are not performed here:
 * `Dispatch` returns an `Outcome` that says which of them the shell asks for.
 */
module Shell {
  import opened Options
  import opened Text
  import opened AliasFile

  /** The shell name, the prompt terminator and the alias table. */
  datatype State = State(name: string, terminator: string, aliases: Table)

  /** The bound `main` passes to `match_inputs` for loading alias files. */
  const MaxAliases: nat := 10

  /**
   * The state `main` starts the read loop with: the name `My Shell`, the
   * terminator `>`, an empty alias table (so one the shell can hold, below
   * the load bound), and the first prompt `My Shell> `.
   */
  function Initial(): (st: State)
    ensures st.name == "My Shell" && st.terminator == ">"
    ensures st.aliases == map[]
    ensures ValidTable(st.aliases) && |st.aliases| < MaxAliases
    ensures Prompt(st) == "My Shell> "
  {
    State("My Shell", ">", map[])
  }

  /** The prompt printed before each line is read: name, terminator, one space. */
  function Prompt(st: State): (p: string)
    ensures |p| == |st.name| + |st.terminator| + 1
    ensures p[..|st.name|] == st.name && p[|st.name|..|p| - 1] == st.terminator && p[|p| - 1] == ' '
  {
    st.name + st.terminator + " "
  }

  /** What handling one input line leads to. */
  datatype Outcome =
      /** `STOP`: `exit(0)`. */
    | Stop
      /** An alias whose command line has no word: `alias_args[0]` is out of bounds. */
    | Panic
      /** A built-in ran; the loop continues with `st`. */
    | Continue(st: State)
      /** The alias table is printed, one `name - command` line per alias. */
    | Listing(entries: set<string>, st: State)
      /** `SAVENEWNAMES`: the table in `st` is written to `path` (see `SaveAliasesToFile`). */
    | Save(path: string, st: State)
      /** `program` is run with `args`; whatever it does, the loop continues with `st`. */
    | Exec(program: string, args: seq<string>, st: State)

  /** The seven built-in command selectors, matched exactly and case-sensitively. */
  predicate IsSelector(w: string) {
    || w == "STOP" || w == "SETSHELLNAME" || w == "SETTERMINATOR" || w == "NEWNAME"
    || w == "READNEWNAMES" || w == "LISTNEWNAMES" || w == "SAVENEWNAMES"
  }

  /** Every token after the first, as `iter().skip(1)` yields them. */
  function Arguments(tokens: seq<string>): seq<string> {
    if |tokens| == 0 then [] else tokens[1..]
  }

  /**
   * `set_shell_name`: the words after the selector joined with single
   * spaces, so that splitting the name again gives those words back and
   * every whitespace character of the name is one space between two words.
   */
  function SetShellName(tokens: seq<string>): (name: string)
    ensures |tokens| <= 1 ==> name == []
    ensures AllWords(Arguments(tokens)) ==> SplitWhitespace(name) == Arguments(tokens)
    ensures AllWords(Arguments(tokens)) ==> SingleSpaced(name)
  {
    var name := JoinSpace(Arguments(tokens));
    if AllWords(Arguments(tokens)) then
      SplitJoin(Arguments(tokens));
      JoinSingleSpaced(Arguments(tokens));
      name
    else name
  }

  /** `set_terminator`: the second token if there is one, else the current terminator. */
  function SetTerminator(tokens: seq<string>, terminator: string): (r: string)
    ensures |tokens| >= 2 ==> r == tokens[1]
    ensures |tokens| < 2 ==> r == terminator
  {
    if |tokens| >= 2 then tokens[1] else terminator
  }

  /**
   * `set_new_name` on the table: three tokens define or redefine an alias,
   * two delete one (if present); any other count leaves the table alone.
   */
  function SetNewName(tokens: seq<string>, t: Table): (r: Table)
    ensures |tokens| == 3 ==> r.Keys == t.Keys + {tokens[1]} && r[tokens[1]] == tokens[2]
    ensures |tokens| == 2 ==> r.Keys == t.Keys - {tokens[1]}
    ensures |tokens| == 2 || |tokens| == 3 ==>
      forall k | k in t && k != tokens[1] :: k in r && r[k] == t[k]
    ensures |tokens| != 2 && |tokens| != 3 ==> r == t
  {
    if |tokens| == 2 then t - {tokens[1]}
    else if |tokens| == 3 then t[tokens[1] := tokens[2]]
    else t
  }

  /** The line `list_new_names` prints for one alias. */
  function ListLine(name: string, command: string): string {
    name + " - " + command
  }

  /** Two aliases with space-free names print the same line only if they are the same alias. */
  lemma ListLineInjective(a: string, b: string, c: string, d: string)
    requires ' ' !in a && ' ' !in c
    requires ListLine(a, b) == ListLine(c, d)
    ensures a == c && b == d
  {
    assert ListLine(a, b) == FormatLine(Entry(a, "- " + b));
    assert ListLine(c, d) == FormatLine(Entry(c, "- " + d));
    ParseFormat(Entry(a, "- " + b));
    ParseFormat(Entry(c, "- " + d));
    assert b == ("- " + b)[2..] == ("- " + d)[2..] == d;
  }

  /** `list_new_names`, as the set of lines printed (the order is the `HashMap`'s). */
  function ListNewNames(t: Table): (lines: set<string>)
    ensures forall k | k in t :: ListLine(k, t[k]) in lines
    ensures forall l | l in lines :: exists k | k in t :: l == ListLine(k, t[k])
  {
    set k | k in t :: ListLine(k, t[k])
  }

  /** With space-free names (as in every table the shell holds) each alias is listed once. */
  lemma {:induction false} ListingSize(t: Table)
    requires SpaceFreeKeys(t)
    ensures |ListNewNames(t)| == |t|
    decreases |t|
  {
    if |t| > 0 {
      var k :| k in t;
      var t' := t - {k};
      assert t'.Keys == t.Keys - {k};
      assert |t'| == |t| - 1;
      ListingSize(t');
      var line := ListLine(k, t[k]);
      ListingRemove(t, k);
      forall k' | k' in t' ensures ListLine(k', t'[k']) != line {
        if ListLine(k', t'[k']) == line {
          ListLineInjective(k', t'[k'], k, t[k]);
        }
      }
      assert line !in ListNewNames(t');
    }
  }

  lemma ListingRemove(t: Table, k: string)
    requires k in t
    ensures ListNewNames(t) == ListNewNames(t - {k}) + {ListLine(k, t[k])}
  {
    var t' := t - {k};
    forall l | l in ListNewNames(t) ensures l in ListNewNames(t') + {ListLine(k, t[k])} {
      var k'' :| k'' in t && l == ListLine(k'', t[k'']);
      if k'' != k { assert k'' in t'; }
    }
    forall l | l in ListNewNames(t') ensures l in ListNewNames(t) {
      var k'' :| k'' in t' && l == ListLine(k'', t'[k'']);
    }
  }

  /**
   * `read_new_names`: with exactly one argument, the file it names is
   * loaded onto the table; a wrong argument count or a file that cannot be
   * opened leaves the table as it was.
   */
  function ReadNewNames(tokens: seq<string>, t: Table, max: nat, files: map<string, string>): (r: Table)
    ensures |tokens| != 2 ==> r == t
    ensures |tokens| == 2 && tokens[1] !in files ==> r == t
    ensures t.Keys <= r.Keys
    ensures |t| < max ==> |r| <= max
  {
    if |tokens| != 2 then t
    else
      match ReadAliasesFromFile(tokens[1], files, t, max)
      case Ok(t') => t'
      case Err(_) => t
  }

  /**
   * The fall-through branch of `match_inputs`: an alias named by the first
   * token is replaced by its command line split into words (the remaining
   * input tokens are dropped); otherwise the tokens are run as they are.
   */
  function Invoke(tokens: seq<string>, st: State): (o: Outcome)
    requires |tokens| >= 1
    ensures o.Exec? || o.Panic?
    ensures o.Exec? ==> o.st == st
    ensures o.Panic? <==> tokens[0] in st.aliases && AllWhitespace(st.aliases[tokens[0]])
    ensures tokens[0] !in st.aliases ==> o == Exec(tokens[0], tokens[1..], st)
    ensures tokens[0] in st.aliases && o.Exec? ==>
      IsWord(o.program) && SplitWhitespace(st.aliases[tokens[0]]) == [o.program] + o.args
  {
    if tokens[0] in st.aliases then
      var words := SplitWhitespace(st.aliases[tokens[0]]);
      SplitEmptyIff(st.aliases[tokens[0]]);
      if |words| == 0 then Panic
      else
        assert words == [words[0]] + words[1..];
        Exec(words[0], words[1..], st)
    else Exec(tokens[0], tokens[1..], st)
  }

  /**
   * `match_inputs`: the first token selects a built-in by exact match;
   * anything else is a program to run, looked up in the alias table first;
   * no tokens at all do nothing. It never reports an error of its own.
   */
  function Dispatch(tokens: seq<string>, st: State, max: nat, files: map<string, string>): (o: Outcome)
    ensures |tokens| == 0 ==> o == Continue(st)
    ensures |tokens| > 0 ==> (IsSelector(tokens[0]) <==> !o.Exec? && !o.Panic?)
    ensures o.Stop? <==> |tokens| > 0 && tokens[0] == "STOP"
    ensures o.Exec? || o.Listing? || o.Save? ==> o.st == st
  {
    if |tokens| == 0 then Continue(st)
    else
      var selector := tokens[0];
      if selector == "STOP" then Stop
      else if selector == "SETSHELLNAME" then Continue(st.(name := SetShellName(tokens)))
      else if selector == "SETTERMINATOR" then Continue(st.(terminator := SetTerminator(tokens, st.terminator)))
      else if selector == "NEWNAME" then
        if |tokens| == 1 then Listing(ListNewNames(st.aliases), st)
        else Continue(st.(aliases := SetNewName(tokens, st.aliases)))
      else if selector == "READNEWNAMES" then Continue(st.(aliases := ReadNewNames(tokens, st.aliases, max, files)))
      else if selector == "LISTNEWNAMES" then Listing(ListNewNames(st.aliases), st)
      else if selector == "SAVENEWNAMES" then
        if |tokens| == 2 then Save(tokens[1], st) else Continue(st)
      else Invoke(tokens, st)
  }

  /**
   * One turn of the read loop: split the line read at the prompt, then
   * dispatch. A line of nothing but whitespace changes nothing, and only a
   * line whose first word is `STOP` stops the shell.
   */
  function Step(line: string, st: State, max: nat, files: map<string, string>): (o: Outcome)
    ensures AllWhitespace(line) ==> o == Continue(st)
    ensures o.Stop? <==> |SplitWhitespace(line)| > 0 && SplitWhitespace(line)[0] == "STOP"
  {
    SplitEmptyIff(line);
    Dispatch(SplitWhitespace(line), st, max, files)
  }

  /** The state the loop goes on with, if it goes on. */
  predicate Carries(o: Outcome) {
    o.Continue? || o.Listing? || o.Save? || o.Exec?
  }
}
