# MyShell command dispatch and alias store, in Dafny

This project models the pure core of MyShell, a small interactive shell written in Rust (`src/main.rs`). The shell reads a line and splits it into whitespace-separated tokens. `match_inputs` then treats the first token as one of seven built-in selectors:

- `STOP`, `SETSHELLNAME`, `SETTERMINATOR`, `NEWNAME`;
- `READNEWNAMES`, `LISTNEWNAMES`, `SAVENEWNAMES`.

Any other first token is a program to run. An alias of that name is looked up first. The shell state is the shell name, the prompt terminator and an alias table mapping names to command lines. The alias table can be loaded from a file, up to a bound (`max_aliases`, 10 in `main`), and saved to one. The file holds one `name command-line` line per alias.

Modules:

- `Options`: `Option` and `Result`.
- `Text`: Rust's `char::is_whitespace` (the Unicode White_Space list written out), `split_whitespace`, `join(" ")` and first-occurrence search.
- `AliasFile`: the line codec (`splitn(2, ' ')` and the `"{} {}"` format), `BufRead::lines` and `writeln!` framing, and the bounded load loop. It also holds the save loop (a method whose `HashMap` iteration order is an arbitrary choice) and the save/load round trips.
- `Shell`: the state, the handlers and `Dispatch` (`match_inputs`). `Dispatch` returns an `Outcome`:
  - `Stop`: `exit(0)`;
  - `Panic`: an alias whose command line has no word;
  - `Continue`: a built-in changed or kept the state;
  - `Listing`: the lines printed by a listing;
  - `Save`: write the table to a path;
  - `Exec`: run a program with arguments.
- `ShellLemmas`: properties of whole commands. These cover the frame of each built-in, alias resolution, define-then-run, the table invariant the loop keeps, and save-then-read through the dispatcher.

Effects are parameters or outcomes:

- The file system seen by `READNEWNAMES` is a `map<string, string>` from path to file text. A missing path is an open failure.
- The text written by `SAVENEWNAMES` is what `SaveAliasesToFile` returns.
- Process execution is the `Exec` outcome. Its success or failure only prints a message, so the state is the same either way.

Where the code's own doc comments and the code differ, the model follows the code:

- The comments on `read_aliases_from_file` (src/main.rs:384 and :389) promise to read aliases "up to a maximum" of `max_aliases`. The bound is compared only after each insert. So with `max_aliases` = 0 one line is still loaded, and a table already at the bound still takes one more new name (`AliasFile.Kept`, `AliasFile.LoadAtBound`, `AliasFile.LoadStops`).
- The same comments (src/main.rs:391-392) say the function can return an error for problems with parsing. It never does. A line without a space is skipped. A line with a space is loaded even when a half is empty: `"a "` gives `a -> ""`, and `" x"` gives `"" -> "x"`.
- The comment on `match_inputs` (src/main.rs:51-53) says it returns an `Err` if any error occurs. It never returns one, so `Dispatch` has no error outcome.

Behaviour of the code as written worth knowing:

- Running an alias whose command line is empty or all whitespace indexes `alias_args[0]` of an empty vector. The process panics. This is the `Panic` outcome, and `ShellLemmas.BlankAliasPanics` shows a file line that leads to it.
- `BufRead::lines` drops a carriage return just before a newline. So a command line ending in `\r` does not survive save-then-load. The file round trip assumes no such command line, and `AliasFile.CarriageReturnLost` shows the loss. A last line without a newline is read whole, carriage return included (`AliasFile.ReadLines`).

## Model

| member | source | states |
|---|---|---|
| Text.IsWhitespace | src/main.rs:28 | the whitespace `split_whitespace` cuts at: among ASCII characters exactly tab, line feed, vertical tab, form feed, carriage return and space; nothing above U+3000 |
| Text.SplitWhitespace | src/main.rs:27-29 | every token is non-empty and holds no whitespace; together the tokens hold exactly the non-whitespace characters of the line, in order |
| Text.JoinSpace | src/main.rs:136 | a non-empty join of words begins and ends with a word character |
| Text.JoinSingleSpaced | src/main.rs:131-137 | in words joined with `join(" ")`, every whitespace character is one space, never first or last, never next to another |
| Text.SplitJoin | src/main.rs:131-137 | splitting words joined with single spaces gives the same words back |
| Text.SplitEmptyIff | src/main.rs:89-90 | a command line splits into no words exactly when it is all whitespace |
| Text.IndexOf | src/main.rs:412 | finds the first occurrence of a character, or reports that it is absent |
| AliasFile.FormatLine | src/main.rs:463 | the saved line is the name, one space, then the command line |
| AliasFile.ParseLine | src/main.rs:412-416 | a line gives an alias exactly when it holds a space; the name is the space-free text before the first space; name, space and command rebuild the line |
| AliasFile.ParseFormat | src/main.rs:463 | a saved line `name command` reads back as the same alias when the name has no space |
| AliasFile.LoadLines | src/main.rs:410-423 | loading never removes a key; starting below the bound it ends at most at the bound; starting at or above it, it adds at most one entry |
| AliasFile.LoadOverwrites | src/main.rs:410-421 | while the load stays below the bound, a key named by some line ends bound to the command of the last line naming it, existing key or not; every other key keeps its entry or stays absent |
| AliasFile.LoadStops | src/main.rs:410-421 | for any lines and table, the load equals applying every line in order up to the first line whose insert brings the table to the bound (or up to the end if none does); no later line is read, whatever key it names |
| AliasFile.LaterLineNotRead | src/main.rs:417-420 | `a x`, `b y`, `a z` with bound 2 loads `a -> x`, `b -> y`: the repeated name after the bound is never read |
| AliasFile.LoadAtBound | src/main.rs:417-420 | a table already at or above the bound still takes the next line holding a space, then the load ends |
| AliasFile.LoadReplacesExisting | src/main.rs:417-421 | one line naming an alias already in the table replaces its command line without growing the table, whatever the bound |
| AliasFile.LoadBelowBound | src/main.rs:417-421 | when the bound is not reached, the bounded load equals inserting every line with a space; a result below the bound means no line was dropped |
| AliasFile.SkipLineWithoutSpace | src/main.rs:412-414 | a line without a space neither adds an alias nor stops the load |
| AliasFile.LoadDistinct | src/main.rs:410-423 | lines with distinct new names: exactly the first `Kept(k, size, max)` are inserted with their commands, the rest are absent, existing entries are kept |
| AliasFile.SaveLoadLines | src/main.rs:462-463 | saved lines, in any key order, load into an empty table with bound at least the table size and give the same table |
| AliasFile.FileText | src/main.rs:462-463 | every written line, the last included, ends in a newline: the text is empty exactly when no line is written |
| AliasFile.ReadLines | src/main.rs:410-411 | no line read from a file contains a newline; a non-empty text without a newline is read as that one line, unchanged (a trailing carriage return included) |
| AliasFile.ReadLinesCons | src/main.rs:410-411 | a line ended by a newline is read as itself, less one trailing carriage return |
| AliasFile.ReadFileText | src/main.rs:463 | lines written with `writeln!` read back unchanged when none holds a newline or ends in a carriage return |
| AliasFile.CarriageReturnLost | src/main.rs:410-411 | table `k -> "v\r"` is written as `"k v\r\n"` and reads back as `k -> "v"` |
| AliasFile.ReadAliasesFromFile | src/main.rs:406-426 | fails exactly when the file cannot be opened; otherwise the table only grows, and stays within the bound if it started below it |
| AliasFile.SaveAliasesToFile | src/main.rs:461-471 | the text written is one `name command` line per alias, each alias exactly once, in some iteration order |
| AliasFile.SaveLoadFile | src/main.rs:452-473 | reading back any text the save can write, into an empty table with bound at least the table size, gives the table back (names without space or newline, commands without newline or trailing carriage return) |
| AliasFile.LoadPreservesValid | src/main.rs:412-417 | loading file lines keeps alias names free of spaces and newlines and commands free of newlines |
| AliasFile.BlankCommandLoaded | src/main.rs:412-417 | the file line `k ` loads as alias `k` with an empty command line |
| Shell.Initial | src/main.rs:16-19 | the loop starts with the name `My Shell`, the terminator `>` and an empty alias table, below the bound of 10, so the first prompt is `My Shell> ` |
| Shell.Prompt | src/main.rs:23 | the prompt is the shell name, then the terminator, then one space |
| Shell.Step | src/main.rs:27-31 | one turn splits the line and dispatches: an all-whitespace line changes nothing, and only a line whose first word is `STOP` stops |
| Shell.SetShellName | src/main.rs:130-138 | with no argument the name becomes empty; otherwise splitting the new name gives back the arguments, and each whitespace character of the name is a single space between two words |
| Shell.SetTerminator | src/main.rs:169-175 | the second token becomes the terminator; without one the terminator is kept |
| Shell.SetNewName | src/main.rs:209-233 | with two arguments, the name is bound to the command; with one, that name is removed; every other alias is unchanged; any other count leaves the table alone |
| Shell.ListNewNames | src/main.rs:298-302 | one `name - command` line for each alias and no other lines |
| Shell.ListingSize | src/main.rs:298-302 | with space-free names every alias is listed exactly once |
| Shell.ReadNewNames | src/main.rs:264-274 | a wrong argument count or a file that cannot be opened leaves the table unchanged; otherwise the table only grows, within the bound if it started below it |
| Shell.Invoke | src/main.rs:86-97 | always runs a program or panics, never changes state; a non-alias runs with the typed arguments; an alias runs the words of its command line and panics exactly when there are none |
| Shell.Dispatch | src/main.rs:70-103 | empty input changes nothing; a selector never runs a program and a non-selector always does (or panics); only `STOP` stops; running, listing and saving keep the state |
| ShellLemmas.DispatchSetShellName | src/main.rs:74-75 | `SETSHELLNAME` changes only the name, to the arguments joined with single spaces: empty when bare, else single-spaced words that split back into the arguments |
| ShellLemmas.ShellNameExample | src/main.rs:23 | `SETSHELLNAME A B C` names the shell `A B C`, and the prompt becomes `A B C> ` |
| ShellLemmas.DispatchSetTerminator | src/main.rs:76-77 | `SETTERMINATOR` takes the first argument and ignores the rest; bare, it changes nothing; the name and aliases never change |
| ShellLemmas.DispatchNewNameList | src/main.rs:210-215 | a bare `NEWNAME` lists the table and changes nothing |
| ShellLemmas.DispatchNewNameDelete | src/main.rs:216-224 | `NEWNAME x` removes `x` and keeps every other alias; the size drops by one if `x` was present, otherwise nothing changes |
| ShellLemmas.RemoveSize | src/main.rs:220 | removing a present key shrinks the table by one |
| ShellLemmas.DispatchNewNameDefine | src/main.rs:225-230 | `NEWNAME x y` inserts or overwrites `x -> y` and changes nothing else |
| ShellLemmas.DispatchNewNameInvalid | src/main.rs:231-233 | `NEWNAME` with three or more arguments changes nothing |
| ShellLemmas.DispatchListNewNames | src/main.rs:82-83 | `LISTNEWNAMES`, whatever follows it, lists the same lines as a bare `NEWNAME`, one per alias |
| ShellLemmas.DispatchReadNewNames | src/main.rs:264-274 | `READNEWNAMES` changes only the aliases, and only with exactly one argument naming a file that opens; then the file's lines are loaded onto the table |
| ShellLemmas.DispatchSaveNewNames | src/main.rs:333-345 | `SAVENEWNAMES p` asks for the table to be saved to `p`; any other argument count does nothing |
| ShellLemmas.DispatchProgram | src/main.rs:93-97 | a first token that is neither a selector nor an alias runs with the remaining tokens as arguments, state unchanged |
| ShellLemmas.DispatchAlias | src/main.rs:86-92 | an alias ignores the typed arguments; it runs the first word of its command line with the other words, or panics exactly when there is no word |
| ShellLemmas.DefineThenRun | src/main.rs:87-90 | after `NEWNAME x y`, input `x` runs `y` with no arguments |
| ShellLemmas.BlankAliasPanics | src/main.rs:89-90 | loading the file line `k ` and then typing `k` panics |
| ShellLemmas.StepPreservesValid | src/main.rs:27-31 | whatever line is typed and whatever files are read, the alias table keeps names without space or newline and commands without newline |
| ShellLemmas.SaveThenRead | src/main.rs:80-85 | `SAVENEWNAMES p`, then `READNEWNAMES p` with an empty table, restores the table (bound at least its size, no trailing carriage returns) |

## Left out

- The read loop and the `input!` prompt (src/main.rs:21-34) are terminal I/O. `Step` models one turn after the line is read, and `Prompt` is the prompt text.
- `exit(0)` for `STOP` is the `Stop` outcome. A Rust panic is the `Panic` outcome.
- `execute_command` (src/main.rs:368-378) spawns a process and reads its exit status. This is operating-system behaviour, so the model only records the request as `Exec(program, args, st)`. The error it may return is only printed, so it cannot change the state.
- All `println!`/`eprintln!` message text is left out. The one exception is the `name - command` listing lines.
- `HashMap` iteration order is unspecified. Listing is a set of lines, and saving is "some enumeration of the keys".
- SaveAliasesToFile: models only a save whose file creation and line writes succeed. `File::create` failure (an error result) is not modelled. A failing `writeln!` (which stops writing, yet the function still returns `Ok(())`) is not modelled either. `BufWriter` flushing is also out. These are file-system failures the model has no state for.
- ReadAliasesFromFile: models only the open failure. A read error in the middle of the file is not modelled. That error returns `Err` after the lines before it were loaded. File text is a Dafny string, so it is always valid text.
- `max_aliases` is a `usize` and table sizes are `usize`. Both are `nat` here, because no realistic table comes near the overflow.

