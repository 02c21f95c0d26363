/**
 * The alias file: one alias per line, written `name command-line`, split on
 * the first space when read back (`read_aliases_from_file` and
 * `save_aliases_to_file` in src/main.rs), together with the line framing of
 * `writeln!` and `BufRead::lines`.
 */
module AliasFile {
  import opened Options
  import opened Text

  /** The alias table: alias name to command line. */
  type Table = map<string, string>

  /** One alias as it appears on a line of the file. */
  datatype Entry = Entry(name: string, command: string)

  /**
   * The text `save_aliases_to_file` writes for one alias, before the
   * newline: the name, one space, then the command line.
   */
  function FormatLine(e: Entry): (line: string)
    ensures |line| == |e.name| + 1 + |e.command|
    ensures line[..|e.name|] == e.name && line[|e.name|] == ' ' && line[|e.name| + 1..] == e.command
  {
    e.name + " " + e.command
  }

  /**
   * `line.splitn(2, ' ')` followed by the two-parts test: the alias name is
   * everything before the first space and the command line everything after
   * it, later spaces included; a line with no space gives no alias.
   */
  function ParseLine(line: string): (r: Option<Entry>)
    ensures r.None? <==> ' ' !in line
    ensures r.Some? ==> FormatLine(r.value) == line && ' ' !in r.value.name
  {
    match IndexOf(line, ' ')
    case None => None
    case Some(i) =>
      assert line == line[..i] + " " + line[i + 1..];
      Some(Entry(line[..i], line[i + 1..]))
  }

  /** A formatted line parses back to its entry when the name holds no space. */
  lemma ParseFormat(e: Entry)
    requires ' ' !in e.name
    ensures ParseLine(FormatLine(e)) == Some(e)
  {
    var line := FormatLine(e);
    var r := ParseLine(line);
    var a := r.value.name;
    assert forall i | 0 <= i < |e.name| :: line[i] == e.name[i];
    assert forall i | 0 <= i < |a| :: line[i] == a[i];
    assert line[|e.name|] == ' ' && line[|a|] == ' ';
    assert |a| == |e.name|;
    assert a == line[..|a|] == e.name;
    assert r.value.command == line[|a| + 1..] == e.command;
  }

  /** Every key of the table is free of spaces. */
  predicate SpaceFreeKeys(t: Table) {
    forall k | k in t :: ' ' !in k
  }

  /**
   * The load loop of `read_aliases_from_file`: each line holding a space is
   * inserted (overwriting an existing key), and loading stops right after
   * the insert that brings the table to `max` entries or more; lines
   * without a space are skipped.
   */
  function LoadLines(lines: seq<string>, t: Table, max: nat): (r: Table)
    ensures t.Keys <= r.Keys
    ensures |t| < max ==> |r| <= max
    ensures |t| >= max ==> |r| <= |t| + 1
    decreases |lines|
  {
    if |lines| == 0 then t
    else
      match ParseLine(lines[0])
      case None => LoadLines(lines[1..], t, max)
      case Some(e) =>
        var t' := t[e.name := e.command];
        if |t'| >= max then t' else LoadLines(lines[1..], t', max)
  }

  /** Reference loader without a size bound: every line holding a space, in order. */
  function InsertAll(lines: seq<string>, t: Table): Table
    decreases |lines|
  {
    if |lines| == 0 then t
    else
      match ParseLine(lines[0])
      case None => InsertAll(lines[1..], t)
      case Some(e) => InsertAll(lines[1..], t[e.name := e.command])
  }

  lemma {:induction false} InsertAllGrows(lines: seq<string>, t: Table)
    ensures t.Keys <= InsertAll(lines, t).Keys
    decreases |lines|
  {
    if |lines| > 0 {
      match ParseLine(lines[0])
      case None => InsertAllGrows(lines[1..], t);
      case Some(e) => InsertAllGrows(lines[1..], t[e.name := e.command]);
    }
  }

  /**
   * The bound only matters when it is reached: the bounded load agrees
   * with loading every line exactly when the full load stays below `max`,
   * and a bounded result below `max` means no line was dropped.
   */
  lemma {:induction false} LoadBelowBound(lines: seq<string>, t: Table, max: nat)
    ensures |InsertAll(lines, t)| < max ==> LoadLines(lines, t, max) == InsertAll(lines, t)
    ensures |LoadLines(lines, t, max)| < max ==> LoadLines(lines, t, max) == InsertAll(lines, t)
    decreases |lines|
  {
    if |lines| > 0 {
      match ParseLine(lines[0])
      case None => LoadBelowBound(lines[1..], t, max);
      case Some(e) =>
        var t' := t[e.name := e.command];
        InsertAllGrows(lines[1..], t');
        assert |t'| <= |InsertAll(lines[1..], t')| by {
          SubsetSize(t'.Keys, InsertAll(lines[1..], t').Keys);
        }
        LoadBelowBound(lines[1..], t', max);
    }
  }

  lemma SubsetSize<K>(a: set<K>, b: set<K>)
    requires a <= b
    ensures |a| <= |b|
  {
    assert b == a + (b - a);
  }

  /** A line without a space neither adds an alias nor ends the load. */
  lemma {:induction false} SkipLineWithoutSpace(pre: seq<string>, line: string, post: seq<string>, t: Table, max: nat)
    requires ' ' !in line
    ensures LoadLines(pre + [line] + post, t, max) == LoadLines(pre + post, t, max)
    decreases |pre|
  {
    if |pre| == 0 {
      assert pre + [line] + post == [line] + post;
      assert ([line] + post)[1..] == post;
      assert pre + post == post;
    } else {
      assert (pre + [line] + post)[0] == pre[0];
      assert (pre + [line] + post)[1..] == pre[1..] + [line] + post;
      assert (pre + post)[0] == pre[0];
      assert (pre + post)[1..] == pre[1..] + post;
      match ParseLine(pre[0])
      case None => SkipLineWithoutSpace(pre[1..], line, post, t, max);
      case Some(e) => SkipLineWithoutSpace(pre[1..], line, post, t[e.name := e.command], max);
    }
  }

  /**
   * The command line of the last line naming `k`, if any line does: the
   * one a load that reads every line leaves bound to `k`.
   */
  function LastCommand(lines: seq<string>, k: string): (r: Option<string>)
    ensures r.None? <==> forall i | 0 <= i < |lines| :: ParseLine(lines[i]).None? || ParseLine(lines[i]).value.name != k
    ensures r.Some? ==> exists i | 0 <= i < |lines| :: ParseLine(lines[i]) == Some(Entry(k, r.value)) && NoLaterNaming(lines, k, i)
    decreases |lines|
  {
    if |lines| == 0 then None
    else
      var rest := lines[1..];
      assert forall i | 0 <= i < |rest| :: rest[i] == lines[i + 1];
      match LastCommand(rest, k)
      case Some(c) =>
        var i :| 0 <= i < |rest| && ParseLine(rest[i]) == Some(Entry(k, c)) && NoLaterNaming(rest, k, i);
        assert ParseLine(lines[i + 1]) == Some(Entry(k, c)) && NoLaterNaming(lines, k, i + 1);
        Some(c)
      case None =>
        match ParseLine(lines[0])
        case Some(e) =>
          if e.name == k then
            assert NoLaterNaming(lines, k, 0);
            Some(e.command)
          else None
        case None => None
  }

  /** No line after line `i` names `k`. */
  predicate NoLaterNaming(lines: seq<string>, k: string, i: nat) {
    forall j | i < j < |lines| :: ParseLine(lines[j]).None? || ParseLine(lines[j]).value.name != k
  }

  /**
   * Loading every line overwrites: a key named by some line ends bound to
   * the command of the last line naming it; any other key keeps its entry
   * (or stays absent).
   */
  lemma {:induction false} InsertAllLast(lines: seq<string>, t: Table, k: string)
    ensures var r := InsertAll(lines, t);
      && (LastCommand(lines, k).Some? ==> k in r && r[k] == LastCommand(lines, k).value)
      && (LastCommand(lines, k).None? ==> (k in r <==> k in t) && (k in t ==> r[k] == t[k]))
    decreases |lines|
  {
    if |lines| > 0 {
      match ParseLine(lines[0])
      case None => InsertAllLast(lines[1..], t, k);
      case Some(e) => InsertAllLast(lines[1..], t[e.name := e.command], k);
    }
  }

  /**
   * The same for the bounded load while it stays below the bound: a line
   * naming an existing or an earlier-loaded alias replaces its command
   * line, and the last line naming a key wins.
   */
  lemma LoadOverwrites(lines: seq<string>, t: Table, max: nat, k: string)
    requires |LoadLines(lines, t, max)| < max
    ensures var r := LoadLines(lines, t, max);
      && (LastCommand(lines, k).Some? ==> k in r && r[k] == LastCommand(lines, k).value)
      && (LastCommand(lines, k).None? ==> (k in r <==> k in t) && (k in t ==> r[k] == t[k]))
  {
    LoadBelowBound(lines, t, max);
    InsertAllLast(lines, t, k);
  }

  /**
   * A single line naming an alias already in the table replaces its command
   * line, whatever the bound: the table does not grow.
   */
  lemma LoadReplacesExisting(line: string, e: Entry, t: Table, max: nat)
    requires ParseLine(line) == Some(e) && e.name in t
    ensures LoadLines([line], t, max) == t[e.name := e.command]
    ensures |LoadLines([line], t, max)| == |t|
  {
    assert t[e.name := e.command].Keys == t.Keys;
    assert [line][1..] == [];
  }

  /**
   * Line `i` (counting from 1) holds a space and, loading every line up to
   * and including it, brings the table to `max` entries or more: the load
   * loop's `break` fires right after it.
   */
  ghost predicate Reaches(lines: seq<string>, t: Table, max: nat, i: nat) {
    0 < i <= |lines| && ParseLine(lines[i - 1]).Some? && |InsertAll(lines[..i], t)| >= max
  }

  /**
   * The load ends after line `j`: its result is every line up to `j`
   * applied in order, `j` is the first line that reaches the bound, or the
   * last line if none does.
   */
  ghost predicate StopsAt(lines: seq<string>, t: Table, max: nat, j: nat) {
    && j <= |lines|
    && LoadLines(lines, t, max) == InsertAll(lines[..j], t)
    && (j == |lines| || Reaches(lines, t, max, j))
    && forall i | 0 < i < j :: !Reaches(lines, t, max, i)
  }

  /** The table after the first line of `lines` is applied to `t`. */
  function FirstApplied(lines: seq<string>, t: Table): Table
    requires |lines| > 0
  {
    match ParseLine(lines[0])
    case None => t
    case Some(e) => t[e.name := e.command]
  }

  /**
   * Where the load stops, for any lines: right after the first line whose
   * insert reaches the bound, or at the end of the file if none does.
   * Lines after that point are never read, whether they name new, existing
   * or repeated keys.
   */
  lemma {:induction false} LoadStops(lines: seq<string>, t: Table, max: nat)
    ensures exists j :: StopsAt(lines, t, max, j)
    decreases |lines|
  {
    if |lines| == 0 {
      assert lines[..0] == [];
      assert StopsAt(lines, t, max, 0);
    } else {
      var t0 := FirstApplied(lines, t);
      InsertAllShift(lines, t, 1);
      assert lines[1..][..0] == [];
      if ParseLine(lines[0]).Some? && |t0| >= max {
        assert LoadLines(lines, t, max) == t0;
        assert StopsAt(lines, t, max, 1);
      } else {
        LoadStops(lines[1..], t0, max);
        var j' :| StopsAt(lines[1..], t0, max, j');
        StopsShift(lines, t, max, j');
      }
    }
  }

  /** If the first line does not end the load, the rest of the lines decide where it stops. */
  lemma StopsShift(lines: seq<string>, t: Table, max: nat, j': nat)
    requires |lines| > 0
    requires ParseLine(lines[0]).None? || |FirstApplied(lines, t)| < max
    requires StopsAt(lines[1..], FirstApplied(lines, t), max, j')
    ensures StopsAt(lines, t, max, j' + 1)
  {
    var t0 := FirstApplied(lines, t);
    assert LoadLines(lines, t, max) == LoadLines(lines[1..], t0, max);
    InsertAllShift(lines, t, j' + 1);
    InsertAllShift(lines, t, 1);
    assert lines[1..][..0] == [];
    assert !Reaches(lines, t, max, 1);
    if j' + 1 < |lines| { ShiftReaches(lines, t, max, j' + 1); }
    forall i | 0 < i < j' + 1 ensures !Reaches(lines, t, max, i) {
      if i > 1 { ShiftReaches(lines, t, max, i); }
    }
  }

  /** Loading a prefix of `i` lines is the first line, then the next `i - 1` lines. */
  lemma InsertAllShift(lines: seq<string>, t: Table, i: nat)
    requires 0 < i <= |lines|
    ensures InsertAll(lines[..i], t) == InsertAll(lines[1..][..i - 1], FirstApplied(lines, t))
  {
    assert lines[..i][0] == lines[0];
    assert lines[..i][1..] == lines[1..][..i - 1];
  }

  /** Whether line `i > 1` reaches the bound is decided by the rest of the lines, from the table after the first. */
  lemma ShiftReaches(lines: seq<string>, t: Table, max: nat, i: nat)
    requires 1 < i <= |lines|
    ensures Reaches(lines, t, max, i) <==> Reaches(lines[1..], FirstApplied(lines, t), max, i - 1)
  {
    InsertAllShift(lines, t, i);
    assert lines[i - 1] == lines[1..][i - 2];
  }

  /**
   * Once a repeated name has brought the table to the bound, a later line
   * naming that alias again is never read: `a x`, `b y`, `a z` with bound
   * 2 loads `a -> x`, `b -> y`.
   */
  lemma LaterLineNotRead()
    ensures LoadLines(["a x", "b y", "a z"], map[], 2) == map["a" := "x", "b" := "y"]
  {
    ParseFormat(Entry("a", "x"));
    ParseFormat(Entry("b", "y"));
    assert FormatLine(Entry("a", "x")) == "a x" && FormatLine(Entry("b", "y")) == "b y";
    var lines := ["a x", "b y", "a z"];
    assert lines[1..] == ["b y", "a z"];
    var t1 := map["a" := "x"];
    assert LoadLines(lines, map[], 2) == LoadLines(lines[1..], t1, 2);
    var t2 := t1["b" := "y"];
    assert |t2| == 2;
    assert LoadLines(lines[1..], t1, 2) == t2;
  }

  /**
   * A table already at or above the bound still takes the first line that
   * holds a space, new name or existing one, and then the load ends: no
   * later line is read.
   */
  lemma LoadAtBound(line: string, e: Entry, rest: seq<string>, t: Table, max: nat)
    requires ParseLine(line) == Some(e) && |t| >= max
    ensures LoadLines([line] + rest, t, max) == t[e.name := e.command]
  {
    assert ([line] + rest)[0] == line;
    assert |t[e.name := e.command]| >= |t| by {
      SubsetSize(t.Keys, t[e.name := e.command].Keys);
    }
  }

  /** How many of `k` new-key lines a load keeps when the table holds `size` entries. */
  function Kept(k: nat, size: nat, max: nat): nat {
    if k == 0 then 0
    else if max <= size + 1 then 1
    else if k <= max - size then k else max - size
  }

  /** Line `i` defines alias `names[i]` with command line `commands[i]`. */
  predicate Defines(lines: seq<string>, names: seq<string>, commands: seq<string>) {
    && |names| == |lines| && |commands| == |lines|
    && forall i | 0 <= i < |lines| :: ParseLine(lines[i]) == Some(Entry(names[i], commands[i]))
  }

  /** No two entries share a name. */
  predicate Distinct(names: seq<string>) {
    forall i, j | 0 <= i < j < |names| :: names[i] != names[j]
  }

  /**
   * `r` is `t` plus the first `n` of the named entries and none of the
   * others.
   */
  predicate KeepsFirst(r: Table, t: Table, names: seq<string>, commands: seq<string>, n: nat)
    requires |commands| == |names|
  {
    && |r| == |t| + n
    && (forall k | k in t :: k in r && r[k] == t[k])
    && (forall i | 0 <= i < |names| :: names[i] in r <==> i < n)
    && (forall i | 0 <= i < |names| && i < n :: r[names[i]] == commands[i])
  }

  /**
   * Loading lines with pairwise different new names keeps exactly the first
   * `Kept(|lines|, |t|, max)` of them, leaves the existing entries alone and
   * drops the rest.
   */
  lemma {:induction false} LoadDistinct(lines: seq<string>, names: seq<string>, commands: seq<string>, t: Table, max: nat)
    requires Defines(lines, names, commands) && Distinct(names)
    requires forall i | 0 <= i < |names| :: names[i] !in t
    ensures KeepsFirst(LoadLines(lines, t, max), t, names, commands, Kept(|lines|, |t|, max))
    decreases |lines|
  {
    if |lines| > 0 {
      assert ParseLine(lines[0]) == Some(Entry(names[0], commands[0]));
      var t' := t[names[0] := commands[0]];
      assert |t'| == |t| + 1;
      if |t'| >= max {
        assert LoadLines(lines, t, max) == t';
        assert Kept(|lines|, |t|, max) == 1;
        KeepsFirstOne(t, names, commands);
      } else {
        var rest := lines[1..];
        assert LoadLines(lines, t, max) == LoadLines(rest, t', max);
        DistinctTail(lines, names, commands, t);
        LoadDistinct(rest, names[1..], commands[1..], t', max);
        assert Kept(|lines|, |t|, max) == 1 + Kept(|rest|, |t'|, max);
        KeepsFirstStep(LoadLines(rest, t', max), t, names, commands, Kept(|rest|, |t'|, max));
      }
    }
  }

  /** After the first line, the other lines still define distinct names new to the table. */
  lemma DistinctTail(lines: seq<string>, names: seq<string>, commands: seq<string>, t: Table)
    requires |lines| > 0 && Defines(lines, names, commands) && Distinct(names)
    requires forall i | 0 <= i < |names| :: names[i] !in t
    ensures Defines(lines[1..], names[1..], commands[1..]) && Distinct(names[1..])
    ensures forall i | 0 <= i < |names[1..]| :: names[1..][i] !in t[names[0] := commands[0]]
  {
    assert forall i | 0 <= i < |lines[1..]| :: lines[1..][i] == lines[i + 1] && names[1..][i] == names[i + 1];
  }

  lemma KeepsFirstOne(t: Table, names: seq<string>, commands: seq<string>)
    requires |names| > 0 && |commands| == |names| && Distinct(names)
    requires forall i | 0 <= i < |names| :: names[i] !in t
    ensures KeepsFirst(t[names[0] := commands[0]], t, names, commands, 1)
  {
  }

  /** Keeping the first `n` after the head means keeping the first `n + 1`. */
  lemma KeepsFirstStep(r: Table, t: Table, names: seq<string>, commands: seq<string>, n: nat)
    requires |names| > 0 && |commands| == |names| && Distinct(names)
    requires forall i | 0 <= i < |names| :: names[i] !in t
    requires KeepsFirst(r, t[names[0] := commands[0]], names[1..], commands[1..], n)
    ensures KeepsFirst(r, t, names, commands, n + 1)
  {
    var t' := t[names[0] := commands[0]];
    assert |t'| == |t| + 1;
    forall i | 0 <= i < |names| ensures names[i] in r <==> i < n + 1 {
      if i > 0 { assert names[i] == names[1..][i - 1]; }
    }
    forall i | 0 <= i < |names| && i < n + 1 ensures r[names[i]] == commands[i] {
      if i > 0 { assert names[i] == names[1..][i - 1] && commands[i] == commands[1..][i - 1]; }
    }
  }

  /** `order` lists every key of the table exactly once (a `HashMap` iteration order). */
  predicate IsEnumeration(order: seq<string>, keys: set<string>) {
    && (forall i, j | 0 <= i < j < |order| :: order[i] != order[j])
    && (forall k | k in keys :: k in order)
    && (forall i | 0 <= i < |order| :: order[i] in keys)
  }

  lemma {:induction false} EnumerationSize(order: seq<string>, keys: set<string>)
    requires IsEnumeration(order, keys)
    ensures |order| == |keys|
    decreases |order|
  {
    if |order| > 0 {
      var rest := keys - {order[0]};
      forall k ensures k in rest <==> k in order[1..] {
        if k in order[1..] {
          var j :| 0 <= j < |order[1..]| && order[1..][j] == k;
          assert order[j + 1] == k;
        }
        if k in rest {
          var j :| 0 <= j < |order| && order[j] == k;
          assert j != 0;
          assert order[1..][j - 1] == k;
        }
      }
      EnumerationSize(order[1..], rest);
    }
  }

  /** The lines written for the table, one per key, in the given order. */
  function EntryLines(t: Table, order: seq<string>): (lines: seq<string>)
    requires forall i | 0 <= i < |order| :: order[i] in t
    ensures |lines| == |order|
    ensures forall i | 0 <= i < |order| :: lines[i] == FormatLine(Entry(order[i], t[order[i]]))
  {
    if |order| == 0 then []
    else [FormatLine(Entry(order[0], t[order[0]]))] + EntryLines(t, order[1..])
  }

  /**
   * Save then load, line by line: whatever order the table is written in,
   * loading the lines into an empty table with a bound at least the table's
   * size rebuilds the table exactly.
   */
  lemma SaveLoadLines(t: Table, order: seq<string>, max: nat)
    requires IsEnumeration(order, t.Keys)
    requires SpaceFreeKeys(t)
    requires |t| <= max
    ensures LoadLines(EntryLines(t, order), map[], max) == t
  {
    var lines := EntryLines(t, order);
    var commands := CommandsOf(t, order);
    EntryLinesDefine(t, order);
    EnumerationSize(order, t.Keys);
    LoadDistinct(lines, order, commands, map[], max);
    var r := LoadLines(lines, map[], max);
    assert Kept(|lines|, 0, max) == |order|;
    forall k | k in t ensures k in r && r[k] == t[k] {
      var i :| 0 <= i < |order| && order[i] == k;
    }
    SubsetSameSize(t.Keys, r.Keys);
    MapsEqual(r, t);
  }

  lemma MapsEqual<K, V>(a: map<K, V>, b: map<K, V>)
    requires a.Keys == b.Keys
    requires forall k | k in a :: a[k] == b[k]
    ensures a == b
  {
  }

  /** The command lines of the keys in `order`, in that order. */
  function CommandsOf(t: Table, order: seq<string>): (commands: seq<string>)
    requires forall i | 0 <= i < |order| :: order[i] in t
    ensures |commands| == |order|
    ensures forall i | 0 <= i < |order| :: commands[i] == t[order[i]]
  {
    seq(|order|, i requires 0 <= i < |order| => t[order[i]])
  }

  /** The saved lines define the enumerated keys with their command lines. */
  lemma EntryLinesDefine(t: Table, order: seq<string>)
    requires IsEnumeration(order, t.Keys)
    requires SpaceFreeKeys(t)
    ensures Defines(EntryLines(t, order), order, CommandsOf(t, order))
    ensures Distinct(order)
  {
    var lines := EntryLines(t, order);
    var commands := CommandsOf(t, order);
    forall i | 0 <= i < |order| ensures ParseLine(lines[i]) == Some(Entry(order[i], commands[i])) {
      ParseFormat(Entry(order[i], t[order[i]]));
    }
  }

  lemma SubsetSameSize<K>(a: set<K>, b: set<K>)
    requires a <= b && |a| == |b|
    ensures a == b
  {
    assert |b - a| == 0 by {
      assert b == a + (b - a);
    }
  }

  // ---------------------------------------------------------------------
  // Line framing: `writeln!` on the way out, `BufRead::lines` on the way in.

  /**
   * The file text `writeln!` produces for the lines, in order: every line,
   * the last included, is ended by a newline, so the text is empty exactly
   * when there are no lines and otherwise ends in a newline.
   */
  function FileText(lines: seq<string>): (text: string)
    ensures |lines| == 0 <==> |text| == 0
    ensures |lines| > 0 ==> text[|text| - 1] == '\n'
  {
    if |lines| == 0 then [] else lines[0] + "\n" + FileText(lines[1..])
  }

  /** A line `BufRead::lines` gives back unchanged: no newline, no trailing carriage return. */
  predicate FramedLine(line: string) {
    '\n' !in line && (|line| == 0 || line[|line| - 1] != '\r')
  }

  /** Removes one trailing carriage return (`lines` does this after removing `\n`). */
  function StripCarriageReturn(s: string): string {
    if |s| > 0 && s[|s| - 1] == '\r' then s[..|s| - 1] else s
  }

  /**
   * `BufRead::lines`: the text cut at each newline; a line that ended in a
   * newline also loses one carriage return before it; a final piece without
   * a newline is kept as it is, and an empty final piece gives no line.
   */
  function ReadLines(text: string): (lines: seq<string>)
    ensures forall i | 0 <= i < |lines| :: '\n' !in lines[i]
    ensures |text| > 0 && '\n' !in text ==> lines == [text]
    decreases |text|
  {
    if |text| == 0 then []
    else
      match IndexOf(text, '\n')
      case None => [text]
      case Some(i) => [StripCarriageReturn(text[..i])] + ReadLines(text[i + 1..])
  }

  /** Reading back what was written gives the same lines when each line is framed. */
  lemma {:induction false} ReadFileText(lines: seq<string>)
    requires forall i | 0 <= i < |lines| :: FramedLine(lines[i])
    ensures ReadLines(FileText(lines)) == lines
    decreases |lines|
  {
    if |lines| > 0 {
      var l := lines[0];
      assert FramedLine(l);
      ReadLinesCons(l, FileText(lines[1..]));
      ReadFileText(lines[1..]);
      assert lines == [l] + lines[1..];
    }
  }

  /** A line followed by a newline is read as that line, less one trailing carriage return. */
  lemma ReadLinesCons(l: string, rest: string)
    requires '\n' !in l
    ensures ReadLines(l + "\n" + rest) == [StripCarriageReturn(l)] + ReadLines(rest)
  {
    var text := l + "\n" + rest;
    assert text[..|l|] == l;
    IndexOfFirst(text, '\n', |l|);
    assert text[|l| + 1..] == rest;
  }

  /** A single alias line loaded into an empty table with room for it. */
  lemma LoadOne(line: string, e: Entry, max: nat)
    requires ParseLine(line) == Some(e)
    ensures LoadLines([line], map[], max) == map[e.name := e.command]
  {
    var t' := map[][e.name := e.command];
    assert |t'| == 1;
    assert [line][1..] == [];
  }

  /** A line `k ` (name, space, nothing) loads as an alias with an empty command line. */
  lemma BlankCommandLoaded(path: string, files: map<string, string>)
    requires path in files && files[path] == "k \n"
    ensures ReadAliasesFromFile(path, files, map[], 10) == Ok(map["k" := ""])
  {
    ReadLinesCons("k ", []);
    assert "k " + "\n" + [] == "k \n";
    assert StripCarriageReturn("k ") == "k ";
    ParseFormat(Entry("k", ""));
    assert FormatLine(Entry("k", "")) == "k ";
    LoadOne("k ", Entry("k", ""), 10);
  }

  /**
   * The carriage-return condition of `SaveLoadFile` is needed: saving the
   * table `k -> "v\r"` writes `"k v\r\n"`, which reads back as `k -> "v"`.
   */
  lemma CarriageReturnLost(path: string)
    ensures FileText(EntryLines(map["k" := "v\r"], ["k"])) == "k v\r\n"
    ensures ReadAliasesFromFile(path, map[path := "k v\r\n"], map[], 10) == Ok(map["k" := "v"])
  {
    SavedCarriageReturn();
    ReadLinesCons("k v\r", []);
    assert "k v\r" + "\n" + [] == "k v\r\n";
    assert StripCarriageReturn("k v\r") == "k v";
    ParseFormat(Entry("k", "v"));
    assert FormatLine(Entry("k", "v")) == "k v";
    LoadOne("k v", Entry("k", "v"), 10);
  }

  lemma SavedCarriageReturn()
    ensures FileText(EntryLines(map["k" := "v\r"], ["k"])) == "k v\r\n"
  {
    var t := map["k" := "v\r"];
    assert FormatLine(Entry("k", t["k"])) == "k v\r";
    assert EntryLines(t, ["k"]) == ["k v\r"];
    assert FileText(["k v\r"]) == "k v\r" + "\n" + FileText([]);
  }

  /** `IndexOf` finds the first occurrence. */
  lemma IndexOfFirst(s: string, c: char, i: nat)
    requires i < |s| && s[i] == c && c !in s[..i]
    ensures IndexOf(s, c) == Some(i)
  {
    var r := IndexOf(s, c);
    assert forall j | 0 <= j < i :: s[..i][j] == s[j];
    assert forall j | 0 <= j < r.value :: s[..r.value][j] == s[j];
  }

  // ---------------------------------------------------------------------
  // The two file operations.

  datatype IoError = CannotOpen(path: string)

  /**
   * `read_aliases_from_file`: opening fails when no file is at `path`;
   * otherwise the file's lines are loaded onto the table.
   */
  function ReadAliasesFromFile(path: string, files: map<string, string>, t: Table, max: nat): (r: Result<Table, IoError>)
    ensures r.Err? <==> path !in files
    ensures r.Ok? ==> t.Keys <= r.value.Keys
    ensures r.Ok? && |t| < max ==> |r.value| <= max
  {
    if path !in files then Err(CannotOpen(path))
    else Ok(LoadLines(ReadLines(files[path]), t, max))
  }

  /** `text` is what saving `t` writes, for some iteration order of its keys. */
  ghost predicate IsSavedText(t: Table, text: string) {
    exists order :: IsEnumeration(order, t.Keys) && text == FileText(EntryLines(t, order))
  }

  /**
   * `save_aliases_to_file` once the file is created: one `name command`
   * line per alias, in the table's (unspecified) iteration order.
   */
  method SaveAliasesToFile(t: Table) returns (text: string)
    ensures IsSavedText(t, text)
  {
    var rest := t.Keys;
    ghost var order: seq<string> := [];
    text := [];
    while rest != {}
      invariant rest <= t.Keys
      invariant IsEnumeration(order, t.Keys - rest)
      invariant text == FileText(EntryLines(t, order))
      decreases rest
    {
      var k :| k in rest;
      ghost var order' := order + [k];
      SaveStep(t, order, k);
      text := text + FormatLine(Entry(k, t[k])) + "\n";
      order := order';
      rest := rest - {k};
    }
    assert t.Keys - rest == t.Keys;
  }

  /** Writing one more alias appends its line to the text written so far. */
  lemma SaveStep(t: Table, order: seq<string>, k: string)
    requires forall i | 0 <= i < |order| :: order[i] in t
    requires k in t
    ensures FileText(EntryLines(t, order + [k])) == FileText(EntryLines(t, order)) + FormatLine(Entry(k, t[k])) + "\n"
  {
    FileTextSnoc(EntryLines(t, order), FormatLine(Entry(k, t[k])));
    assert EntryLines(t, order + [k]) == EntryLines(t, order) + [FormatLine(Entry(k, t[k]))];
  }

  lemma {:induction false} FileTextSnoc(lines: seq<string>, line: string)
    ensures FileText(lines + [line]) == FileText(lines) + line + "\n"
    decreases |lines|
  {
    var l := lines + [line];
    if |lines| == 0 {
      assert l == [line] && l[1..] == [];
      assert FileText(l) == line + "\n" + FileText([]);
    } else {
      assert l[0] == lines[0] && l[1..] == lines[1..] + [line];
      FileTextSnoc(lines[1..], line);
      var a, b := lines[0] + "\n", FileText(lines[1..]);
      assert FileText(l) == a + (b + line + "\n");
      assert FileText(lines) == a + b;
      assert a + (b + line + "\n") == (a + b) + line + "\n";
    }
  }

  /** A table the shell can hold: keys without space or newline, commands without newline. */
  predicate ValidTable(t: Table) {
    forall k | k in t :: ' ' !in k && '\n' !in k && '\n' !in t[k]
  }

  /** The halves of a parsed line hold no character the line does not. */
  lemma ParsedHalves(line: string, e: Entry, c: char)
    requires ParseLine(line) == Some(e)
    requires c !in line
    ensures c !in e.name && c !in e.command
  {
    assert forall j | 0 <= j < |e.name| :: line[j] == e.name[j];
    assert forall j | 0 <= j < |e.command| :: line[|e.name| + 1 + j] == e.command[j];
  }

  /** Loading lines read from a file keeps the table one the shell can hold. */
  lemma {:induction false} LoadPreservesValid(lines: seq<string>, t: Table, max: nat)
    requires ValidTable(t)
    requires forall i | 0 <= i < |lines| :: '\n' !in lines[i]
    ensures ValidTable(LoadLines(lines, t, max))
    decreases |lines|
  {
    if |lines| > 0 {
      match ParseLine(lines[0])
      case None => LoadPreservesValid(lines[1..], t, max);
      case Some(e) =>
        ParsedHalves(lines[0], e, '\n');
        var t' := t[e.name := e.command];
        assert ValidTable(t');
        LoadPreservesValid(lines[1..], t', max);
    }
  }

  /** No command line ends in a carriage return. */
  predicate NoTrailingCarriageReturn(t: Table) {
    forall k | k in t :: |t[k]| == 0 || t[k][|t[k]| - 1] != '\r'
  }

  /**
   * Save then load through a file: reading back any text the save can
   * write, into an empty table with a bound at least the table's size,
   * gives the table back.
   */
  lemma SaveLoadFile(t: Table, text: string, path: string, files: map<string, string>, max: nat)
    requires ValidTable(t) && NoTrailingCarriageReturn(t)
    requires |t| <= max
    requires IsSavedText(t, text)
    ensures ReadAliasesFromFile(path, files[path := text], map[], max) == Ok(t)
  {
    var order :| IsEnumeration(order, t.Keys) && text == FileText(EntryLines(t, order));
    var lines := EntryLines(t, order);
    forall i | 0 <= i < |lines| ensures FramedLine(lines[i]) {
      FormatFramed(Entry(order[i], t[order[i]]));
    }
    ReadFileText(lines);
    SaveLoadLines(t, order, max);
  }

  /** The line saved for an alias is framed when neither half has a newline and the command has no trailing carriage return. */
  lemma FormatFramed(e: Entry)
    requires '\n' !in e.name && '\n' !in e.command
    requires |e.command| == 0 || e.command[|e.command| - 1] != '\r'
    ensures FramedLine(FormatLine(e))
  {
    var line := FormatLine(e);
    assert forall j | 0 <= j < |e.name| :: line[j] == e.name[j];
    assert forall j | |e.name| < j < |line| :: line[j] == e.command[j - |e.name| - 1];
    if |e.command| > 0 {
      assert line[|line| - 1] == e.command[|e.command| - 1];
    }
  }

}
