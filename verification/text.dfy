/**
 * The string primitives the shell relies on: Rust's `char::is_whitespace`,
 * `str::split_whitespace`, `[&str]::join(" ")` and the search for the first
 * occurrence of a character (used by `splitn(2, ' ')` and by line reading).
 */
module Text {
  import opened Options

  /**
   * Rust's `char::is_whitespace`: the Unicode White_Space property. Among
   * ASCII characters these are tab, line feed, vertical tab, form feed,
   * carriage return and space (vertical tab included, unlike
   * `is_ascii_whitespace`); none lies above U+3000.
   */
  predicate IsWhitespace(c: char): (b: bool)
    ensures c < '\U{0080}' ==> (b <==> c == '\t' || c == '\n' || c == '\U{000B}' || c == '\U{000C}' || c == '\r' || c == ' ')
    ensures b ==> c <= '\U{3000}'
  {
    || ('\t' <= c <= '\r')              // tab, line feed, vertical tab, form feed, carriage return
    || c == ' '
    || c == '\U{0085}' || c == '\U{00A0}' || c == '\U{1680}'
    || ('\U{2000}' <= c <= '\U{200A}')
    || c == '\U{2028}' || c == '\U{2029}' || c == '\U{202F}' || c == '\U{205F}'
    || c == '\U{3000}'
  }

  /** A token as `split_whitespace` yields it: non-empty, no whitespace inside. */
  predicate IsWord(w: string) {
    |w| > 0 && forall i | 0 <= i < |w| :: !IsWhitespace(w[i])
  }

  predicate AllWords(ws: seq<string>) {
    forall i | 0 <= i < |ws| :: IsWord(ws[i])
  }

  predicate AllWhitespace(s: string) {
    forall i | 0 <= i < |s| :: IsWhitespace(s[i])
  }

  /** The characters of `s` that are not whitespace, in order. */
  function NonWhitespace(s: string): string {
    if |s| == 0 then []
    else if IsWhitespace(s[0]) then NonWhitespace(s[1..])
    else [s[0]] + NonWhitespace(s[1..])
  }

  /** All tokens glued together, with nothing between them. */
  function Concat(ws: seq<string>): string {
    if |ws| == 0 then [] else ws[0] + Concat(ws[1..])
  }

  /** Length of the longest prefix of `s` holding no whitespace. */
  function WordLength(s: string): (n: nat)
    ensures n <= |s|
    ensures forall i | 0 <= i < n :: !IsWhitespace(s[i])
    ensures n < |s| ==> IsWhitespace(s[n])
  {
    if |s| == 0 || IsWhitespace(s[0]) then 0 else 1 + WordLength(s[1..])
  }

  /**
   * Rust's `str::split_whitespace`: the maximal runs of non-whitespace
   * characters of `s`, left to right.
   */
  function SplitWhitespace(s: string): (ws: seq<string>)
    ensures AllWords(ws)
    ensures Concat(ws) == NonWhitespace(s)
    decreases |s|
  {
    if |s| == 0 then []
    else if IsWhitespace(s[0]) then SplitWhitespace(s[1..])
    else
      var n := WordLength(s);
      NonWhitespaceOfWord(s[..n], s[n..]);
      assert s[..n] + s[n..] == s;
      [s[..n]] + SplitWhitespace(s[n..])
  }

  /**
   * Every whitespace character of `s` is a single space between two
   * non-whitespace characters: no leading, trailing or doubled separator,
   * and no separator other than `' '`.
   */
  ghost predicate SingleSpaced(s: string) {
    && (forall i | 0 <= i < |s| && IsWhitespace(s[i]) :: s[i] == ' ' && 0 < i < |s| - 1)
    && (forall i, j | 0 <= i && j == i + 1 && j < |s| :: !IsWhitespace(s[i]) || !IsWhitespace(s[j]))
  }

  /**
   * Rust's `join(" ")` on a slice of string slices. A non-empty join of
   * words begins and ends with a word character; `JoinSingleSpaced` shows
   * that exactly one space separates neighbouring words.
   */
  function JoinSpace(ws: seq<string>): (s: string)
    ensures AllWords(ws) && |ws| > 0 ==> |s| > 0 && !IsWhitespace(s[0]) && !IsWhitespace(s[|s| - 1])
  {
    if |ws| == 0 then []
    else if |ws| == 1 then ws[0]
    else
      assert AllWords(ws) ==> AllWords(ws[1..]) by {
        assert forall i | 0 <= i < |ws[1..]| :: ws[1..][i] == ws[i + 1];
      }
      ws[0] + " " + JoinSpace(ws[1..])
  }

  /** Joining words with `join(" ")` puts exactly one space between neighbours and nowhere else. */
  lemma {:induction false} JoinSingleSpaced(ws: seq<string>)
    requires AllWords(ws)
    ensures SingleSpaced(JoinSpace(ws))
    decreases |ws|
  {
    if |ws| >= 2 {
      assert AllWords(ws[1..]) by {
        assert forall i | 0 <= i < |ws[1..]| :: ws[1..][i] == ws[i + 1];
      }
      JoinSingleSpaced(ws[1..]);
      JoinStep(ws[0], JoinSpace(ws[1..]));
    }
  }

  /** A word, one space and a single-spaced text that starts and ends with a word character form a single-spaced text. */
  lemma JoinStep(w: string, tail: string)
    requires IsWord(w) && SingleSpaced(tail)
    requires |tail| > 0 && !IsWhitespace(tail[0]) && !IsWhitespace(tail[|tail| - 1])
    ensures SingleSpaced(w + " " + tail)
  {
    var s := w + " " + tail;
    assert forall i | 0 <= i < |w| :: s[i] == w[i];
    assert s[|w|] == ' ';
    assert forall j | 0 <= j < |tail| :: s[|w| + 1 + j] == tail[j];
    forall i, j | 0 <= i && j == i + 1 && j < |s| ensures !IsWhitespace(s[i]) || !IsWhitespace(s[j]) {
      if i > |w| {
        assert s[i] == tail[i - |w| - 1] && s[j] == tail[j - |w| - 1];
      }
    }
  }

  /** The first index at which `c` occurs in `s`, if any. */
  function IndexOf(s: string, c: char): (r: Option<nat>)
    ensures r.None? <==> c !in s
    ensures r.Some? ==> r.value < |s| && s[r.value] == c && c !in s[..r.value]
  {
    if |s| == 0 then None
    else if s[0] == c then Some(0)
    else
      match IndexOf(s[1..], c)
      case None => None
      case Some(i) =>
        assert s[1..][..i] == s[1..i + 1];
        Some(i + 1)
  }

  /** Dropping the whitespace of a word followed by more text keeps the word whole. */
  lemma {:induction false} NonWhitespaceOfWord(w: string, rest: string)
    requires forall i | 0 <= i < |w| :: !IsWhitespace(w[i])
    ensures NonWhitespace(w + rest) == w + NonWhitespace(rest)
    decreases |w|
  {
    if |w| > 0 {
      assert (w + rest)[1..] == w[1..] + rest;
      NonWhitespaceOfWord(w[1..], rest);
      assert w == [w[0]] + w[1..];
    } else {
      assert w + rest == rest;
    }
  }

  /** A word followed by whitespace (or by nothing) is split off as one token. */
  lemma SplitAfterWord(w: string, rest: string)
    requires IsWord(w)
    requires |rest| == 0 || IsWhitespace(rest[0])
    ensures SplitWhitespace(w + rest) == [w] + SplitWhitespace(rest)
  {
    var s := w + rest;
    var n := WordLength(s);
    assert forall i | 0 <= i < |w| :: s[i] == w[i];
    assert |w| < |s| ==> s[|w|] == rest[0];
    assert n == |w|;
    assert s[..n] == w;
    assert s[n..] == rest;
  }

  /** Splitting what `JoinSpace` built gives the words back. */
  lemma {:induction false} SplitJoin(ws: seq<string>)
    requires AllWords(ws)
    ensures SplitWhitespace(JoinSpace(ws)) == ws
    decreases |ws|
  {
    if |ws| == 0 {
    } else if |ws| == 1 {
      SplitAfterWord(ws[0], []);
      assert ws[0] + [] == ws[0];
    } else {
      assert AllWords(ws[1..]) by {
        assert forall i | 0 <= i < |ws[1..]| :: ws[1..][i] == ws[i + 1];
      }
      SplitJoin(ws[1..]);
      JoinCons(ws);
      SplitJoinStep(ws[0], JoinSpace(ws[1..]), ws[1..]);
      assert ws == [ws[0]] + ws[1..];
    }
  }

  /** A word, a space and a text that splits into `rest` split into the word followed by `rest`. */
  lemma SplitJoinStep(w: string, tail: string, rest: seq<string>)
    requires IsWord(w) && SplitWhitespace(tail) == rest
    ensures SplitWhitespace(w + (" " + tail)) == [w] + rest
  {
    SplitAfterWord(w, " " + tail);
    SplitAfterSpace(tail);
  }

  lemma JoinCons(ws: seq<string>)
    requires |ws| >= 2
    ensures JoinSpace(ws) == ws[0] + (" " + JoinSpace(ws[1..]))
  {
    var tail := JoinSpace(ws[1..]);
    assert JoinSpace(ws) == ws[0] + " " + tail;
    SeqAssoc(ws[0], " ", tail);
  }

  lemma SeqAssoc(a: string, b: string, c: string)
    ensures a + b + c == a + (b + c)
  {
  }

  /** A leading space gives no token. */
  lemma SplitAfterSpace(s: string)
    ensures SplitWhitespace(" " + s) == SplitWhitespace(s)
  {
    assert (" " + s)[1..] == s;
  }

  /** `split_whitespace` yields nothing exactly when the text is all whitespace. */
  lemma {:induction false} SplitEmptyIff(s: string)
    ensures SplitWhitespace(s) == [] <==> AllWhitespace(s)
    decreases |s|
  {
    if |s| > 0 {
      if IsWhitespace(s[0]) {
        SplitEmptyIff(s[1..]);
        if AllWhitespace(s[1..]) {
          forall i | 0 <= i < |s| ensures IsWhitespace(s[i]) {
            if i > 0 { assert s[i] == s[1..][i - 1]; }
          }
        }
      }
    }
  }
}
