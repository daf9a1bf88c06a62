/** The Python `str` operations the diagnostics parsers use, over `seq<char>`:
    `split(sep)`, `split()`, `strip()`, `splitlines()`, substring `in`,
    `sep.join(...)` and `str(n)` for a non-negative integer. */
module Strings {
  import opened Basics

  /** `c.isspace()`: the characters Python's argument-less `split()` and `strip()`
      treat as whitespace. */
  predicate IsSpace(c: char) {
    || c == ' '
    || ('\t' <= c <= '\r')
    || ('\U{1c}' <= c <= '\U{1f}')
    || c == '\U{85}' || c == '\U{a0}' || c == '\U{1680}'
    || ('\U{2000}' <= c <= '\U{200a}')
    || c == '\U{2028}' || c == '\U{2029}' || c == '\U{202f}' || c == '\U{205f}'
    || c == '\U{3000}'
  }

  predicate AllSpace(s: string) {
    forall i :: 0 <= i < |s| ==> IsSpace(s[i])
  }

  predicate NoSpace(s: string) {
    forall i :: 0 <= i < |s| ==> !IsSpace(s[i])
  }

  /** One item of `s.split()`: non-empty and free of whitespace. */
  predicate IsWord(w: string) {
    |w| > 0 && NoSpace(w)
  }

  /** Neither starts nor ends with whitespace. */
  predicate Trimmed(w: string) {
    w == [] || (!IsSpace(w[0]) && !IsSpace(w[|w| - 1]))
  }

  predicate IsSuffix(r: string, s: string) {
    |r| <= |s| && s[|s| - |r|..] == r
  }

  // ---------------------------------------------------------------------------
  // sep.join(parts) and s.split(sep)

  /** `[sep].join(parts)`. */
  function Join(parts: seq<string>, sep: char): string
    decreases |parts|
  {
    if |parts| == 0 then ""
    else if |parts| == 1 then parts[0]
    else parts[0] + [sep] + Join(parts[1..], sep)
  }

  /** Index of the first `c` in `s`. */
  function IndexOf(s: string, c: char): (i: nat)
    requires c in s
    ensures i < |s| && s[i] == c
    ensures forall j :: 0 <= j < i ==> s[j] != c
    decreases |s|
  {
    if s[0] == c then 0
    else
      assert c in s[1..] by { assert s == [s[0]] + s[1..]; }
      1 + IndexOf(s[1..], c)
  }

  /** `s.split(sep)` with a one-character separator: always at least one piece, one
      more than there are separators, and no piece holds the separator. */
  function Split(s: string, sep: char): (parts: seq<string>)
    ensures |parts| == Count(s, sep) + 1
    ensures forall i :: 0 <= i < |parts| ==> sep !in parts[i]
    decreases |s|
  {
    if sep !in s then
      CountPositive(s, sep);
      [s]
    else
      var i := IndexOf(s, sep);
      CountSplitAt(s, i);
      CountPositive(s[..i], sep);
      [s[..i]] + Split(s[i + 1..], sep)
  }

  lemma CountSplitAt(s: string, i: nat)
    requires i < |s|
    ensures Count(s, s[i]) == Count(s[..i], s[i]) + 1 + Count(s[i + 1..], s[i])
  {
    assert s == s[..i] + ([s[i]] + s[i + 1..]);
    CountAppend(s[..i], [s[i]] + s[i + 1..], s[i]);
    assert ([s[i]] + s[i + 1..])[1..] == s[i + 1..];
  }

  /** Joining the pieces of a split gives back the original text. */
  lemma {:induction false} JoinSplit(s: string, sep: char)
    ensures Join(Split(s, sep), sep) == s
    decreases |s|
  {
    if sep in s {
      var i := IndexOf(s, sep);
      JoinSplit(s[i + 1..], sep);
      var rest := Split(s[i + 1..], sep);
      assert Split(s, sep) == [s[..i]] + rest;
      assert ([s[..i]] + rest)[1..] == rest;
      assert s == s[..i] + [sep] + s[i + 1..];
    }
  }

  /** Splitting a join of separator-free pieces gives back the pieces. */
  lemma {:induction false} SplitJoin(parts: seq<string>, sep: char)
    requires |parts| >= 1
    requires forall i :: 0 <= i < |parts| ==> sep !in parts[i]
    ensures Split(Join(parts, sep), sep) == parts
    decreases |parts|
  {
    if |parts| > 1 {
      var p := parts[0];
      var rest := Join(parts[1..], sep);
      var s := Join(parts, sep);
      assert s == p + [sep] + rest;
      assert s[|p|] == sep;
      assert s[..|p|] == p;
      IndexOfAt(s, sep, |p|);
      SplitFirst(s, sep);
      assert s[|p| + 1..] == rest;
      SplitJoin(parts[1..], sep);
      assert parts == [p] + parts[1..];
    }
  }

  /** `s.split(c)[-1]`: the text after the last `c`, or all of `s` when it holds
      none. */
  function AfterLast(s: string, c: char): (r: string)
    ensures c !in r
    ensures IsSuffix(r, s)
    ensures c !in s ==> r == s
    ensures c in s ==> |r| < |s| && s[|s| - |r| - 1] == c
    decreases |s|
  {
    if c !in s then s
    else
      var i := IndexOf(s, c);
      var r := AfterLast(s[i + 1..], c);
      SuffixOfSuffix(r, s[i + 1..], s, i);
      r
  }

  /** The text after the last `c` is the last piece of the split on `c`. */
  lemma AfterLastIsLastPiece(s: string, c: char)
    ensures AfterLast(s, c) == Last(Split(s, c))
  {
    var parts := Split(s, c);
    JoinSplit(s, c);
    if |parts| == 1 {
      assert s == parts[0];
    } else {
      var init := parts[..|parts| - 1];
      JoinLast(parts, c);
      AfterLastOf(Join(init, c), c, Last(parts));
    }
  }

  /** The last piece of a join comes after the last separator. */
  lemma {:induction false} JoinLast(parts: seq<string>, sep: char)
    requires |parts| >= 2
    ensures Join(parts, sep) == Join(parts[..|parts| - 1], sep) + [sep] + Last(parts)
    decreases |parts|
  {
    if |parts| > 2 {
      var tail := parts[1..];
      JoinLast(tail, sep);
      assert tail[..|tail| - 1] == parts[..|parts| - 1][1..];
      assert Last(tail) == Last(parts);
    }
  }

  /** The first `c` is at `k` when `s[k]` is `c` and none comes before it. */
  lemma IndexOfAt(s: string, c: char, k: nat)
    requires k < |s| && s[k] == c
    requires forall j :: 0 <= j < k ==> s[j] != c
    ensures IndexOf(s, c) == k
  {
  }

  /** Splitting at the first separator. */
  lemma SplitFirst(s: string, c: char)
    requires c in s
    ensures Split(s, c) == [s[..IndexOf(s, c)]] + Split(s[IndexOf(s, c) + 1..], c)
  {
  }

  lemma SuffixOfSuffix(r: string, t: string, s: string, i: nat)
    requires i < |s| && t == s[i + 1..]
    requires IsSuffix(r, t)
    requires s[i] !in t ==> r == t
    requires s[i] in t ==> |r| < |t| && t[|t| - |r| - 1] == s[i]
    ensures IsSuffix(r, s) && |r| < |s| && s[|s| - |r| - 1] == s[i]
  {
    var n := |s| - |r|;
    assert n == i + 1 + (|t| - |r|);
    assert s[n..] == t[|t| - |r|..];
    if s[i] in t {
      assert s[n - 1] == t[|t| - |r| - 1];
    }
  }

  /** The text after the last `c` is determined by any split point followed by
      `c`-free text. */
  lemma AfterLastOf(a: string, c: char, b: string)
    requires c !in b
    ensures AfterLast(a + [c] + b, c) == b
  {
    var s := a + [c] + b;
    var r := AfterLast(s, c);
    assert s[|a|] == c;
    if |r| < |b| {
      assert false;
    }
    if |r| > |b| {
      assert false;
    }
    assert r == s[|s| - |b|..] == b;
  }

  // ---------------------------------------------------------------------------
  // s.split() with no argument

  /** Length of the run of non-whitespace characters at the start of `s`. */
  function WordLength(s: string): (n: nat)
    ensures n <= |s| && NoSpace(s[..n])
    ensures n < |s| ==> IsSpace(s[n])
    decreases |s|
  {
    if s == [] || IsSpace(s[0]) then 0 else 1 + WordLength(s[1..])
  }

  /** `s.split()`: the maximal runs of non-whitespace characters, in order; empty
      exactly when `s` is blank. */
  function Tokens(s: string): (ts: seq<string>)
    ensures forall i :: 0 <= i < |ts| ==> IsWord(ts[i])
    ensures ts == [] <==> AllSpace(s)
    decreases |s|
  {
    if s == [] then []
    else if IsSpace(s[0]) then
      assert AllSpace(s) <==> AllSpace(s[1..]) by {
        assert forall i :: 0 < i < |s| ==> s[i] == s[1..][i - 1];
      }
      Tokens(s[1..])
    else
      var n := WordLength(s);
      [s[..n]] + Tokens(s[n..])
  }

  lemma {:induction false} WordLengthOf(w: string, rest: string)
    requires NoSpace(w)
    requires rest == [] || IsSpace(rest[0])
    ensures WordLength(w + rest) == |w|
    decreases |w|
  {
    if w != [] {
      assert (w + rest)[1..] == w[1..] + rest;
      WordLengthOf(w[1..], rest);
    } else {
      assert w + rest == rest;
    }
  }

  lemma TokensWordFirst(s: string)
    requires s != [] && !IsSpace(s[0])
    ensures Tokens(s) == [s[..WordLength(s)]] + Tokens(s[WordLength(s)..])
  {
  }

  lemma TokensSpaceFirst(s: string)
    requires s != [] && IsSpace(s[0])
    ensures Tokens(s) == Tokens(s[1..])
  {
  }

  /** Words laid out with whitespace around and between them: `gaps[0]`, then
      each word followed by the gap after it. `gaps[0]` and the last gap are the
      leading and trailing blanks; the gaps between words are the runs of
      spaces or tabs separating them. */
  function Layout(ws: seq<string>, gaps: seq<string>): string
    requires |gaps| == |ws| + 1
    decreases |ws|
  {
    if ws == [] then gaps[0] else gaps[0] + ws[0] + Layout(ws[1..], gaps[1..])
  }

  /** The layout from word `k` on opens with gap `k` and word `k`. */
  lemma LayoutFrom(ws: seq<string>, gaps: seq<string>, k: nat)
    requires |gaps| == |ws| + 1 && k < |ws|
    ensures Layout(ws[k..], gaps[k..]) == gaps[k] + ws[k] + Layout(ws[k + 1..], gaps[k + 1..])
  {
    assert ws[k..][1..] == ws[k + 1..] && gaps[k..][1..] == gaps[k + 1..];
  }

  /** Every gap is whitespace, and those between two words are not empty. */
  predicate Spacing(ws: seq<string>, gaps: seq<string>) {
    && |gaps| == |ws| + 1
    && (forall i :: 0 <= i < |gaps| ==> AllSpace(gaps[i]))
    && (forall i :: 0 < i < |ws| ==> gaps[i] != [])
  }

  /** Leading whitespace is dropped by `split()`. */
  lemma {:induction false} TokensAfterSpace(pre: string, s: string)
    requires AllSpace(pre)
    ensures Tokens(pre + s) == Tokens(s)
    decreases |pre|
  {
    if pre == [] {
      assert pre + s == s;
    } else {
      TokensSpaceFirst(pre + s);
      assert (pre + s)[1..] == pre[1..] + s;
      TokensAfterSpace(pre[1..], s);
    }
  }

  /** `split()` recovers the words of any layout: whatever whitespace leads,
      trails or separates them, the words come back in order. */
  lemma {:induction false} TokensOfLayout(ws: seq<string>, gaps: seq<string>)
    requires forall i :: 0 <= i < |ws| ==> IsWord(ws[i])
    requires Spacing(ws, gaps)
    ensures Tokens(Layout(ws, gaps)) == ws
    decreases |ws|
  {
    if ws == [] {
      assert Layout(ws, gaps) == gaps[0];
    } else {
      var rest := Layout(ws[1..], gaps[1..]);
      LayoutFirst(ws, gaps);
      TokensAfterSpace(gaps[0], ws[0] + rest);
      TokensOfWord(ws[0], rest);
      SpacingTail(ws, gaps);
      TokensOfLayout(ws[1..], gaps[1..]);
      assert ws == [ws[0]] + ws[1..];
    }
  }

  /** A layout opens with its first gap and first word, and what follows starts
      with whitespace or is empty. */
  lemma LayoutFirst(ws: seq<string>, gaps: seq<string>)
    requires Spacing(ws, gaps) && ws != []
    ensures Layout(ws, gaps) == gaps[0] + (ws[0] + Layout(ws[1..], gaps[1..]))
    ensures var rest := Layout(ws[1..], gaps[1..]); rest == [] || IsSpace(rest[0])
  {
    var rest := Layout(ws[1..], gaps[1..]);
    if |ws| == 1 {
      assert rest == gaps[1];
    } else {
      assert rest == gaps[1] + ws[1] + Layout(ws[2..], gaps[2..]);
      assert rest[0] == gaps[1][0];
    }
  }

  lemma SpacingTail(ws: seq<string>, gaps: seq<string>)
    requires Spacing(ws, gaps) && ws != []
    requires forall i :: 0 <= i < |ws| ==> IsWord(ws[i])
    ensures Spacing(ws[1..], gaps[1..])
    ensures forall i :: 0 <= i < |ws| - 1 ==> IsWord(ws[1..][i])
  {
    forall i | 0 <= i < |gaps| - 1 ensures AllSpace(gaps[1..][i]) {
      assert gaps[1..][i] == gaps[i + 1];
    }
    forall i | 0 < i < |ws| - 1 ensures gaps[1..][i] != [] {
      assert gaps[1..][i] == gaps[i + 1];
    }
    forall i | 0 <= i < |ws| - 1 ensures IsWord(ws[1..][i]) {
      assert ws[1..][i] == ws[i + 1];
    }
  }

  /** A word followed by nothing or by whitespace is the first token. */
  lemma TokensOfWord(w: string, rest: string)
    requires IsWord(w)
    requires rest == [] || IsSpace(rest[0])
    ensures Tokens(w + rest) == [w] + Tokens(rest)
  {
    var s := w + rest;
    WordLengthOf(w, rest);
    assert s[0] == w[0];
    TokensWordFirst(s);
    assert s[..|w|] == w;
    assert s[|w|..] == rest;
  }

  // ---------------------------------------------------------------------------
  // s.strip() with no argument

  /** `s.lstrip()`. */
  function StripStart(s: string): (r: string)
    ensures IsSuffix(r, s) && AllSpace(s[..|s| - |r|])
    ensures r == [] || !IsSpace(r[0])
    decreases |s|
  {
    if s != [] && IsSpace(s[0]) then
      var r := StripStart(s[1..]);
      assert s[..|s| - |r|] == [s[0]] + s[1..][..|s[1..]| - |r|];
      r
    else s
  }

  /** `s.rstrip()`. */
  function StripEnd(s: string): (r: string)
    ensures |r| <= |s| && r == s[..|r|] && AllSpace(s[|r|..])
    ensures r == [] || !IsSpace(r[|r| - 1])
    decreases |s|
  {
    if s != [] && IsSpace(s[|s| - 1]) then
      var r := StripEnd(s[..|s| - 1]);
      assert s[|r|..] == s[..|s| - 1][|r|..] + [s[|s| - 1]];
      r
    else s
  }

  /** `s.strip()`: trimmed, and empty exactly when `s` is blank. */
  function Strip(s: string): (r: string)
    ensures Trimmed(r)
    ensures r == [] <==> AllSpace(s)
    ensures |r| <= |s|
    ensures forall c :: c in r ==> c in s
  {
    var t := StripStart(s);
    assert t == [] <==> AllSpace(s) by {
      if t == [] {
        assert s[..|s|] == s;
      }
    }
    var r := StripEnd(t);
    assert r != [] ==> r[0] == t[0];
    assert forall c :: c in r ==> c in t;
    r
  }

  lemma {:induction false} StripStartPadded(pre: string, t: string)
    requires AllSpace(pre)
    requires t == [] || !IsSpace(t[0])
    ensures StripStart(pre + t) == t
    decreases |pre|
  {
    if pre == [] {
      assert pre + t == t;
    } else {
      assert (pre + t)[1..] == pre[1..] + t;
      StripStartPadded(pre[1..], t);
    }
  }

  lemma {:induction false} StripEndPadded(t: string, post: string)
    requires AllSpace(post)
    requires t == [] || !IsSpace(t[|t| - 1])
    ensures StripEnd(t + post) == t
    decreases |post|
  {
    if post == [] {
      assert t + post == t;
    } else {
      var s := t + post;
      assert s[..|s| - 1] == t + post[..|post| - 1];
      StripEndPadded(t, post[..|post| - 1]);
    }
  }

  /** Stripping removes exactly the surrounding whitespace: whatever blank padding
      surrounds a trimmed text, `strip()` returns that text. */
  lemma StripPadded(pre: string, w: string, post: string)
    requires AllSpace(pre) && AllSpace(post) && Trimmed(w)
    ensures Strip(pre + w + post) == w
  {
    if w == [] {
      assert pre + w + post == pre + post;
      assert AllSpace(pre + post) by {
        assert forall i :: |pre| <= i < |pre + post| ==> (pre + post)[i] == post[i - |pre|];
      }
    } else {
      assert pre + w + post == pre + (w + post);
      StripStartPadded(pre, w + post);
      StripEndPadded(w, post);
    }
  }

  // ---------------------------------------------------------------------------
  // s.splitlines()

  /** The line boundaries of `str.splitlines()`; a "\r\n" pair counts as one. */
  predicate IsLineBreak(c: char) {
    || c == '\n' || c == '\r' || c == '\U{b}' || c == '\U{c}'
    || c == '\U{1c}' || c == '\U{1d}' || c == '\U{1e}'
    || c == '\U{85}' || c == '\U{2028}' || c == '\U{2029}'
  }

  predicate NoLineBreak(s: string) {
    forall i :: 0 <= i < |s| ==> !IsLineBreak(s[i])
  }

  /** Length of the text before the first line boundary of `s`. */
  function LineLength(s: string): (n: nat)
    ensures n <= |s| && NoLineBreak(s[..n])
    ensures n < |s| ==> IsLineBreak(s[n])
    decreases |s|
  {
    if s == [] || IsLineBreak(s[0]) then 0 else 1 + LineLength(s[1..])
  }

  /** `s.splitlines()`: the lines without their terminators; a final terminator
      does not start an empty line, and an empty text has no lines. */
  function SplitLines(s: string): (lines: seq<string>)
    ensures forall i :: 0 <= i < |lines| ==> NoLineBreak(lines[i])
    ensures lines == [] <==> s == []
    ensures |lines| <= |s|
    decreases |s|
  {
    if s == [] then []
    else
      var n := LineLength(s);
      if n == |s| then [s]
      else
        var next := if s[n] == '\r' && n + 1 < |s| && s[n + 1] == '\n' then n + 2 else n + 1;
        [s[..n]] + SplitLines(s[next..])
  }

  /** Joining break-free lines with "\n" and splitting them again gives the lines
      back, provided the last one is not empty (a trailing "\n" starts no line). */
  lemma {:induction false} SplitLinesOfJoin(lines: seq<string>)
    requires forall i :: 0 <= i < |lines| ==> NoLineBreak(lines[i])
    requires lines != [] ==> Last(lines) != []
    ensures SplitLines(Join(lines, '\n')) == lines
    decreases |lines|
  {
    if |lines| == 1 {
      LineLengthOf(lines[0], []);
      assert lines[0] + [] == lines[0];
    } else if |lines| > 1 {
      var l := lines[0];
      var tail := Join(lines[1..], '\n');
      var s := Join(lines, '\n');
      assert s == l + (['\n'] + tail);
      LineLengthOf(l, ['\n'] + tail);
      assert s[|l|] == '\n';
      SplitLinesAtNewline(s);
      assert s[..|l|] == l;
      assert s[|l| + 1..] == tail;
      SplitLinesOfJoin(lines[1..]);
      assert tail != [] by {
        JoinNonEmpty(lines[1..], '\n');
      }
      assert lines == [l] + lines[1..];
    }
  }

  /** A line terminator `splitlines()` recognises: "\r\n", or one boundary
      character. */
  predicate IsTerminator(t: string) {
    t == "\r\n" || (|t| == 1 && IsLineBreak(t[0]))
  }

  /** Lines each followed by its own terminator. */
  function Terminated(lines: seq<string>, terms: seq<string>): string
    requires |terms| == |lines|
    decreases |lines|
  {
    if lines == [] then [] else lines[0] + terms[0] + Terminated(lines[1..], terms[1..])
  }

  /** Lines free of boundaries, each ended by a terminator, then an unterminated
      final piece `tail`; a lone "\r" is never followed at once by an empty line
      ended by "\n", since that pair would read as one "\r\n". */
  ghost predicate LineLayout(lines: seq<string>, terms: seq<string>, tail: string) {
    && |terms| == |lines|
    && (forall i :: 0 <= i < |lines| ==> NoLineBreak(lines[i]) && IsTerminator(terms[i]))
    && NoLineBreak(tail)
    && (forall i :: 0 <= i < |lines| - 1 && terms[i] == "\r" && lines[i + 1] == [] ==> terms[i + 1] != "\n")
  }

  /** `splitlines()` recovers the lines of any text made of terminated lines and
      an optional unterminated last line, whatever mix of terminators it uses: a
      final terminator starts no empty line. */
  lemma {:induction false} SplitLinesOfLayout(lines: seq<string>, terms: seq<string>, tail: string)
    requires LineLayout(lines, terms, tail)
    ensures SplitLines(Terminated(lines, terms) + tail) == lines + (if tail == [] then [] else [tail])
    decreases |lines|
  {
    var extra: seq<string> := if tail == [] then [] else [tail];
    if lines == [] {
      assert Terminated(lines, terms) + tail == tail;
      SplitLinesOneLine(tail);
    } else {
      LineLayoutTail(lines, terms, tail);
      SplitLinesOfLayout(lines[1..], terms[1..], tail);
      SplitLinesLayoutStep(lines, terms, tail, extra);
    }
  }

  /** The first terminated line comes first, then the lines after it. */
  lemma {:induction false} SplitLinesLayoutStep(lines: seq<string>, terms: seq<string>, tail: string, extra: seq<string>)
    requires |terms| == |lines| && lines != []
    requires NoLineBreak(lines[0]) && IsTerminator(terms[0])
    requires var r := Terminated(lines[1..], terms[1..]) + tail;
             terms[0] == "\r" ==> r == [] || r[0] != '\n'
    requires SplitLines(Terminated(lines[1..], terms[1..]) + tail) == lines[1..] + extra
    ensures SplitLines(Terminated(lines, terms) + tail) == lines + extra
  {
    var r := Terminated(lines[1..], terms[1..]) + tail;
    var s := Terminated(lines, terms) + tail;
    TerminatedFirst(lines, terms, tail);
    SplitLinesAfter(lines[0], terms[0], r);
    SplitLinesEqual(s, lines[0] + terms[0] + r);
    ConsRest(lines, extra);
  }

  /** A non-empty sequence is its head followed by its rest, whatever follows it. */
  lemma ConsRest<T>(xs: seq<T>, ys: seq<T>)
    requires xs != []
    ensures [xs[0]] + (xs[1..] + ys) == xs + ys
  {
  }

  /**
   * Equal texts split alike. Stated as a lemma so that the step above uses the
   * equation as given: asserted inline, it leads the solver to unfold
   * `SplitLines` on both sides, which costs far more.
   */
  lemma SplitLinesEqual(s: string, u: string)
    requires s == u
    ensures SplitLines(s) == SplitLines(u)
  {
  }

  /** A text with no line boundary is one line, or none when it is empty. */
  lemma SplitLinesOneLine(l: string)
    requires NoLineBreak(l)
    ensures SplitLines(l) == if l == [] then [] else [l]
  {
    if l != [] {
      LineLengthOf(l, []);
      assert l + [] == l;
    }
  }


  lemma TerminatedFirst(lines: seq<string>, terms: seq<string>, tail: string)
    requires |terms| == |lines| && lines != []
    ensures Terminated(lines, terms) + tail
         == lines[0] + terms[0] + (Terminated(lines[1..], terms[1..]) + tail)
  {
  }

  /** What follows the first terminated line is again a layout, and it does not
      start with a "\n" that a lone "\r" would swallow. */
  lemma LineLayoutTail(lines: seq<string>, terms: seq<string>, tail: string)
    requires LineLayout(lines, terms, tail) && lines != []
    ensures LineLayout(lines[1..], terms[1..], tail)
    ensures var r := Terminated(lines[1..], terms[1..]) + tail;
            terms[0] == "\r" ==> r == [] || r[0] != '\n'
  {
    forall i | 0 <= i < |lines| - 1
      ensures NoLineBreak(lines[1..][i]) && IsTerminator(terms[1..][i])
    {
      assert lines[1..][i] == lines[i + 1] && terms[1..][i] == terms[i + 1];
    }
    forall i | 0 <= i < |lines| - 2 && terms[1..][i] == "\r" && lines[1..][i + 1] == []
      ensures terms[1..][i + 1] != "\n"
    {
      assert terms[1..][i] == terms[i + 1] && lines[1..][i + 1] == lines[i + 2];
    }
    var r := Terminated(lines[1..], terms[1..]) + tail;
    if |lines| == 1 {
      assert r == tail;
    } else {
      assert r == lines[1] + terms[1] + (Terminated(lines[2..], terms[2..]) + tail);
      if lines[1] == [] {
        assert r[0] == terms[1][0];
      } else {
        assert r[0] == lines[1][0];
      }
    }
  }

  /** A line ended by a terminator is the first line. */
  lemma SplitLinesAfter(l: string, t: string, r: string)
    requires NoLineBreak(l) && IsTerminator(t)
    requires t == "\r" ==> r == [] || r[0] != '\n'
    ensures SplitLines(l + t + r) == [l] + SplitLines(r)
  {
    var s := l + t + r;
    var n := |l|;
    LineLengthOf(l, t + r);
    assert s == l + (t + r);
    assert s[..n] == l;
    assert s[n] == t[0];
    if t == "\r\n" {
      assert s[n + 1] == '\n';
      assert s[n + 2..] == r;
    } else {
      assert s[n + 1..] == r;
      if t == "\r" && n + 1 < |s| {
        assert s[n + 1] == r[0];
      }
    }
  }

  /** A final "\n" starts no empty line. */
  lemma SplitLinesTrailingNewline(l: string)
    requires NoLineBreak(l)
    ensures SplitLines(l + "\n") == [l]
  {
    SplitLinesAfter(l, "\n", []);
    assert l + "\n" + [] == l + "\n";
  }

  lemma SplitLinesAtNewline(s: string)
    requires LineLength(s) < |s| && s[LineLength(s)] == '\n'
    ensures SplitLines(s) == [s[..LineLength(s)]] + SplitLines(s[LineLength(s) + 1..])
  {
  }

  lemma {:induction false} LineLengthOf(l: string, rest: string)
    requires NoLineBreak(l)
    requires rest == [] || IsLineBreak(rest[0])
    ensures LineLength(l + rest) == |l|
    decreases |l|
  {
    if l != [] {
      assert (l + rest)[1..] == l[1..] + rest;
      LineLengthOf(l[1..], rest);
    } else {
      assert l + rest == rest;
    }
  }

  lemma {:induction false} JoinNonEmpty(parts: seq<string>, sep: char)
    requires parts != [] && Last(parts) != []
    ensures Join(parts, sep) != []
    decreases |parts|
  {
    if |parts| > 1 {
      assert Join(parts, sep)[|parts[0]|] == sep;
    }
  }

  // ---------------------------------------------------------------------------
  // t in s

  /** Python's substring test `t in s`. */
  predicate Contains(s: string, t: string)
    decreases |s|
  {
    t <= s || (s != [] && Contains(s[1..], t))
  }

  /** A text contains every part placed inside it. */
  lemma {:induction false} ContainsInfix(a: string, t: string, b: string)
    ensures Contains(a + t + b, t)
    decreases |a|
  {
    if a == [] {
      assert a + t + b == t + b;
      assert t <= t + b;
    } else {
      assert (a + t + b)[1..] == a[1..] + t + b;
      ContainsInfix(a[1..], t, b);
    }
  }

  /** Conversely, a text that contains `t` holds it at some position. */
  lemma {:induction false} ContainsAt(s: string, t: string) returns (k: nat)
    requires Contains(s, t)
    ensures OccursAt(s, t, k)
    decreases |s|
  {
    if t <= s {
      k := 0;
    } else {
      var k' := ContainsAt(s[1..], t);
      k := k' + 1;
      assert s[k..k + |t|] == s[1..][k'..k' + |t|];
    }
  }

  /** `t` sits in `s` starting at position `k`. */
  predicate OccursAt(s: string, t: string, k: nat) {
    k + |t| <= |s| && s[k..k + |t|] == t
  }

  /** `t in s` holds exactly when `t` sits somewhere inside `s`. */
  lemma ContainsIff(s: string, t: string)
    ensures Contains(s, t) <==> exists k: nat :: OccursAt(s, t, k)
  {
    if Contains(s, t) {
      var k := ContainsAt(s, t);
      assert OccursAt(s, t, k);
    }
    if k: nat :| OccursAt(s, t, k) {
      ContainsInfix(s[..k], t, s[k + |t|..]);
      assert s == s[..k] + t + s[k + |t|..];
    }
  }

  // ---------------------------------------------------------------------------
  // str(n) for n >= 0

  predicate IsDigit(c: char) {
    '0' <= c <= '9'
  }

  predicate AllDigits(s: string) {
    forall i :: 0 <= i < |s| ==> IsDigit(s[i])
  }

  function DigitChar(d: nat): (c: char)
    requires d < 10
    ensures IsDigit(c)
  {
    (48 + d) as char
  }

  function DigitValue(c: char): nat
    requires IsDigit(c)
  {
    (c as int - 48) as nat
  }

  /** `str(n)`: decimal digits without leading zeros. */
  function Decimal(n: nat): (s: string)
    ensures |s| >= 1 && AllDigits(s)
    ensures |s| > 1 ==> s[0] != '0'
  {
    if n < 10 then [DigitChar(n)]
    else
      var s := Decimal(n / 10) + [DigitChar(n % 10)];
      assert s[0] == Decimal(n / 10)[0];
      s
  }

  /** `int(s)` on a run of decimal digits. */
  function ParseDecimal(s: string): nat
    requires AllDigits(s)
    decreases |s|
  {
    if s == [] then 0 else 10 * ParseDecimal(s[..|s| - 1]) + DigitValue(s[|s| - 1])
  }

  /** Reading back the digits `str(n)` writes gives `n`. */
  lemma {:induction false} DecimalRoundTrip(n: nat)
    ensures ParseDecimal(Decimal(n)) == n
  {
    if n >= 10 {
      var s := Decimal(n);
      assert s[..|s| - 1] == Decimal(n / 10);
      DecimalRoundTrip(n / 10);
    }
  }
}
