/** The pure parts of src/runSf.ts: `cleanCliOutput`, which tidies what the
    Salesforce CLI prints, and the command and argument list built from the
    configured command line (lines 33-37). Spawning the process and
    collecting its output are not modelled. */
module RunSf {
  import opened Text

  const Esc: char := '\U{1B}'

  // ---------------------------------------------------------------------
  // Control sequences: `/\x1B\[[0-9;]*[A-Za-z]/g`

  predicate IsParam(c: char)
  {
    '0' <= c <= '9' || c == ';'
  }

  predicate IsAsciiLetter(c: char)
  {
    'A' <= c <= 'Z' || 'a' <= c <= 'z'
  }

  /** A whole control sequence: ESC, `[`, parameter characters, a letter. */
  predicate IsEscape(e: string)
  {
    |e| >= 3 && e[0] == Esc && e[1] == '[' && IsAsciiLetter(e[|e| - 1])
    && forall k :: 2 <= k < |e| - 1 ==> IsParam(e[k])
  }

  /** What the greedy `[0-9;]*` consumes at the start of `s`. */
  function ParamRun(s: string): (n: nat)
    ensures n <= |s|
    ensures forall k :: 0 <= k < n ==> IsParam(s[k])
    ensures n == |s| || !IsParam(s[n])
  {
    if |s| > 0 && IsParam(s[0]) then 1 + ParamRun(s[1..]) else 0
  }

  /** The pattern tried at the start of `s`: the length of the match, if
      any. A letter is no parameter character, so backtracking into the run
      never helps: the letter must follow the whole run. */
  function EscapeAt(s: string): (n: Option<nat>)
    ensures n.Some? ==> n.value <= |s| && IsEscape(s[..n.value])
  {
    if |s| >= 2 && s[0] == Esc && s[1] == '[' then
      var j := 2 + ParamRun(s[2..]);
      if j < |s| && IsAsciiLetter(s[j]) then
        assert forall k :: 2 <= k < j ==> s[k] == s[2..][k - 2];
        Some(j + 1)
      else None
    else None
  }

  /** Line 7: the matches of a left-to-right scan deleted, every other
      character kept. */
  function StripAnsi(s: string): (r: string)
    ensures |r| <= |s|
    decreases |s|
  {
    if |s| == 0 then ""
    else match EscapeAt(s)
      case Some(n) => StripAnsi(s[n..])
      case None => [s[0]] + StripAnsi(s[1..])
  }

  lemma {:induction false} ParamRunIs(s: string, n: nat)
    requires n <= |s|
    requires forall k :: 0 <= k < n ==> IsParam(s[k])
    requires n == |s| || !IsParam(s[n])
    ensures ParamRun(s) == n
  {
    if n > 0 {
      ParamRunIs(s[1..], n - 1);
    }
  }

  /** The pattern matches at the start of `s` exactly the control sequence
      `s` starts with. */
  lemma EscapeAtIs(e: string, rest: string)
    requires IsEscape(e)
    ensures EscapeAt(e + rest) == Some(|e|)
  {
    var s := e + rest;
    ParamRunIs(s[2..], |e| - 3);
  }

  /** Line 7: a control sequence at the front is deleted. */
  lemma StripAnsiEscape(e: string, rest: string)
    requires IsEscape(e)
    ensures StripAnsi(e + rest) == StripAnsi(rest)
  {
    EscapeAtIs(e, rest);
    assert (e + rest)[|e|..] == rest;
  }

  /** Line 7: text without ESC is copied as it is. */
  lemma {:induction false} StripAnsiPlainPrefix(a: string, b: string)
    requires Esc !in a
    ensures StripAnsi(a + b) == a + StripAnsi(b)
  {
    if |a| > 0 {
      var s := a + b;
      var tail := a[1..];
      assert s[0] != Esc by {
        assert a[0] in a;
      }
      assert Esc !in tail by {
        assert forall c :: c in tail ==> c in a;
      }
      assert s[1..] == tail + b;
      StripAnsiPlainPrefix(tail, b);
      assert StripAnsi(s) == [a[0]] + (tail + StripAnsi(b));
      assert [a[0]] + (tail + StripAnsi(b)) == a + StripAnsi(b);
    } else {
      assert a + b == b;
    }
  }

  /** Some prefix of `s` is a whole control sequence. */
  predicate BeginsEscape(s: string)
  {
    exists n :: 0 <= n <= |s| && EscapeOfLength(s, n)
  }

  /** The first `n` characters of `s` are a whole control sequence. */
  predicate EscapeOfLength(s: string, n: int)
  {
    0 <= n <= |s| && IsEscape(s[..n])
  }

  /** Line 7: an ESC that begins no whole control sequence is kept. */
  lemma {:induction false} StripAnsiLoneEsc(rest: string)
    requires !BeginsEscape([Esc] + rest)
    ensures StripAnsi([Esc] + rest) == [Esc] + StripAnsi(rest)
  {
    var s := [Esc] + rest;
    EscapeAtBegins(s);
    assert s[1..] == rest;
  }

  /** The pattern matches at the front only where a control sequence begins. */
  lemma {:induction false} EscapeAtBegins(s: string)
    ensures EscapeAt(s).Some? ==> BeginsEscape(s)
  {
    if EscapeAt(s).Some? {
      assert EscapeOfLength(s, EscapeAt(s).value);
    }
  }

  /** Line 7: text without ESC is left as it is. */
  lemma {:induction false} StripAnsiPlain(a: string)
    requires Esc !in a
    ensures StripAnsi(a) == a
  {
    StripAnsiPlainPrefix(a, "");
    assert a + "" == a;
  }

  /** Line 7: text without ESC is copied, and the control sequence after it
      deleted. */
  lemma {:induction false} StripAnsiPlainEscape(a: string, e: string, rest: string)
    requires Esc !in a && IsEscape(e)
    ensures StripAnsi(a + (e + rest)) == a + StripAnsi(rest)
  {
    StripAnsiPlainPrefix(a, e + rest);
    StripAnsiEscape(e, rest);
  }

  /** Line 7: text without ESC is copied, and so is the lone ESC after it. */
  lemma {:induction false} StripAnsiPlainLoneEsc(a: string, rest: string)
    requires Esc !in a && !BeginsEscape([Esc] + rest)
    ensures StripAnsi(a + ([Esc] + rest)) == a + ([Esc] + StripAnsi(rest))
  {
    StripAnsiPlainPrefix(a, [Esc] + rest);
    StripAnsiLoneEsc(rest);
  }

  /** Line 7, case by case: text before the first ESC is copied; a control
      sequence there is deleted; an ESC that begins no control sequence is
      kept. Every text is ESC-free or has this shape, so these determine the
      result for every input. */
  lemma {:induction false} StripAnsiSpec(a: string, e: string, rest: string)
    requires Esc !in a
    ensures StripAnsi(a) == a
    ensures IsEscape(e) ==> StripAnsi(a + (e + rest)) == a + StripAnsi(rest)
    ensures !BeginsEscape([Esc] + rest) ==> StripAnsi(a + ([Esc] + rest)) == a + ([Esc] + StripAnsi(rest))
  {
    StripAnsiPlain(a);
    if IsEscape(e) {
      StripAnsiPlainEscape(a, e, rest);
    }
    if !BeginsEscape([Esc] + rest) {
      StripAnsiPlainLoneEsc(a, rest);
    }
  }

  /** `r` is `s` with some characters deleted. */
  predicate Sub(r: string, s: string)
    decreases |s|
  {
    |r| == 0 || (|s| > 0 && ((r[0] == s[0] && Sub(r[1..], s[1..])) || Sub(r, s[1..])))
  }

  lemma {:induction false} SubSkip(r: string, s: string, n: nat)
    requires n <= |s| && Sub(r, s[n..])
    ensures Sub(r, s)
  {
    if n > 0 && |r| > 0 {
      assert s[1..][n - 1..] == s[n..];
      SubSkip(r, s[1..], n - 1);
    }
  }

  /** Line 7: deleting the sequences keeps the other characters in order. */
  lemma {:induction false} StripAnsiSub(s: string)
    ensures Sub(StripAnsi(s), s)
    decreases |s|
  {
    if |s| > 0 {
      match EscapeAt(s)
      case Some(n) =>
        StripAnsiSub(s[n..]);
        SubSkip(StripAnsi(s), s, n);
      case None =>
        StripAnsiSub(s[1..]);
        assert StripAnsi(s)[1..] == StripAnsi(s[1..]);
    }
  }

  // ---------------------------------------------------------------------
  // Runs of line breaks: `/\r+/g` and `/\n{2,}/g`

  /** Each maximal run of `c` replaced by one `sub`. With `c == '\n'` and
      `sub == '\n'` a single line break is left as it is, which is what
      `/\n{2,}/g` replaced by `\n` does. */
  function CollapseRuns(s: string, c: char, sub: char): (r: string)
    ensures |r| <= |s|
    decreases |s|
  {
    if |s| == 0 then ""
    else if s[0] == c && |s| > 1 && s[1] == c then CollapseRuns(s[1..], c, sub)
    else [if s[0] == c then sub else s[0]] + CollapseRuns(s[1..], c, sub)
  }

  /** No two consecutive `x`. */
  predicate NoDouble(s: string, x: char)
  {
    forall i :: 0 <= i < |s| - 1 ==> !(s[i] == x && s[i + 1] == x)
  }

  lemma {:induction false} CollapseRunsHead(s: string, c: char, sub: char)
    requires |s| > 0
    ensures |CollapseRuns(s, c, sub)| > 0
    ensures CollapseRuns(s, c, sub)[0] == if s[0] == c then sub else s[0]
    decreases |s|
  {
    if s[0] == c && |s| > 1 && s[1] == c {
      CollapseRunsHead(s[1..], c, sub);
    }
  }

  /** Every character of the result is `sub` or comes from `s`, and `c`
      itself is gone when it is replaced by another character. */
  lemma {:induction false} CollapseRunsChars(s: string, c: char, sub: char)
    ensures forall x :: x in CollapseRuns(s, c, sub) ==> x == sub || (x in s && x != c)
    decreases |s|
  {
    if |s| > 0 {
      CollapseRunsChars(s[1..], c, sub);
    }
  }

  /** Line 9: after collapsing, no two line breaks are adjacent. */
  lemma {:induction false} CollapseRunsNoDouble(s: string, c: char)
    ensures NoDouble(CollapseRuns(s, c, c), c)
    decreases |s|
  {
    if |s| > 0 {
      var rest := CollapseRuns(s[1..], c, c);
      CollapseRunsNoDouble(s[1..], c);
      if !(s[0] == c && |s| > 1 && s[1] == c) && |s| > 1 {
        CollapseRunsHead(s[1..], c, c);
        var r := CollapseRuns(s, c, c);
        assert r == [r[0]] + rest;
        forall i | 0 <= i < |r| - 1
          ensures !(r[i] == c && r[i + 1] == c)
        {
          if i > 0 {
            assert r[i] == rest[i - 1] && r[i + 1] == rest[i];
          }
        }
      }
    }
  }

  /** Text with no run to collapse is left as it is. */
  lemma {:induction false} CollapseRunsFixed(s: string, c: char)
    requires NoDouble(s, c)
    ensures CollapseRuns(s, c, c) == s
    decreases |s|
  {
    if |s| > 0 {
      assert NoDouble(s[1..], c) by {
        forall i | 0 <= i < |s[1..]| - 1
          ensures !(s[1..][i] == c && s[1..][i + 1] == c)
        {
          assert s[1..][i] == s[i + 1] && s[1..][i + 1] == s[i + 2];
        }
      }
      CollapseRunsFixed(s[1..], c);
    }
  }

  lemma {:induction false} CollapseRunsAbsent(s: string, c: char, sub: char)
    requires c !in s
    ensures CollapseRuns(s, c, sub) == s
    decreases |s|
  {
    if |s| > 0 {
      CollapseRunsAbsent(s[1..], c, sub);
    }
  }

  /** `n` copies of `c`. */
  function Rep(c: char, n: nat): (r: string)
    ensures |r| == n && forall k :: 0 <= k < n ==> r[k] == c
  {
    seq(n, _ => c)
  }

  lemma {:induction false} CollapseRunsPlainPrefix(a: string, t: string, c: char, sub: char)
    requires c !in a
    ensures CollapseRuns(a + t, c, sub) == a + CollapseRuns(t, c, sub)
  {
    if |a| > 0 {
      assert a[0] in a;
      assert (a + t)[1..] == a[1..] + t;
      assert c !in a[1..] by {
        assert forall x :: x in a[1..] ==> x in a;
      }
      CollapseRunsPlainPrefix(a[1..], t, c, sub);
      assert a == [a[0]] + a[1..];
    } else {
      assert a + t == t;
    }
  }

  lemma {:induction false} CollapseRunsAtRun(n: nat, b: string, c: char, sub: char)
    requires n >= 1 && (|b| == 0 || b[0] != c)
    ensures CollapseRuns(Rep(c, n) + b, c, sub) == [sub] + CollapseRuns(b, c, sub)
  {
    var s := Rep(c, n) + b;
    assert s[0] == c;
    if n == 1 {
      assert s[1..] == b;
    } else {
      assert s[1] == c;
      assert s[1..] == Rep(c, n - 1) + b;
      CollapseRunsAtRun(n - 1, b, c, sub);
    }
  }

  /** Lines 8-9: the text before the first `c` is copied, and a maximal run
      of one or more `c` becomes exactly one `sub`. */
  lemma CollapseRunsRun(a: string, n: nat, b: string, c: char, sub: char)
    requires c !in a && n >= 1 && (|b| == 0 || b[0] != c)
    ensures CollapseRuns(a + Rep(c, n) + b, c, sub) == a + [sub] + CollapseRuns(b, c, sub)
  {
    CollapseRunsPlainPrefix(a, Rep(c, n) + b, c, sub);
    CollapseRunsAtRun(n, b, c, sub);
    assert a + Rep(c, n) + b == a + (Rep(c, n) + b);
  }

  /** `s` without the characters `c` and `sub`. */
  function Others(s: string, c: char, sub: char): string
  {
    if |s| == 0 then ""
    else (if s[0] == c || s[0] == sub then "" else [s[0]]) + Others(s[1..], c, sub)
  }

  /** Lines 8-9: collapsing keeps every other character, in order. */
  lemma {:induction false} CollapseRunsOthers(s: string, c: char, sub: char)
    ensures Others(CollapseRuns(s, c, sub), c, sub) == Others(s, c, sub)
    decreases |s|
  {
    if |s| > 0 {
      CollapseRunsOthers(s[1..], c, sub);
      if !(s[0] == c && |s| > 1 && s[1] == c) {
        var r := CollapseRuns(s, c, sub);
        assert r[1..] == CollapseRuns(s[1..], c, sub);
      }
    }
  }

  // ---------------------------------------------------------------------
  // cleanCliOutput

  /** Lines 5-11. */
  function Clean(raw: string): string
  {
    if raw == "" then ""
    else Trim(CollapseRuns(CollapseRuns(StripAnsi(raw), '\r', '\n'), '\n', '\n'))
  }

  lemma NoDoubleSlice(s: string, x: char, i: nat, j: nat)
    requires i <= j <= |s| && NoDouble(s, x)
    ensures NoDouble(s[i..j], x)
  {
    var t := s[i..j];
    forall k | 0 <= k < |t| - 1
      ensures !(t[k] == x && t[k + 1] == x)
    {
      assert t[k] == s[i + k] && t[k + 1] == s[i + k + 1];
    }
  }

  lemma TrimNoDouble(s: string, x: char)
    requires NoDouble(s, x)
    ensures NoDouble(Trim(s), x)
  {
    var a := TrimStart(s);
    NoDoubleSlice(s, x, |s| - |a|, |s|);
    NoDoubleSlice(a, x, 0, |TrimEnd(a)|);
  }

  /** Lines 5-11: the empty input gives the empty text; otherwise the
      result holds no carriage return, no two adjacent line breaks, no white
      space at either end, and is no longer than the input. */
  lemma CleanProperties(raw: string)
    ensures raw == "" ==> Clean(raw) == ""
    ensures '\r' !in Clean(raw)
    ensures NoDouble(Clean(raw), '\n')
    ensures IsTrimmed(Clean(raw))
    ensures |Clean(raw)| <= |raw|
  {
    if raw != "" {
      var a := StripAnsi(raw);
      var b := CollapseRuns(a, '\r', '\n');
      var c := CollapseRuns(b, '\n', '\n');
      CollapseRunsChars(a, '\r', '\n');
      CollapseRunsChars(b, '\n', '\n');
      CollapseRunsNoDouble(b, '\n');
      TrimNoDouble(c, '\n');
    }
  }

  /** Text that is already clean (no ESC, no carriage return, no blank line,
      no surrounding white space) comes back unchanged. */
  lemma CleanFixed(raw: string)
    requires Esc !in raw && '\r' !in raw && NoDouble(raw, '\n') && IsTrimmed(raw)
    ensures Clean(raw) == raw
  {
    if raw != "" {
      StripAnsiSpec(raw, "", "");
      CollapseRunsAbsent(raw, '\r', '\n');
      CollapseRunsFixed(raw, '\n');
      TrimOfTrimmed(raw);
    }
  }

  // ---------------------------------------------------------------------
  // The command line (lines 33-37)

  /** `filter(Boolean)` on strings: the non-empty ones, in order. */
  function NonEmpty(ps: seq<string>): (r: seq<string>)
    ensures forall w :: w in r <==> w != "" && w in ps
  {
    if |ps| == 0 then []
    else
      var r := (if ps[0] == "" then [] else [ps[0]]) + NonEmpty(ps[1..]);
      assert forall w :: w in ps <==> w == ps[0] || w in ps[1..];
      r
  }

  /** Filtering a concatenation filters each part: the pieces kept stay in
      their order. */
  lemma {:induction false} NonEmptyAppend(a: seq<string>, b: seq<string>)
    ensures NonEmpty(a + b) == NonEmpty(a) + NonEmpty(b)
  {
    if |a| > 0 {
      assert (a + b)[0] == a[0];
      assert (a + b)[1..] == a[1..] + b;
      NonEmptyAppend(a[1..], b);
    } else {
      assert a + b == b;
    }
  }

  /** Line 33: the words of a command line. */
  function Words(s: string): seq<string>
  {
    NonEmpty(Split(s, ' '))
  }

  function Concat(ps: seq<string>): string
  {
    if |ps| == 0 then "" else ps[0] + Concat(ps[1..])
  }

  /** `s` without its spaces. */
  function Unspaced(s: string): string
  {
    if |s| == 0 then "" else (if s[0] == ' ' then "" else [s[0]]) + Unspaced(s[1..])
  }

  lemma {:induction false} UnspacedAppend(a: string, b: string)
    ensures Unspaced(a + b) == Unspaced(a) + Unspaced(b)
  {
    if |a| > 0 {
      assert (a + b)[1..] == a[1..] + b;
      UnspacedAppend(a[1..], b);
    } else {
      assert a + b == b;
    }
  }

  lemma {:induction false} UnspacedPlain(s: string)
    requires ' ' !in s
    ensures Unspaced(s) == s
  {
    if |s| > 0 {
      UnspacedPlain(s[1..]);
    }
  }

  lemma {:induction false} ConcatSplit(s: string)
    ensures Concat(Split(s, ' ')) == Unspaced(s)
    decreases |s|
  {
    match FindChar(s, ' ', 0)
    case None =>
      assert ' ' !in s;
      UnspacedPlain(s);
      assert s + "" == s;
    case Some(i) =>
      var head, tail := s[..i], s[i + 1..];
      assert Unspaced(s) == head + Unspaced(tail) by {
        assert s == head + [' '] + tail;
        UnspacedAppend(head + [' '], tail);
        UnspacedAppend(head, [' ']);
        assert ' ' !in head;
        UnspacedPlain(head);
      }
      assert Concat(Split(s, ' ')) == head + Concat(Split(tail, ' ')) by {
        assert Split(s, ' ')[0] == head;
        assert Split(s, ' ')[1..] == Split(tail, ' ');
      }
      ConcatSplit(tail);
  }

  lemma {:induction false} ConcatNonEmpty(ps: seq<string>)
    ensures Concat(NonEmpty(ps)) == Concat(ps)
  {
    if |ps| > 0 {
      ConcatNonEmpty(ps[1..]);
      if ps[0] == "" {
        assert NonEmpty(ps) == NonEmpty(ps[1..]);
        assert Concat(ps) == "" + Concat(ps[1..]);
      } else {
        assert NonEmpty(ps) == [ps[0]] + NonEmpty(ps[1..]);
        assert ([ps[0]] + NonEmpty(ps[1..]))[1..] == NonEmpty(ps[1..]);
      }
    }
  }

  /** Line 33: the words are non-empty, hold no space, and together are the
      command line without its spaces. */
  lemma WordsUnspaced(s: string)
    ensures forall w :: w in Words(s) ==> w != "" && ' ' !in w
    ensures Concat(Words(s)) == Unspaced(s)
  {
    ConcatNonEmpty(Split(s, ' '));
    ConcatSplit(s);
  }

  /** Line 33: a space separates words, however many there are; a word
      without spaces is one word; the empty line has none. Every line is
      empty, one such word, or two parts around a space, so these determine
      the words of every line. */
  lemma WordsSpec(a: string, b: string)
    ensures Words(a + " " + b) == Words(a) + Words(b)
    ensures a != "" && ' ' !in a ==> Words(a) == [a]
    ensures Words("") == []
  {
    SplitAppend(a, b, ' ');
    NonEmptyAppend(Split(a, ' '), Split(b, ' '));
    if a != "" && ' ' !in a {
      FindCharAt(a, ' ', 0, |a|);
    }
  }

  lemma {:induction false} SplitAppend(a: string, b: string, sep: char)
    ensures Split(a + [sep] + b, sep) == Split(a, sep) + Split(b, sep)
    decreases |a|
  {
    var s := a + [sep] + b;
    match FindChar(a, sep, 0)
    case Some(i) =>
      var tail := a[i + 1..];
      SplitAt(a, sep, i);
      SplitAt(s, sep, i);
      assert s[..i] == a[..i];
      assert s[i + 1..] == tail + [sep] + b;
      SplitAppend(tail, b, sep);
    case None =>
      SplitAt(s, sep, |a|);
      assert s[..|a|] == a;
      assert s[|a| + 1..] == b;
  }

  /** The first separator, at `i`, ends the first piece. */
  lemma SplitAt(s: string, sep: char, i: nat)
    requires i < |s| && s[i] == sep && forall k :: 0 <= k < i ==> s[k] != sep
    ensures Split(s, sep) == [s[..i]] + Split(s[i + 1..], sep)
  {
    FindCharAt(s, sep, 0, i);
  }

  lemma {:induction false} NonEmptyAll(ps: seq<string>)
    requires forall p :: p in ps ==> p != ""
    ensures NonEmpty(ps) == ps
  {
    if |ps| > 0 {
      assert ps[0] in ps;
      assert forall p :: p in ps[1..] ==> p in ps;
      NonEmptyAll(ps[1..]);
    }
  }

  /** Words written with single spaces between them are read back. */
  lemma WordsJoin(ws: seq<string>)
    requires |ws| > 0
    requires forall w :: w in ws ==> w != "" && ' ' !in w
    ensures Words(Join(ws, " ")) == ws
  {
    SplitJoin(ws, ' ');
    NonEmptyAll(ws);
  }

  /** The program to spawn (absent when the command line has no word) and
      its arguments. */
  datatype Invocation = Invocation(cmd: Option<string>, args: seq<string>)

  /** Lines 33-37: the first word is the command; the other words, then
      `--manifest`, the path in double quotes (not escaped) and `--json`, are
      the arguments. */
  function SfInvocation(sfCmdBase: string, manifestPath: string): Invocation
  {
    var parts := Words(sfCmdBase);
    Invocation(if |parts| == 0 then None else Some(parts[0]),
               (if |parts| == 0 then [] else parts[1..])
               + ["--manifest", "\"" + manifestPath + "\"", "--json"])
  }

  /** Lines 33-37: the arguments end with exactly the three fixed ones; the
      command and the arguments before them are the words of the command
      line; there is no command exactly when the command line is all spaces. */
  lemma SfInvocationShape(sfCmdBase: string, manifestPath: string)
    ensures var inv := SfInvocation(sfCmdBase, manifestPath);
      |inv.args| >= 3
      && inv.args[|inv.args| - 3..] == ["--manifest", "\"" + manifestPath + "\"", "--json"]
      && (inv.cmd.None? <==> forall k :: 0 <= k < |sfCmdBase| ==> sfCmdBase[k] == ' ')
      && (inv.cmd.None? ==> |inv.args| == 3)
      && (inv.cmd.Some? ==> [inv.cmd.value] + inv.args[..|inv.args| - 3] == Words(sfCmdBase))
  {
    var parts := Words(sfCmdBase);
    var inv := SfInvocation(sfCmdBase, manifestPath);
    WordsUnspaced(sfCmdBase);
    UnspacedEmpty(sfCmdBase);
    if |parts| > 0 {
      assert parts[0] in parts;
      assert Concat(parts) != "";
    }
    assert inv.args[..|inv.args| - 3] == if |parts| == 0 then [] else parts[1..];
  }

  lemma {:induction false} UnspacedEmpty(s: string)
    ensures Unspaced(s) == "" <==> forall k :: 0 <= k < |s| ==> s[k] == ' '
  {
    if |s| > 0 {
      UnspacedEmpty(s[1..]);
      assert forall k :: 1 <= k < |s| ==> s[k] == s[1..][k - 1];
    }
  }
}
