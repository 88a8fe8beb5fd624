/** The decisions of `presentSfResult` (src/extension.ts:51-112): what is
    written to the output channel and which notification is shown after a
    CLI run, as the list of effects in the order the source performs them. */
module Present {
  import opened Text
  import opened PresentHelpers

  datatype ToastKind = Info | Warning | Error

  datatype Effect =
    | AppendText(text: string)   // output.appendLine(text)
    | AppendJson(value: Json)    // output.appendLine(prettyJson(value))
    | ShowOutput                 // output.show(true)
    | Toast(kind: ToastKind, message: string)

  // ---------------------------------------------------------------------
  // Reading the parsed answer

  /** JavaScript truthiness of a JSON value. */
  predicate Truthy(j: Json)
  {
    match j
    case Null => false
    case Bool(b) => b
    case Num(n) => n != 0
    case Str(s) => s != ""
    case _ => true
  }

  predicate Present(v: Option<Json>)
  {
    v.Some? && Truthy(v.value)
  }

  function Lookup(fields: seq<Member>, key: string): Option<Json>
  {
    if |fields| == 0 then None
    else if fields[0].key == key then Some(fields[0].value)
    else Lookup(fields[1..], key)
  }

  /** `j.key` (and `j?.key`): the entry of an object, absent otherwise. */
  function Get(j: Json, key: string): Option<Json>
  {
    match j
    case Obj(fields) => Lookup(fields, key)
    case _ => None
  }

  /** `parsed.result?.key`. */
  function ResultField(parsed: Json, key: string): Option<Json>
  {
    match Get(parsed, "result")
    case Some(r) => Get(r, key)
    case None => None
  }

  /** `a || b || …`: the first truthy operand, absent when none is. */
  function FirstTruthy(vs: seq<Option<Json>>): (r: Option<Json>)
    ensures r.Some? ==> exists i :: 0 <= i < |vs| && vs[i] == r && Truthy(r.value)
                                    && forall k :: 0 <= k < i ==> !Present(vs[k])
    ensures r.None? ==> forall k :: 0 <= k < |vs| ==> !Present(vs[k])
  {
    if |vs| == 0 then None
    else if Present(vs[0]) then vs[0]
    else
      var r := FirstTruthy(vs[1..]);
      assert forall k :: 1 <= k < |vs| ==> vs[k] == vs[1..][k - 1];
      assert r.Some? ==> exists i :: 0 <= i < |vs| && vs[i] == r && Truthy(r.value)
                                     && forall k :: 0 <= k < i ==> !Present(vs[k]) by {
        if r.Some? {
          var i :| 0 <= i < |vs[1..]| && vs[1..][i] == r && Truthy(r.value)
                   && forall k :: 0 <= k < i ==> !Present(vs[1..][k]);
          assert vs[i + 1] == r;
        }
      }
      r
  }

  /** Lines 63-67, in order of precedence. */
  function StatusSources(parsed: Json): seq<Option<Json>>
  {
    [Get(parsed, "status"), ResultField(parsed, "status"),
     ResultField(parsed, "statusMessage"), Get(parsed, "statusMessage")]
  }

  /** Lines 63-73: the status text, `""` standing for `undefined` (the two
      act alike below). When the chosen status is not a string, the text is
      `String(parsed.status)`, given here as `stringOf`, if `parsed.status`
      is truthy, and absent otherwise. When no operand is truthy the chain
      yields a falsy last operand, which also ends as no text. */
  function StatusText(parsed: Json, stringOf: Json -> string): string
  {
    match FirstTruthy(StatusSources(parsed))
    case Some(Str(s)) => s
    case Some(_) =>
      if Present(Get(parsed, "status")) then stringOf(Get(parsed, "status").value) else ""
    case None => ""
  }

  /** `/pat/i.test(s)` for a literal pattern: it occurs somewhere, ASCII
      letters compared without case. */
  predicate ContainsCI(s: string, pat: string)
  {
    FindCI(s, pat, 0).Some?
  }

  predicate SaysFailure(s: string)
  {
    ContainsCI(s, "failed") || ContainsCI(s, "error")
  }

  predicate SaysSuccess(s: string)
  {
    ContainsCI(s, "succeeded") || ContainsCI(s, "success")
  }

  /** Lines 76, 83 and 87: the status in parentheses, when there is one. */
  function Suffix(status: string): string
  {
    if status != "" then " (" + status + ")" else ""
  }

  /** Lines 79-80: `result.messages` is a non-empty array. */
  predicate HasMessages(parsed: Json)
  {
    match ResultField(parsed, "messages")
    case Some(Arr(items)) => |items| > 0
    case _ => false
  }

  // ---------------------------------------------------------------------
  // The snippet of plain output

  /** Line 102: every line trimmed. */
  function TrimAll(lines: seq<string>): (r: seq<string>)
    ensures |r| == |lines| && forall k :: 0 <= k < |lines| ==> r[k] == Trim(lines[k])
  {
    seq(|lines|, k requires 0 <= k < |lines| => Trim(lines[k]))
  }

  /** Line 103: `filter(Boolean)`, the empty strings dropped, the others
      kept in order. */
  function DropEmpty(ts: seq<string>): seq<string>
  {
    if |ts| == 0 then []
    else if ts[0] == "" then DropEmpty(ts[1..])
    else [ts[0]] + DropEmpty(ts[1..])
  }

  /** Lines 100-103: the lines, trimmed, blank ones dropped. */
  function NonBlank(lines: seq<string>): seq<string>
  {
    DropEmpty(TrimAll(lines))
  }

  /** Lines 100-103: each non-blank line is not empty, has no white space at
      either end, and has no line break when no line has one. */
  lemma NonBlankLines(lines: seq<string>)
    ensures var r := NonBlank(lines);
      forall k :: 0 <= k < |r| ==> r[k] != "" && IsTrimmed(r[k])
    ensures var r := NonBlank(lines);
      (forall l :: l in lines ==> '\n' !in l) ==> forall k :: 0 <= k < |r| ==> '\n' !in r[k]
  {
    var ts := TrimAll(lines);
    var r := DropEmpty(ts);
    forall k | 0 <= k < |r|
      ensures r[k] != "" && IsTrimmed(r[k])
      ensures (forall l :: l in lines ==> '\n' !in l) ==> '\n' !in r[k]
    {
      DropEmptyMem(ts, r[k]);
      var i :| 0 <= i < |ts| && ts[i] == r[k];
      assert r[k] == Trim(lines[i]);
      assert lines[i] in lines;
    }
  }

  /** Lines 100-106: the first non-blank line, or "first ... last" when the
      last one differs; `""` when every line is blank. */
  function Snippet(cleaned: string): string
  {
    var lines := NonBlank(Split(cleaned, '\n'));
    var first := if |lines| > 0 then lines[0] else "";
    var last := if |lines| > 0 then lines[|lines| - 1] else "";
    if first == last then first else first + " ... " + last
  }

  // ---------------------------------------------------------------------
  // presentSfResult

  /** Lines 51-112. `parsed` is the answer `JSON.parse` gave, if any (line 57
      tests its truthiness); `JSON.parse(JSON.stringify(parsed))` copies a
      JSON value unchanged, so the stripped copy is `Stripped(parsed)`. */
  function PresentSfResult(parsed: Option<Json>, cleaned: string, successMsg: string, failMsg: string,
                           stringOf: Json -> string): seq<Effect>
  {
    if Present(parsed) then
      var p := parsed.value;
      var status := StatusText(p, stringOf);
      [AppendJson(Stripped(p)), ShowOutput]
      + if SaysFailure(status) then [Toast(Error, failMsg + Suffix(status))]
        else if HasMessages(p) then [Toast(Warning, successMsg + Suffix(status))]
        else [Toast(Info, successMsg + Suffix(status))]
    else if SaysFailure(cleaned) then
      [AppendText(cleaned), ShowOutput, Toast(Error, failMsg)]
    else if SaysSuccess(cleaned) then
      [Toast(Info, successMsg)]
    else
      var snippet := Snippet(cleaned);
      (if snippet != "" then [Toast(Info, snippet)] else []) + [AppendText(cleaned), ShowOutput]
  }

  // ---------------------------------------------------------------------
  // What the effects promise

  /** The notifications among the effects, in order. */
  function Toasts(es: seq<Effect>): seq<Effect>
  {
    if |es| == 0 then []
    else Toasts(es[..|es| - 1]) + if es[|es| - 1].Toast? then [es[|es| - 1]] else []
  }

  /** The pattern test is a search: some offset starts the pattern. */
  lemma ContainsCIIff(s: string, pat: string)
    ensures ContainsCI(s, pat) <==> exists i :: StartsCI(s, i, pat)
  {
    if i :| StartsCI(s, i, pat) {
      assert 0 <= i;
    }
  }

  /** Lines 63-67: the status is taken from the first source, in the order
      `status`, `result.status`, `result.statusMessage`, `statusMessage`,
      that holds a non-empty value; a string there is the status text. */
  lemma StatusPrecedence(parsed: Json, stringOf: Json -> string, i: nat, s: string)
    requires i < 4 && StatusSources(parsed)[i] == Some(Str(s)) && s != ""
    requires forall k :: 0 <= k < i ==> !Present(StatusSources(parsed)[k])
    ensures StatusText(parsed, stringOf) == s
  {
    var vs := StatusSources(parsed);
    var r := FirstTruthy(vs);
    assert Present(vs[i]);
    var j :| 0 <= j < |vs| && vs[j] == r && Truthy(r.value) && forall k :: 0 <= k < j ==> !Present(vs[k]);
    assert j == i;
  }

  /** Lines 63-73: with no non-empty source there is no status text. */
  lemma NoStatus(parsed: Json, stringOf: Json -> string)
    requires forall k :: 0 <= k < 4 ==> !Present(StatusSources(parsed)[k])
    ensures StatusText(parsed, stringOf) == ""
  {
  }

  /** Lines 57-89: with a parsed answer, the stripped JSON (no `"stack"`
      entry anywhere) is written first and shown, then exactly one
      notification follows: an error with `failMsg` when the status says
      failed or error, else a warning when `result.messages` is non-empty,
      else information, the latter two with `successMsg`; the status follows
      in parentheses when there is one. */
  lemma JsonOutcome(parsed: Option<Json>, cleaned: string, successMsg: string, failMsg: string,
                    stringOf: Json -> string)
    requires Present(parsed)
    ensures var es := PresentSfResult(parsed, cleaned, successMsg, failMsg, stringOf);
      var status := StatusText(parsed.value, stringOf);
      |es| == 3 && es[0] == AppendJson(Stripped(parsed.value)) && NoStack(es[0].value)
      && es[1] == ShowOutput
      && Toasts(es) == [es[2]] && es[2].Toast?
      && (es[2].kind == Error <==> SaysFailure(status))
      && (es[2].kind == Warning <==> !SaysFailure(status) && HasMessages(parsed.value))
      && es[2].message == (if SaysFailure(status) then failMsg else successMsg) + Suffix(status)
  {
    StrippedNoStack(parsed.value);
    var es := PresentSfResult(parsed, cleaned, successMsg, failMsg, stringOf);
    ToastsOfThree(es);
  }

  lemma ToastsOfThree(es: seq<Effect>)
    requires |es| == 3 && !es[0].Toast? && !es[1].Toast?
    ensures Toasts(es) == if es[2].Toast? then [es[2]] else []
  {
    assert es[..2][..1] == es[..1];
    assert Toasts(es[..1]) == [];
  }

  lemma ToastsOfTwo(es: seq<Effect>)
    requires |es| == 2 && !es[0].Toast? && !es[1].Toast?
    ensures Toasts(es) == []
  {
    assert Toasts(es[..1]) == [];
  }

  /** Lines 90-96: without a parsed answer, a text that says failed or error
      (even if it also says success) is written to the output and shown, and
      the one notification is an error with `failMsg`. */
  lemma TextFailure(parsed: Option<Json>, cleaned: string, successMsg: string, failMsg: string,
                    stringOf: Json -> string)
    requires !Present(parsed) && SaysFailure(cleaned)
    ensures var es := PresentSfResult(parsed, cleaned, successMsg, failMsg, stringOf);
      es == [AppendText(cleaned), ShowOutput, Toast(Error, failMsg)]
      && Toasts(es) == [Toast(Error, failMsg)]
  {
    var es := PresentSfResult(parsed, cleaned, successMsg, failMsg, stringOf);
    assert es[0] == AppendText(cleaned);
    ToastsOfThree(es);
  }

  /** Lines 97-98: a text that says success and not failure gives only an
      information notification with `successMsg`; nothing is written. */
  lemma TextSuccess(parsed: Option<Json>, cleaned: string, successMsg: string, failMsg: string,
                    stringOf: Json -> string)
    requires !Present(parsed) && !SaysFailure(cleaned) && SaysSuccess(cleaned)
    ensures PresentSfResult(parsed, cleaned, successMsg, failMsg, stringOf) == [Toast(Info, successMsg)]
  {
  }

  /** Lines 99-110: any other text first gives the snippet as an
      information notification, when it is not empty, and is then written to
      the output and shown; the snippet is the only notification. */
  lemma TextOther(parsed: Option<Json>, cleaned: string, successMsg: string, failMsg: string,
                  stringOf: Json -> string)
    requires !Present(parsed) && !SaysFailure(cleaned) && !SaysSuccess(cleaned)
    ensures var es := PresentSfResult(parsed, cleaned, successMsg, failMsg, stringOf);
      es == (if Snippet(cleaned) == "" then [] else [Toast(Info, Snippet(cleaned))])
            + [AppendText(cleaned), ShowOutput]
      && Toasts(es) == if Snippet(cleaned) == "" then [] else [Toast(Info, Snippet(cleaned))]
  {
    var es := PresentSfResult(parsed, cleaned, successMsg, failMsg, stringOf);
    var sn := Snippet(cleaned);
    if sn != "" {
      assert es == [Toast(Info, sn), AppendText(cleaned), ShowOutput];
      ToastsOfThreeHead(es);
    } else {
      assert es == [AppendText(cleaned), ShowOutput];
      ToastsOfTwo(es);
    }
  }

  lemma ToastsOfThreeHead(es: seq<Effect>)
    requires |es| == 3 && es[0].Toast? && !es[1].Toast? && !es[2].Toast?
    ensures Toasts(es) == [es[0]]
  {
    assert es[..2][..1] == es[..1];
    assert es[..1][..0] == [];
    assert Toasts(es[..1]) == [es[0]];
    assert Toasts(es[..2]) == [es[0]];
  }

  // ---------------------------------------------------------------------
  // The snippet

  predicate AllSpace(s: string)
  {
    forall k :: 0 <= k < |s| ==> IsSpace(s[k])
  }

  lemma AllSpaceAppend(a: string, b: string)
    ensures AllSpace(a + b) <==> AllSpace(a) && AllSpace(b)
  {
    var s := a + b;
    assert forall k :: 0 <= k < |a| ==> s[k] == a[k];
    assert forall k :: 0 <= k < |b| ==> s[|a| + k] == b[k];
    if AllSpace(a) && AllSpace(b) {
      forall k | 0 <= k < |s|
        ensures IsSpace(s[k])
      {
        if k >= |a| {
          assert s[k] == b[k - |a|];
        }
      }
    }
  }

  lemma TrimEmpty(l: string)
    ensures Trim(l) == "" <==> AllSpace(l)
  {
    var a := TrimStart(l);
    assert Trim(l) == TrimEnd(a);
  }

  lemma NonBlankEmpty(lines: seq<string>)
    ensures NonBlank(lines) == [] <==> forall k :: 0 <= k < |lines| ==> AllSpace(lines[k])
  {
    if forall k :: 0 <= k < |lines| ==> AllSpace(lines[k]) {
      var ts := TrimAll(lines);
      forall k | 0 <= k < |ts|
        ensures ts[k] == ""
      {
        TrimEmpty(lines[k]);
      }
      DropEmptyNone(ts);
    } else {
      var k :| 0 <= k < |lines| && !AllSpace(lines[k]);
      TrimEmpty(lines[k]);
      NonBlankMem(lines, Trim(lines[k]));
    }
  }

  lemma {:induction false} JoinAllSpace(parts: seq<string>, sep: char)
    requires |parts| > 0 && IsSpace(sep)
    ensures AllSpace(Join(parts, [sep])) <==> forall k :: 0 <= k < |parts| ==> AllSpace(parts[k])
  {
    if |parts| > 1 {
      var init := parts[..|parts| - 1];
      JoinAllSpace(init, sep);
      AllSpaceAppend(Join(init, [sep]) + [sep], parts[|parts| - 1]);
      AllSpaceAppend(Join(init, [sep]), [sep]);
      assert forall k :: 0 <= k < |init| ==> init[k] == parts[k];
    }
  }

  /** Lines 100-107: the snippet is empty, and no notification is shown,
      exactly when the text is all white space. */
  lemma SnippetEmpty(cleaned: string)
    ensures Snippet(cleaned) == "" <==> AllSpace(cleaned)
  {
    var parts := Split(cleaned, '\n');
    var lines := NonBlank(parts);
    NonBlankEmpty(parts);
    JoinSplit(cleaned, '\n');
    JoinAllSpace(parts, '\n');
    if |lines| > 0 {
      NonBlankLines(parts);
      assert lines[0] != "";
    }
  }

  lemma {:induction false} DropEmptyAppend(a: seq<string>, b: seq<string>)
    ensures DropEmpty(a + b) == DropEmpty(a) + DropEmpty(b)
  {
    if |a| > 0 {
      assert (a + b)[0] == a[0];
      assert (a + b)[1..] == a[1..] + b;
      DropEmptyAppend(a[1..], b);
    } else {
      assert a + b == b;
    }
  }

  lemma {:induction false} DropEmptyMem(ts: seq<string>, t: string)
    ensures t in DropEmpty(ts) <==> t != "" && t in ts
  {
    if |ts| > 0 {
      DropEmptyMem(ts[1..], t);
      assert ts == [ts[0]] + ts[1..];
    }
  }

  lemma {:induction false} DropEmptyNone(ts: seq<string>)
    requires forall k :: 0 <= k < |ts| ==> ts[k] == ""
    ensures DropEmpty(ts) == []
  {
    if |ts| > 0 {
      DropEmptyNone(ts[1..]);
    }
  }

  lemma TrimAllAppend(a: seq<string>, b: seq<string>)
    ensures TrimAll(a + b) == TrimAll(a) + TrimAll(b)
  {
    var l, r := TrimAll(a + b), TrimAll(a) + TrimAll(b);
    assert |l| == |r|;
    forall k | 0 <= k < |l|
      ensures l[k] == r[k]
    {
      if k < |a| {
        assert (a + b)[k] == a[k];
      } else {
        assert (a + b)[k] == b[k - |a|];
      }
    }
  }

  /** Lines 100-103: the lines are kept in order, so the non-blank lines of
      two runs of lines are those of the first followed by those of the
      second. */
  lemma NonBlankAppend(a: seq<string>, b: seq<string>)
    ensures NonBlank(a + b) == NonBlank(a) + NonBlank(b)
  {
    TrimAllAppend(a, b);
    DropEmptyAppend(TrimAll(a), TrimAll(b));
  }

  /** Lines 100-103: a text is among the non-blank lines exactly when it is
      not empty and is some line, trimmed. */
  lemma NonBlankMem(lines: seq<string>, t: string)
    ensures t in NonBlank(lines) <==> t != "" && exists i :: 0 <= i < |lines| && Trim(lines[i]) == t
  {
    var ts := TrimAll(lines);
    DropEmptyMem(ts, t);
    if exists i :: 0 <= i < |lines| && Trim(lines[i]) == t {
      var i :| 0 <= i < |lines| && Trim(lines[i]) == t;
      assert ts[i] == t;
    }
  }

  /** Lines 100-105: when line `i` is the first and line `j` the last with
      anything but white space, the non-blank lines begin with line `i` and
      end with line `j`, trimmed. */
  lemma NonBlankEnds(lines: seq<string>, i: nat, j: nat)
    requires i <= j < |lines| && Trim(lines[i]) != "" && Trim(lines[j]) != ""
    requires forall k :: 0 <= k < i ==> Trim(lines[k]) == ""
    requires forall k :: j < k < |lines| ==> Trim(lines[k]) == ""
    ensures var r := NonBlank(lines);
      |r| > 0 && r[0] == Trim(lines[i]) && r[|r| - 1] == Trim(lines[j])
  {
    var ts := TrimAll(lines);
    assert ts[i] != "" && ts[j] != "";
    DropEmptyEnds(ts, i, j);
    assert NonBlank(lines) == DropEmpty(ts);
  }

  lemma DropEmptyEnds(ts: seq<string>, i: nat, j: nat)
    requires i <= j < |ts| && ts[i] != "" && ts[j] != ""
    requires forall k :: 0 <= k < i ==> ts[k] == ""
    requires forall k :: j < k < |ts| ==> ts[k] == ""
    ensures var r := DropEmpty(ts);
      |r| > 0 && r[0] == ts[i] && r[|r| - 1] == ts[j]
  {
    var mid := ts[i..j + 1];
    DropEmptyMiddle(ts, i, j);
    DropEmptyFirst(mid);
    DropEmptyLast(mid);
  }

  /** Empty strings around `ts[i..j + 1]` contribute nothing. */
  lemma DropEmptyMiddle(ts: seq<string>, i: nat, j: nat)
    requires i <= j < |ts|
    requires forall k :: 0 <= k < i ==> ts[k] == ""
    requires forall k :: j < k < |ts| ==> ts[k] == ""
    ensures DropEmpty(ts) == DropEmpty(ts[i..j + 1])
  {
    var pre, mid, post := ts[..i], ts[i..j + 1], ts[j + 1..];
    assert DropEmpty(pre) == [] by {
      DropEmptyNone(pre);
    }
    assert DropEmpty(post) == [] by {
      assert forall k :: 0 <= k < |post| ==> post[k] == ts[j + 1 + k];
      DropEmptyNone(post);
    }
    var rest := ts[i..];
    assert ts == pre + rest;
    assert rest == mid + post by {
      assert mid == rest[..j + 1 - i] && post == rest[j + 1 - i..];
    }
    DropEmptyAppend(pre, rest);
    DropEmptyAppend(mid, post);
  }

  lemma DropEmptyFirst(ts: seq<string>)
    requires |ts| > 0 && ts[0] != ""
    ensures |DropEmpty(ts)| > 0 && DropEmpty(ts)[0] == ts[0]
  {
  }

  lemma DropEmptyLast(ts: seq<string>)
    requires |ts| > 0 && ts[|ts| - 1] != ""
    ensures |DropEmpty(ts)| > 0 && DropEmpty(ts)[|DropEmpty(ts)| - 1] == ts[|ts| - 1]
  {
    var init, final := ts[..|ts| - 1], [ts[|ts| - 1]];
    assert ts == init + final;
    DropEmptyAppend(init, final);
    assert final[1..] == [];
  }

  /** Lines 100-106: the snippet is the first line with anything but white
      space, trimmed, followed by " ... " and the last such line when the two
      differ. */
  lemma SnippetEnds(cleaned: string, i: nat, j: nat)
    requires var lines := Split(cleaned, '\n');
      i <= j < |lines| && Trim(lines[i]) != "" && Trim(lines[j]) != ""
      && (forall k :: 0 <= k < i ==> Trim(lines[k]) == "")
      && (forall k :: j < k < |lines| ==> Trim(lines[k]) == "")
    ensures var lines := Split(cleaned, '\n');
      var first, last := Trim(lines[i]), Trim(lines[j]);
      Snippet(cleaned) == if first == last then first else first + " ... " + last
  {
    NonBlankEnds(Split(cleaned, '\n'), i, j);
  }

  /** Lines 100-106: the snippet is one line with no white space at either
      end. */
  lemma SnippetLine(cleaned: string)
    ensures '\n' !in Snippet(cleaned)
    ensures IsTrimmed(Snippet(cleaned))
  {
    var parts := Split(cleaned, '\n');
    var lines := NonBlank(parts);
    NonBlankLines(parts);
    if |lines| > 0 {
      var first, last := lines[0], lines[|lines| - 1];
      assert first != "" && IsTrimmed(first) && '\n' !in first;
      assert last != "" && IsTrimmed(last) && '\n' !in last;
      ElidedLine(first, last);
    }
  }

  /** "first ... last" of two trimmed, non-empty lines is one trimmed line. */
  lemma ElidedLine(first: string, last: string)
    requires first != "" && IsTrimmed(first) && '\n' !in first
    requires last != "" && IsTrimmed(last) && '\n' !in last
    ensures var sn := first + " ... " + last;
      '\n' !in sn && IsTrimmed(sn)
  {
    var sn := first + " ... " + last;
    assert sn[0] == first[0] && sn[|sn| - 1] == last[|last| - 1];
    assert forall c :: c in sn ==> c in first || c in " ... " || c in last;
  }
}
