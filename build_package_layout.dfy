/** The text `buildPackageFromText` returns, line by line: the fixed head
    and tail, and every group line indented by four spaces. */
module BuildPackageLayout {
  import opened Text
  import opened BuildPackage
  import opened BuildPackageProperties

  /** Every line of `s` starts with four spaces: `s` does, and so does the
      text after each of its line breaks. */
  predicate Indented(s: string)
  {
    |s| >= 4 && s[..4] == "    "
    && forall i :: 0 <= i < |s| && s[i] == '\n' ==> i + 5 <= |s| && s[i + 1..i + 5] == "    "
  }

  /** Two indented texts on consecutive lines are indented. */
  lemma ConcatIndented(a: string, b: string)
    requires Indented(a) && Indented(b)
    ensures Indented(a + "\n" + b)
  {
    var s := a + "\n" + b;
    assert s[..4] == a[..4];
    forall i | 0 <= i < |s| && s[i] == '\n'
      ensures i + 5 <= |s| && s[i + 1..i + 5] == "    "
    {
      if i < |a| {
        assert s[i + 1..i + 5] == a[i + 1..i + 5];
      } else if i == |a| {
        assert s[i + 1..i + 5] == b[..4];
      } else {
        var j := i - |a| - 1;
        assert b[j] == '\n';
        assert s[i + 1..i + 5] == b[j + 1..j + 5];
      }
    }
  }

  lemma {:induction false} JoinIndented(parts: seq<string>)
    requires |parts| > 0
    requires forall k :: 0 <= k < |parts| ==> Indented(parts[k])
    ensures Indented(Join(parts, "\n"))
  {
    if |parts| > 1 {
      JoinIndented(parts[..|parts| - 1]);
      ConcatIndented(Join(parts[..|parts| - 1], "\n"), parts[|parts| - 1]);
    }
  }

  /** Lines 101-104: `Indent` puts four spaces before every line. */
  lemma IndentIndented(s: string)
    ensures Indented(Indent(s))
  {
    var lines := Split(s, '\n');
    var padded := seq(|lines|, k requires 0 <= k < |lines| => "    " + lines[k]);
    forall k | 0 <= k < |padded|
      ensures Indented(padded[k])
    {
      assert lines[k] in lines;
      var p := padded[k];
      forall i | 0 <= i < |p|
        ensures p[i] != '\n'
      {
        if i >= 4 {
          assert p[i] == lines[k][i - 4];
        }
      }
    }
    JoinIndented(padded);
  }

  lemma MergeNonEmpty(cands: seq<Group>)
    requires |cands| > 0
    ensures |Merge(cands)| > 0
  {
    NamesIndex(cands);
    DedupEmpty(Names(cands));
  }

  /** The indented groups, joined by line breaks, are indented. */
  lemma GroupsIndented(groups: seq<Group>)
    requires |groups| > 0
    ensures Indented(Join(seq(|groups|, k requires 0 <= k < |groups| => Indent(TypesText(groups[k]))), "\n"))
  {
    var parts := seq(|groups|, k requires 0 <= k < |groups| => Indent(TypesText(groups[k])));
    forall k | 0 <= k < |parts|
      ensures Indented(parts[k])
    {
      IndentIndented(TypesText(groups[k]));
    }
    JoinIndented(parts);
  }

  lemma Framed(head: string, body: string, foot: string)
    ensures var s := head + body + foot;
      |head| + |foot| <= |s| && s[..|head|] == head && s[|s| - |foot|..] == foot
      && s[|head|..|s| - |foot|] == body
  {
    var s := head + body + foot;
    assert s[..|head|] == head;
    assert s[|s| - |foot|..] == foot;
    assert s[|head|..|s| - |foot|] == body;
  }

  /** Lines 91-107: a package starts with the XML declaration and the
      `<Package>` line, ends with the version line, `</Package>` and a line
      break, and every line in between starts with four spaces. */
  lemma BuildLayout(doc: string, ranges: seq<Range>)
    requires Build(doc, ranges).Some?
    ensures var s := Build(doc, ranges).value;
      |Header| + |Footer| <= |s| && s[..|Header|] == Header && s[|s| - |Footer|..] == Footer
      && Indented(s[|Header|..|s| - |Footer|])
  {
    var groups := Merge(Candidates(doc, ranges));
    MergeNonEmpty(Candidates(doc, ranges));
    GroupsIndented(groups);
    Framed(Header, Join(seq(|groups|, k requires 0 <= k < |groups| => Indent(TypesText(groups[k]))), "\n"), Footer);
  }

  /** Lines 94-96 and 101-104, written out: `    <types>`, one
      `        <members>v</members>` line per member or a single line of eight
      spaces when there is none, `        <name>N</name>` (`<name></name>` for
      the empty name), `    </types>`. */
  function GroupLines(g: Group): seq<string>
  {
    ["    <types>"]
    + (if |g.members| == 0 then ["        "]
       else seq(|g.members|, k requires 0 <= k < |g.members| => "        <members>" + g.members[k] + "</members>"))
    + ["        <name>" + g.name + "</name>", "    </types>"]
  }

  /** `"    " + Join(lines, "\n    ")` is the lines, each indented, joined. */
  lemma {:induction false} PadJoin(lines: seq<string>, padded: seq<string>)
    requires |lines| > 0 && |padded| == |lines|
    requires forall k :: 0 <= k < |lines| ==> padded[k] == "    " + lines[k]
    ensures "    " + Join(lines, "\n    ") == Join(padded, "\n")
  {
    if |lines| > 1 {
      PadJoin(lines[..|lines| - 1], padded[..|padded| - 1]);
    }
  }

  lemma JoinSnoc(a: seq<string>, x: string, sep: string)
    requires |a| > 0
    ensures Join(a + [x], sep) == Join(a, sep) + sep + x
  {
    assert (a + [x])[..|a|] == a;
  }

  lemma JoinTwoMore(a: seq<string>, x: string, y: string)
    requires |a| > 0
    ensures Join(a + [x, y], "\n") == Join(a, "\n") + "\n" + x + "\n" + y
  {
    assert a + [x, y] == (a + [x]) + [y];
    JoinSnoc(a + [x], y, "\n");
    JoinSnoc(a, x, "\n");
  }

  /** The group's text before indentation, line by line. */
  function RawLines(g: Group): seq<string>
  {
    ["<types>"]
    + (if |g.members| == 0 then ["    "]
       else seq(|g.members|, k requires 0 <= k < |g.members| => "    " + MemberLine(g.members[k])))
    + ["    " + NameTag(g.name), "</types>"]
  }

  function MiddleLines(g: Group): seq<string>
  {
    if |g.members| == 0 then ["    "]
    else seq(|g.members|, k requires 0 <= k < |g.members| => "    " + MemberLine(g.members[k]))
  }

  lemma MiddleJoin(g: Group)
    ensures Join(MiddleLines(g), "\n")
         == "    " + Join(seq(|g.members|, k requires 0 <= k < |g.members| => MemberLine(g.members[k])), "\n    ")
  {
    var lines := seq(|g.members|, k requires 0 <= k < |g.members| => MemberLine(g.members[k]));
    if |g.members| > 0 {
      PadJoin(lines, MiddleLines(g));
    } else {
      assert Join(lines, "\n    ") == "";
    }
  }

  lemma TypesTextLines(g: Group)
    ensures TypesText(g) == Join(RawLines(g), "\n")
  {
    var mids := MiddleLines(g);
    var name := "    " + NameTag(g.name);
    MiddleJoin(g);
    JoinCons("<types>", mids, "\n");
    JoinTwoMore(["<types>"] + mids, name, "</types>");
    assert RawLines(g) == ["<types>"] + mids + [name, "</types>"];
  }

  lemma NoBreak(a: string, b: string)
    requires '\n' !in a && '\n' !in b
    ensures '\n' !in a + b
  {
  }

  lemma MemberLineUnbroken(v: string)
    requires '\n' !in v
    ensures '\n' !in "    " + MemberLine(v)
  {
    NoBreak("    <members>", v);
    NoBreak("    <members>" + v, "</members>");
    assert "    " + MemberLine(v) == "    <members>" + v + "</members>";
  }

  lemma NameLineUnbroken(n: string)
    requires '\n' !in n
    ensures '\n' !in "    " + NameTag(n)
  {
    NoBreak("    <name>", n);
    NoBreak("    <name>" + n, "</name>");
    assert "    " + NameTag(n) == "    <name>" + n + "</name>";
  }

  lemma RawLinesUnbroken(g: Group)
    requires '\n' !in g.name
    requires forall v :: v in g.members ==> '\n' !in v
    ensures forall l :: l in RawLines(g) ==> '\n' !in l
  {
    var raw := RawLines(g);
    var mids := MiddleLines(g);
    forall k | 0 <= k < |mids|
      ensures '\n' !in mids[k]
    {
      if |g.members| > 0 {
        assert g.members[k] in g.members;
        MemberLineUnbroken(g.members[k]);
      }
    }
    NameLineUnbroken(g.name);
    assert raw == ["<types>"] + mids + ["    " + NameTag(g.name), "</types>"];
  }

  /** `ys` is `xs` with four spaces before every line. */
  predicate Padded(xs: seq<string>, ys: seq<string>)
  {
    |ys| == |xs| && forall k :: 0 <= k < |xs| ==> ys[k] == "    " + xs[k]
  }

  lemma PaddedConcat(xs1: seq<string>, ys1: seq<string>, xs2: seq<string>, ys2: seq<string>)
    requires Padded(xs1, ys1) && Padded(xs2, ys2)
    ensures Padded(xs1 + xs2, ys1 + ys2)
  {
    var xs := xs1 + xs2;
    var ys := ys1 + ys2;
    forall k | 0 <= k < |xs|
      ensures ys[k] == "    " + xs[k]
    {
      if k >= |xs1| {
        assert xs[k] == xs2[k - |xs1|] && ys[k] == ys2[k - |xs1|];
      }
    }
  }

  function GroupMiddle(g: Group): seq<string>
  {
    if |g.members| == 0 then ["        "]
    else seq(|g.members|, k requires 0 <= k < |g.members| => "        <members>" + g.members[k] + "</members>")
  }

  lemma PadMember(v: string)
    ensures "    " + ("    " + MemberLine(v)) == "        <members>" + v + "</members>"
  {
  }

  lemma PadName(n: string)
    ensures "    " + ("    " + NameTag(n)) == "        <name>" + n + "</name>"
  {
  }

  lemma MiddlePadded(g: Group)
    ensures Padded(MiddleLines(g), GroupMiddle(g))
  {
    var mids := MiddleLines(g);
    var gm := GroupMiddle(g);
    forall k | 0 <= k < |mids|
      ensures gm[k] == "    " + mids[k]
    {
      if |g.members| > 0 {
        PadMember(g.members[k]);
      }
    }
  }

  lemma PaddedRawLines(g: Group)
    ensures |GroupLines(g)| == |RawLines(g)|
    ensures forall k :: 0 <= k < |RawLines(g)| ==> GroupLines(g)[k] == "    " + RawLines(g)[k]
  {
    var mids := MiddleLines(g);
    var tail := ["    " + NameTag(g.name), "</types>"];
    var gtail := ["        <name>" + g.name + "</name>", "    </types>"];
    MiddlePadded(g);
    PadName(g.name);
    assert Padded(tail, gtail);
    PaddedConcat(["<types>"], ["    <types>"], mids, GroupMiddle(g));
    PaddedConcat(["<types>"] + mids, ["    <types>"] + GroupMiddle(g), tail, gtail);
    assert RawLines(g) == ["<types>"] + mids + tail;
    assert GroupLines(g) == ["    <types>"] + GroupMiddle(g) + gtail;
  }

  lemma GroupLinesUnbroken(g: Group)
    requires forall l :: l in RawLines(g) ==> '\n' !in l
    ensures forall l :: l in GroupLines(g) ==> '\n' !in l
  {
    PaddedRawLines(g);
    var lines := GroupLines(g);
    forall l | l in lines
      ensures '\n' !in l
    {
      var k :| 0 <= k < |lines| && lines[k] == l;
      assert RawLines(g)[k] in RawLines(g);
      NoBreak("    ", RawLines(g)[k]);
    }
  }

  /** Lines 94-104: a group whose name and members hold no line break prints
      as exactly the lines of `GroupLines`. */
  lemma GroupLayout(g: Group)
    requires '\n' !in g.name
    requires forall v :: v in g.members ==> '\n' !in v
    ensures Indent(TypesText(g)) == Join(GroupLines(g), "\n")
    ensures Split(Indent(TypesText(g)), '\n') == GroupLines(g)
  {
    var raw := RawLines(g);
    TypesTextLines(g);
    RawLinesUnbroken(g);
    SplitJoin(raw, '\n');
    PaddedRawLines(g);
    assert seq(|raw|, k requires 0 <= k < |raw| => "    " + raw[k]) == GroupLines(g);
    GroupLinesUnbroken(g);
    SplitJoin(GroupLines(g), '\n');
  }
}
