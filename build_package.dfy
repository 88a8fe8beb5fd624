/** The package builder of src/buildPackage.ts: from a document's text and the
    user's selections it synthesises a `package.xml`, or nothing when the
    selections hold no `<types>` block and no `<members>` tag.

    The functions below are the specification, stage by stage: regular
    expression scans, the candidate groups each selection yields, the merge by
    type name, and the exact output text. The methods after them follow the
    source's loops and are proved to compute `Build`. */
module BuildPackage {
  import opened Text

  /** A selection `{start, end}` as character offsets: the half-open [start, end). */
  datatype Range = Range(start: int, end: int)

  /** The offsets [start, end) of one regular-expression match. */
  datatype Span = Span(start: nat, end: nat)

  /** One `<types>` group: a type name and its member values. Both the
      intermediate candidates and the merged output are groups. */
  datatype Group = Group(name: string, members: seq<string>)

  const TypesOpen := "<types>"
  const TypesClose := "</types>"
  const MembersOpen := "<members>"
  const MembersClose := "</members>"
  const NameOpen := "<name>"
  const NameClose := "</name>"

  /** The names JavaScript objects inherit from `Object.prototype`; used as keys
      of the plain object `membersByName` they make the merge throw a TypeError. */
  const ObjectPrototypeKeys: set<string> := {
    "constructor", "__proto__", "__defineGetter__", "__defineSetter__",
    "__lookupGetter__", "__lookupSetter__", "hasOwnProperty", "isPrototypeOf",
    "propertyIsEnumerable", "toLocaleString", "toString", "valueOf"}

  // ---------------------------------------------------------------------
  // Regular-expression scans

  /** `/<open>[\s\S]*?<close>/i` can match at offset `i`: `open` is there
      and `close` occurs somewhere after it (letters without case). */
  predicate MatchesAt(s: string, i: nat, open: string, close: string)
  {
    StartsCI(s, i, open) && FindCI(s, close, i + |open|).Some?
  }

  /** The match at `i`: the lazy `[\s\S]*?` stops at the first `close`. */
  function MatchAt(s: string, i: nat, open: string, close: string): (m: Span)
    requires MatchesAt(s, i, open, close)
    ensures m.start == i && i + |open| + |close| <= m.end <= |s|
    ensures StartsCI(s, m.end - |close|, close)
  {
    Span(i, FindCI(s, close, i + |open|).value + |close|)
  }

  /** A span of `s` that is a match of the pattern, as the scan reports it. */
  predicate IsMatch(s: string, m: Span, open: string, close: string)
  {
    MatchesAt(s, m.start, open, close) && m == MatchAt(s, m.start, open, close)
  }

  /** One `exec` of the global pattern with `lastIndex == from`: the match at
      the first offset from `from` on where one exists. */
  function NextMatch(s: string, open: string, close: string, from: nat): (m: Option<Span>)
    ensures m.Some? ==> from <= m.value.start && IsMatch(s, m.value, open, close)
    ensures m.Some? ==> forall k :: from <= k < m.value.start ==> !MatchesAt(s, k, open, close)
    ensures m.None? ==> forall k :: from <= k ==> !MatchesAt(s, k, open, close)
    decreases |s| - from
  {
    if from > |s| then None
    else if MatchesAt(s, from, open, close) then Some(MatchAt(s, from, open, close))
    else NextMatch(s, open, close, from + 1)
  }

  /** Every match from `from` on, as `matchAll` (or repeated `exec`) reports
      them: left to right, each scan resuming where the last match ended, so
      the matches are disjoint and in increasing order. */
  function MatchesFrom(s: string, open: string, close: string, from: nat): (ms: seq<Span>)
    requires |open| > 0
    ensures forall k :: 0 <= k < |ms| ==> from <= ms[k].start && IsMatch(s, ms[k], open, close)
    ensures forall j, k :: 0 <= j < k < |ms| ==> ms[j].end <= ms[k].start
    decreases |s| - from
  {
    match NextMatch(s, open, close, from)
    case None => []
    case Some(m) =>
      var rest := MatchesFrom(s, open, close, m.end);
      MatchesCons(s, open, close, from, m, rest);
      [m] + rest
  }

  /** Offset `k` lies inside one of the spans. */
  predicate Covered(ms: seq<Span>, k: int)
  {
    exists j :: 0 <= j < |ms| && ms[j].start <= k < ms[j].end
  }

  /** `matchAll` misses nothing: every offset at or after `from` where the
      pattern matches lies inside one of the reported matches (the leftmost
      one reported, or one the later scan reports). */
  lemma {:induction false} MatchesComplete(s: string, open: string, close: string, from: nat, k: nat)
    requires |open| > 0
    requires from <= k && MatchesAt(s, k, open, close)
    ensures Covered(MatchesFrom(s, open, close, from), k)
    decreases |s| - from
  {
    var ms := MatchesFrom(s, open, close, from);
    match NextMatch(s, open, close, from)
    case Some(m) =>
      if k < m.end {
        assert ms[0] == m;
      } else {
        var rest := MatchesFrom(s, open, close, m.end);
        MatchesComplete(s, open, close, m.end, k);
        var j :| 0 <= j < |rest| && rest[j].start <= k < rest[j].end;
        assert ms[j + 1] == rest[j];
      }
  }

  /** A match followed by the matches after its end is again an ordered run
      of disjoint matches. */
  lemma MatchesCons(s: string, open: string, close: string, from: nat, m: Span, rest: seq<Span>)
    requires from <= m.start <= m.end && IsMatch(s, m, open, close)
    requires forall k :: 0 <= k < |rest| ==> m.end <= rest[k].start && IsMatch(s, rest[k], open, close)
    requires forall j, k :: 0 <= j < k < |rest| ==> rest[j].end <= rest[k].start
    ensures forall k :: 0 <= k < |[m] + rest| ==> from <= ([m] + rest)[k].start && IsMatch(s, ([m] + rest)[k], open, close)
    ensures forall j, k :: 0 <= j < k < |[m] + rest| ==> ([m] + rest)[j].end <= ([m] + rest)[k].start
  {
    var ms := [m] + rest;
    forall k | 0 <= k < |ms| ensures from <= ms[k].start && IsMatch(s, ms[k], open, close) {
      if k > 0 { assert ms[k] == rest[k - 1]; }
    }
    ConsOrdered(m, rest);
  }

  lemma ConsOrdered(m: Span, rest: seq<Span>)
    requires m.start <= m.end
    requires forall k :: 0 <= k < |rest| ==> m.end <= rest[k].start
    requires forall j, k :: 0 <= j < k < |rest| ==> rest[j].end <= rest[k].start
    ensures forall j, k :: 0 <= j < k < |[m] + rest| ==> ([m] + rest)[j].end <= ([m] + rest)[k].start
  {
    var ms := [m] + rest;
    forall j, k | 0 <= j < k < |ms| ensures ms[j].end <= ms[k].start {
      assert ms[k] == rest[k - 1];
      if j > 0 { assert ms[j] == rest[j - 1]; }
    }
  }

  /** Every span lies in `s` and leaves room for both delimiters. */
  predicate Fit(s: string, spans: seq<Span>, open: string, close: string)
  {
    forall k :: 0 <= k < |spans| ==> spans[k].start + |open| + |close| <= spans[k].end <= |s|
  }

  lemma MatchesFit(s: string, open: string, close: string, from: nat)
    requires |open| > 0
    ensures Fit(s, MatchesFrom(s, open, close, from), open, close)
  {
    var ms := MatchesFrom(s, open, close, from);
    forall k | 0 <= k < |ms|
      ensures ms[k].start + |open| + |close| <= ms[k].end <= |s|
    {
      assert IsMatch(s, ms[k], open, close);
    }
  }

  /** Line 6: the `<types>…</types>` blocks of a text; each lies in the text
      and spans at least its two delimiters. */
  function TypeBlocks(s: string): (bs: seq<Span>)
    ensures Fit(s, bs, TypesOpen, TypesClose)
    ensures forall i, j :: 0 <= i < j < |bs| ==> bs[i].end <= bs[j].start
  {
    MatchesFit(s, TypesOpen, TypesClose, 0);
    MatchesFrom(s, TypesOpen, TypesClose, 0)
  }

  /** Lines 22 and 31: the `<members>…</members>` tags of a text; each lies
      in the text and spans at least its two delimiters. */
  function MemberTags(s: string): (ms: seq<Span>)
    ensures Fit(s, ms, MembersOpen, MembersClose)
  {
    MatchesFit(s, MembersOpen, MembersClose, 0);
    MatchesFrom(s, MembersOpen, MembersClose, 0)
  }

  /** Line 6: no `<types>` block is missed; every offset where one matches
      lies inside a reported block. */
  lemma TypeBlocksComplete(s: string, k: nat)
    requires MatchesAt(s, k, TypesOpen, TypesClose)
    ensures Covered(TypeBlocks(s), k)
  {
    MatchesComplete(s, TypesOpen, TypesClose, 0, k);
  }

  /** Lines 22 and 31: no `<members>` tag is missed. */
  lemma MemberTagsComplete(s: string, k: nat)
    requires MatchesAt(s, k, MembersOpen, MembersClose)
    ensures Covered(MemberTags(s), k)
  {
    MatchesComplete(s, MembersOpen, MembersClose, 0, k);
  }

  /** The value of a member tag: `\s*([\s\S]*?)\s*` captures the text between
      the delimiters without surrounding white space, and `trim` keeps it so. */
  function MemberValue(s: string, m: Span): string
    requires m.start + |MembersOpen| + |MembersClose| <= m.end <= |s|
  {
    Trim(s[m.start + |MembersOpen|..m.end - |MembersClose|])
  }

  /** Plumbing for `Build`: the value of each member tag, in order. */
  function TagValues(s: string, tags: seq<Span>): (vs: seq<string>)
    requires Fit(s, tags, MembersOpen, MembersClose)
    ensures |vs| == |tags|
    ensures forall k :: 0 <= k < |vs| ==> vs[k] == MemberValue(s, tags[k])
  {
    seq(|tags|, k requires 0 <= k < |tags| => MemberValue(s, tags[k]))
  }

  /** `/<name>\s*([^<]*)\s*<\/name>/i` tried at offset `i`: `<name>` is
      there and the first `<` after it begins `</name>`; the value is the
      trimmed text in between, which therefore holds no `<`. */
  function NameAt(s: string, i: nat): (r: Option<string>)
    ensures r.Some? ==> '<' !in r.value && IsTrimmed(r.value)
  {
    if !StartsCI(s, i, NameOpen) then None
    else match FindChar(s, '<', i + |NameOpen|)
      case None => None
      case Some(q) =>
        if StartsCI(s, q, NameClose) then
          var inner := s[i + |NameOpen|..q];
          assert '<' !in inner by {
            forall k | 0 <= k < |inner| ensures inner[k] != '<' {
              assert inner[k] == s[i + |NameOpen| + k];
            }
          }
          Some(Trim(inner))
        else None
  }

  /** No `<name>` match at an offset in `[from, to)`. */
  predicate NoNameBetween(s: string, from: nat, to: nat)
  {
    forall j :: from <= j < to ==> NameAt(s, j).None?
  }

  /** `exec` of the name pattern from offset `from` on: the value read at the
      first offset where the pattern matches, or none when it matches at no
      offset there. */
  function FirstNameFrom(s: string, from: nat): (r: Option<string>)
    ensures r.Some? ==> '<' !in r.value && IsTrimmed(r.value)
    ensures r.Some? ==> exists k :: from <= k <= |s| && NameAt(s, k) == r && NoNameBetween(s, from, k)
    ensures r.None? ==> NoNameBetween(s, from, |s| + 1)
    decreases |s| - from
  {
    if from > |s| then None
    else match NameAt(s, from)
      case Some(v) =>
        assert NameAt(s, from) == Some(v) && NoNameBetween(s, from, from);
        Some(v)
      case None =>
        var r := FirstNameFrom(s, from + 1);
        assert r.Some? ==> exists k :: from <= k <= |s| && NameAt(s, k) == r && NoNameBetween(s, from, k) by {
          if r.Some? {
            var k :| from + 1 <= k <= |s| && NameAt(s, k) == r && NoNameBetween(s, from + 1, k);
            NoNameExtend(s, from, k);
          }
        }
        assert r.None? ==> NoNameBetween(s, from, |s| + 1) by {
          if r.None? {
            NoNameExtend(s, from, |s| + 1);
          }
        }
        r
  }

  lemma NoNameExtend(s: string, from: nat, to: nat)
    requires from < to && NameAt(s, from).None? && NoNameBetween(s, from + 1, to)
    ensures NoNameBetween(s, from, to)
  {
    forall j | from <= j < to ensures NameAt(s, j).None? {
      if j > from {
        assert from + 1 <= j;
      }
    }
  }

  /** Lines 24-25, 48-49, 52-53 and 76-77: the value of the first `<name>`
      in a text, or "" when the pattern matches nowhere in it. */
  function NameValue(s: string): (r: string)
    ensures '<' !in r && IsTrimmed(r)
    ensures (exists k :: 0 <= k <= |s| && NameAt(s, k) == Some(r) && NoNameBetween(s, 0, k))
            || (r == "" && NoNameBetween(s, 0, |s| + 1))
  {
    FirstNameFrom(s, 0).GetOr("")
  }

  // ---------------------------------------------------------------------
  // Candidates of one selection

  predicate Within(m: Span, r: Range)
  {
    r.start <= m.start && m.end <= r.end
  }

  predicate Encloses(outer: Span, inner: Span)
  {
    outer.start <= inner.start && inner.end <= outer.end
  }

  predicate BlocksIn(doc: string, blocks: seq<Span>)
  {
    forall k :: 0 <= k < |blocks| ==> blocks[k].start <= blocks[k].end <= |doc|
  }

  function BlockText(doc: string, t: Span): string
    requires t.start <= t.end <= |doc|
  {
    doc[t.start..t.end]
  }

  /** Lines 21-28: a block selected whole yields its first name and the
      values of all the member tags in its text. */
  function BlockGroup(doc: string, t: Span): Group
    requires t.start <= t.end <= |doc|
  {
    var text := BlockText(doc, t);
    Group(NameValue(text), TagValues(text, MemberTags(text)))
  }

  /** Lines 19-30: the groups of the blocks lying wholly inside `r`, in
      document order. */
  function WholeBlocks(doc: string, blocks: seq<Span>, r: Range): seq<Group>
    requires BlocksIn(doc, blocks)
  {
    if |blocks| == 0 then []
    else
      var t := blocks[|blocks| - 1];
      WholeBlocks(doc, blocks[..|blocks| - 1], r)
        + if Within(t, r) then [BlockGroup(doc, t)] else []
  }

  /** Lines 37-43: `some` block that `r` selects whole encloses the tag. */
  predicate InsideIncluded(blocks: seq<Span>, r: Range, m: Span)
  {
    |blocks| > 0 && ((Within(blocks[0], r) && Encloses(blocks[0], m)) || InsideIncluded(blocks[1..], r, m))
  }

  /** Line 46: the first block, in document order, enclosing the tag. */
  function FirstEnclosing(blocks: seq<Span>, m: Span): (r: Option<Span>)
    ensures r.Some? ==> r.value in blocks && Encloses(r.value, m)
    ensures r.None? ==> forall t :: t in blocks ==> !Encloses(t, m)
  {
    if |blocks| == 0 then None
    else if Encloses(blocks[0], m) then Some(blocks[0])
    else FirstEnclosing(blocks[1..], m)
  }

  /** Lines 45-54: a loose tag takes the name of its enclosing block, else the
      first name after the tag's end, else "". */
  function ResolveName(doc: string, blocks: seq<Span>, m: Span): string
    requires BlocksIn(doc, blocks) && m.end <= |doc|
  {
    match FirstEnclosing(blocks, m)
    case Some(t) => NameValue(BlockText(doc, t))
    case None => NameValue(doc[m.end..])
  }

  /** A member tag of the document with the type name it resolves to and
      its value. */
  datatype Tag = Tag(span: Span, name: string, value: string)

  /** Lines 45-59: the tags of the document, each with its resolved name and
      its value. The name and value do not depend on the selection. */
  function ResolvedTags(doc: string, blocks: seq<Span>, tags: seq<Span>): (ts: seq<Tag>)
    requires BlocksIn(doc, blocks) && Fit(doc, tags, MembersOpen, MembersClose)
    ensures |ts| == |tags|
    ensures forall k :: 0 <= k < |ts| ==> ts[k].span == tags[k]
  {
    seq(|tags|, k requires 0 <= k < |tags| => Resolve(doc, blocks, tags[k]))
  }

  function Resolve(doc: string, blocks: seq<Span>, m: Span): Tag
    requires BlocksIn(doc, blocks) && m.start + |MembersOpen| + |MembersClose| <= m.end <= |doc|
  {
    Tag(m, ResolveName(doc, blocks, m), MemberValue(doc, m))
  }

  /** Lines 31-61: each tag inside `r` and not inside a block `r` selects
      whole, as a one-member group under its resolved name, in scan order. */
  function LooseMembers(blocks: seq<Span>, ts: seq<Tag>, r: Range): seq<Group>
  {
    if |ts| == 0 then []
    else
      var t := ts[|ts| - 1];
      LooseMembers(blocks, ts[..|ts| - 1], r)
        + if Within(t.span, r) && !InsideIncluded(blocks, r, t.span)
          then [Group(t.name, [t.value])]
          else []
  }

  // ---------------------------------------------------------------------
  // Grouping by name

  /** The elements of `xs` without repetitions, each at its first occurrence. */
  function Dedup<T(==)>(xs: seq<T>): seq<T>
  {
    if |xs| == 0 then []
    else
      var d := Dedup(xs[..|xs| - 1]);
      if xs[|xs| - 1] in d then d else d + [xs[|xs| - 1]]
  }

  function Names(gs: seq<Group>): seq<string>
  {
    if |gs| == 0 then [] else Names(gs[..|gs| - 1]) + [gs[|gs| - 1].name]
  }

  /** All member values of the groups named `n`, in order. */
  function ValuesOf(gs: seq<Group>, n: string): seq<string>
  {
    if |gs| == 0 then []
    else
      ValuesOf(gs[..|gs| - 1], n)
        + if gs[|gs| - 1].name == n then gs[|gs| - 1].members else []
  }

  /** Lines 55-59 and 64-69: one group per distinct name, in first-seen order
      (the insertion order of a JavaScript `Map`), holding every value filed
      under that name. */
  function GroupByName(gs: seq<Group>): seq<Group>
  {
    var ns := Dedup(Names(gs));
    seq(|ns|, k requires 0 <= k < |ns| => Group(ns[k], ValuesOf(gs, ns[k])))
  }

  /** Lines 15-18: the candidates of one selection: its whole blocks, then its
      loose members grouped by name; nothing for an empty or inverted one. */
  function RangeGroups(doc: string, blocks: seq<Span>, ts: seq<Tag>, r: Range): seq<Group>
    requires BlocksIn(doc, blocks)
  {
    if r.end <= r.start then []
    else WholeBlocks(doc, blocks, r) + GroupByName(LooseMembers(blocks, ts, r))
  }

  /** Plumbing for `Build`: the groups of each selection, one list per
      selection. */
  function Selections(doc: string, blocks: seq<Span>, ts: seq<Tag>, rs: seq<Range>): (gss: seq<seq<Group>>)
    requires BlocksIn(doc, blocks)
    ensures |gss| == |rs|
    ensures forall i :: 0 <= i < |rs| ==> gss[i] == RangeGroups(doc, blocks, ts, rs[i])
  {
    seq(|rs|, i requires 0 <= i < |rs| => RangeGroups(doc, blocks, ts, rs[i]))
  }

  /** The lists one after another. */
  function Flatten<T>(xss: seq<seq<T>>): seq<T>
  {
    if |xss| == 0 then [] else Flatten(xss[..|xss| - 1]) + xss[|xss| - 1]
  }

  /** Every member tag of the document, resolved against its type blocks. */
  function DocTags(doc: string): seq<Tag>
  {
    ResolvedTags(doc, TypeBlocks(doc), MemberTags(doc))
  }

  /** The candidate groups of all selections, in the order given. */
  function Candidates(doc: string, ranges: seq<Range>): seq<Group>
  {
    Flatten(Selections(doc, TypeBlocks(doc), DocTags(doc), ranges))
  }

  // ---------------------------------------------------------------------
  // Merge and output

  /** Lines 80-84: re-reading a member with `[^<]*` and `if (m)` keeps only
      non-empty values without a `<`. */
  predicate Kept(v: string)
  {
    v != "" && '<' !in v
  }

  function KeptValues(vs: seq<string>): seq<string>
  {
    if |vs| == 0 then []
    else KeptValues(vs[..|vs| - 1]) + if Kept(vs[|vs| - 1]) then [vs[|vs| - 1]] else []
  }

  /** Lines 73-90: one group per distinct name in first-seen order; its members
      are the kept values filed under that name, each once, in first-seen
      order. */
  function Merge(cands: seq<Group>): seq<Group>
  {
    var ns := Dedup(Names(cands));
    seq(|ns|, k requires 0 <= k < |ns| => Group(ns[k], Dedup(KeptValues(ValuesOf(cands, ns[k])))))
  }

  const Header := "<?xml version=\"1.0\" encoding=\"UTF-8\" standalone=\"yes\"?>\n"
    + "<Package xmlns=\"http://soap.sforce.com/2006/04/metadata\">\n"
  const Footer := "\n    <version>64.0</version>\n</Package>\n"

  function MemberLine(v: string): string
  {
    "<members>" + v + "</members>"
  }

  /** Line 95: an empty name prints as `<name></name>`. */
  function NameTag(n: string): string
  {
    "<name>" + n + "</name>"
  }

  /** Lines 94-96: one merged group as text, before indentation. */
  function TypesText(g: Group): string
  {
    var lines := seq(|g.members|, k requires 0 <= k < |g.members| => MemberLine(g.members[k]));
    "<types>\n    " + Join(lines, "\n    ") + "\n    " + NameTag(g.name) + "\n</types>"
  }

  /** Lines 101-104: four spaces before every line. */
  function Indent(s: string): string
  {
    var lines := Split(s, '\n');
    Join(seq(|lines|, k requires 0 <= k < |lines| => "    " + lines[k]), "\n")
  }

  /** Lines 99-107: the indented groups between the fixed head and tail. */
  function Render(groups: seq<Group>): string
  {
    Header
      + Join(seq(|groups|, k requires 0 <= k < |groups| => Indent(TypesText(groups[k]))), "\n")
      + Footer
  }

  /** `buildPackageFromText`: nothing when no selection yields a candidate,
      otherwise the package of the merged candidates. */
  function Build(doc: string, ranges: seq<Range>): Option<string>
  {
    var cands := Candidates(doc, ranges);
    if |cands| == 0 then None else Some(Render(Merge(cands)))
  }

  // ---------------------------------------------------------------------
  // Facts the loops below rely on

  lemma {:induction false} DedupMem<T>(xs: seq<T>, x: T)
    ensures x in Dedup(xs) <==> x in xs
  {
    if |xs| > 0 {
      var p := xs[..|xs| - 1];
      DedupMem(p, x);
      assert xs == p + [xs[|xs| - 1]];
    }
  }

  lemma DedupSnoc<T>(xs: seq<T>, x: T)
    ensures Dedup(xs + [x]) == if x in Dedup(xs) then Dedup(xs) else Dedup(xs) + [x]
  {
    assert (xs + [x])[..|xs|] == xs;
  }

  lemma {:induction false} ValuesOfAbsent(gs: seq<Group>, n: string)
    requires n !in Names(gs)
    ensures ValuesOf(gs, n) == []
  {
    if |gs| > 0 {
      ValuesOfAbsent(gs[..|gs| - 1], n);
    }
  }

  lemma {:induction false} KeptValuesAppend(a: seq<string>, b: seq<string>)
    ensures KeptValues(a + b) == KeptValues(a) + KeptValues(b)
    decreases |b|
  {
    if |b| > 0 {
      var b' := b[..|b| - 1];
      assert (a + b)[..|a + b| - 1] == a + b';
      KeptValuesAppend(a, b');
    } else {
      assert a + b == a;
    }
  }

  /** `order` and `byName` are a JavaScript `Map` from each name of `gs` to
      all the values filed under it; `order` is the map's insertion order. */
  ghost predicate MapOf(order: seq<string>, byName: map<string, seq<string>>, gs: seq<Group>)
  {
    && order == Dedup(Names(gs))
    && (forall n :: n in byName <==> n in order)
    && (forall n :: n in byName ==> byName[n] == ValuesOf(gs, n))
  }

  /** `get(name) ?? []`, push, `set`: the map then describes one more group. */
  lemma MapOfSnoc(order: seq<string>, byName: map<string, seq<string>>, gs: seq<Group>, g: Group)
    requires MapOf(order, byName, gs)
    ensures MapOf(if g.name in order then order else order + [g.name],
                  byName[g.name := (if g.name in byName then byName[g.name] else []) + g.members],
                  gs + [g])
  {
    var order' := if g.name in order then order else order + [g.name];
    var b' := byName[g.name := (if g.name in byName then byName[g.name] else []) + g.members];
    assert order' == Dedup(Names(gs + [g])) by {
      NamesSnoc(gs, g);
      DedupSnoc(Names(gs), g.name);
    }
    assert forall n :: n in b' <==> n in order' by {
      forall n ensures n in b' <==> n in order' {
        if n != g.name {
          assert n in order' <==> n in order;
        }
      }
    }
    assert forall n :: n in b' ==> b'[n] == ValuesOf(gs + [g], n) by {
      forall n | n in b'
        ensures b'[n] == ValuesOf(gs + [g], n)
      {
        MapEntry(order, byName, gs, g, n);
      }
    }
  }

  lemma MapEntry(order: seq<string>, byName: map<string, seq<string>>, gs: seq<Group>, g: Group, n: string)
    requires MapOf(order, byName, gs)
    requires n in byName || n == g.name
    ensures byName[g.name := (if g.name in byName then byName[g.name] else []) + g.members][n]
            == ValuesOf(gs + [g], n)
  {
    ValuesOfSnoc(gs, g, n);
    if n == g.name {
      if g.name !in byName {
        DedupMem(Names(gs), g.name);
        ValuesOfAbsent(gs, g.name);
      }
    } else {
      assert ValuesOf(gs, n) + [] == ValuesOf(gs, n);
    }
  }

  lemma ResolvedTagsSnoc(doc: string, blocks: seq<Span>, tags: seq<Span>, m: Span)
    requires BlocksIn(doc, blocks) && Fit(doc, tags, MembersOpen, MembersClose)
    requires m.start + |MembersOpen| + |MembersClose| <= m.end <= |doc|
    ensures Fit(doc, tags + [m], MembersOpen, MembersClose)
    ensures ResolvedTags(doc, blocks, tags + [m])
      == ResolvedTags(doc, blocks, tags) + [Tag(m, ResolveName(doc, blocks, m), MemberValue(doc, m))]
  {
    FitSnoc(doc, tags, MembersOpen, MembersClose, m);
    var more := tags + [m];
    var longer := ResolvedTags(doc, blocks, more);
    var shorter := ResolvedTags(doc, blocks, tags);
    forall k | 0 <= k < |tags|
      ensures longer[k] == shorter[k]
    {
      assert more[k] == tags[k];
      assert longer[k] == Resolve(doc, blocks, more[k]);
      assert shorter[k] == Resolve(doc, blocks, tags[k]);
    }
    assert longer[|tags|] == Resolve(doc, blocks, m);
    SnocEqual(longer, shorter, Resolve(doc, blocks, m));
  }

  lemma SameElements<T>(xs: seq<T>, ys: seq<T>)
    requires |xs| == |ys|
    requires forall k :: 0 <= k < |xs| ==> xs[k] == ys[k]
    ensures xs == ys
  {
  }

  lemma SnocEqual<T>(xs: seq<T>, ys: seq<T>, y: T)
    requires |xs| == |ys| + 1 && xs[|ys|] == y
    requires forall k :: 0 <= k < |ys| ==> xs[k] == ys[k]
    ensures xs == ys + [y]
  {
  }

  lemma FitSnoc(s: string, spans: seq<Span>, open: string, close: string, m: Span)
    requires Fit(s, spans, open, close)
    requires m.start + |open| + |close| <= m.end <= |s|
    ensures Fit(s, spans + [m], open, close)
  {
    var more := spans + [m];
    forall k | 0 <= k < |more|
      ensures more[k].start + |open| + |close| <= more[k].end <= |s|
    {
      if k < |spans| {
        assert more[k] == spans[k];
      }
    }
  }

  lemma LooseMembersSnoc(blocks: seq<Span>, ts: seq<Tag>, t: Tag, r: Range)
    ensures LooseMembers(blocks, ts + [t], r)
      == LooseMembers(blocks, ts, r)
        + if Within(t.span, r) && !InsideIncluded(blocks, r, t.span) then [Group(t.name, [t.value])] else []
  {
    assert (ts + [t])[..|ts|] == ts;
  }

  /** `nameOrder` and `membersByName` after merging the groups `bs`. */
  ghost predicate MergedOf(nameOrder: seq<string>, membersByName: map<string, seq<string>>, bs: seq<Group>)
  {
    && nameOrder == Dedup(Names(bs))
    && (forall n :: n in membersByName <==> n in nameOrder)
    && (forall n :: n in membersByName ==> membersByName[n] == Dedup(KeptValues(ValuesOf(bs, n))))
  }

  lemma NamesSnoc(gs: seq<Group>, g: Group)
    ensures Names(gs + [g]) == Names(gs) + [g.name]
  {
    assert (gs + [g])[..|gs|] == gs;
  }

  lemma ValuesOfSnoc(gs: seq<Group>, g: Group, n: string)
    ensures ValuesOf(gs + [g], n) == ValuesOf(gs, n) + if g.name == n then g.members else []
  {
    assert (gs + [g])[..|gs|] == gs;
  }

  lemma MergedOfSnoc(nameOrder: seq<string>, membersByName: map<string, seq<string>>, bs: seq<Group>,
                     b: Group, list: seq<string>)
    requires MergedOf(nameOrder, membersByName, bs)
    requires list == Dedup(KeptValues(ValuesOf(bs, b.name)) + KeptValues(b.members))
    ensures MergedOf(if b.name in nameOrder then nameOrder else nameOrder + [b.name],
                     membersByName[b.name := list], bs + [b])
  {
    var order' := if b.name in nameOrder then nameOrder else nameOrder + [b.name];
    var m' := membersByName[b.name := list];
    assert order' == Dedup(Names(bs + [b])) by {
      NamesSnoc(bs, b);
      DedupSnoc(Names(bs), b.name);
    }
    assert forall n :: n in m' <==> n in order' by {
      forall n ensures n in m' <==> n in order' {
        if n != b.name {
          assert n in order' <==> n in nameOrder;
        }
      }
    }
    assert forall n :: n in m' ==> m'[n] == Dedup(KeptValues(ValuesOf(bs + [b], n))) by {
      forall n | n in m'
        ensures m'[n] == Dedup(KeptValues(ValuesOf(bs + [b], n)))
      {
        MergedEntry(membersByName, bs, b, list, n);
      }
    }
  }

  lemma MergedEntry(membersByName: map<string, seq<string>>, bs: seq<Group>, b: Group, list: seq<string>, n: string)
    requires forall n :: n in membersByName ==> membersByName[n] == Dedup(KeptValues(ValuesOf(bs, n)))
    requires list == Dedup(KeptValues(ValuesOf(bs, b.name)) + KeptValues(b.members))
    requires n in membersByName[b.name := list]
    ensures membersByName[b.name := list][n] == Dedup(KeptValues(ValuesOf(bs + [b], n)))
  {
    ValuesOfSnoc(bs, b, n);
    if n == b.name {
      KeptValuesAppend(ValuesOf(bs, b.name), b.members);
    } else {
      assert ValuesOf(bs + [b], n) == ValuesOf(bs, n) + [];
      assert ValuesOf(bs, n) + [] == ValuesOf(bs, n);
    }
  }

  lemma MergeOfMerged(nameOrder: seq<string>, membersByName: map<string, seq<string>>, bs: seq<Group>)
    requires MergedOf(nameOrder, membersByName, bs)
    ensures Merge(bs) == seq(|nameOrder|, k requires 0 <= k < |nameOrder| => Group(nameOrder[k], membersByName[nameOrder[k]]))
  {
  }

  // ---------------------------------------------------------------------
  // The source's loops

  /** Repeated `exec` of a global pattern (and `matchAll`): each call resumes
      at `lastIndex`, the end of the previous match. */
  method ScanAll(s: string, open: string, close: string) returns (ms: seq<Span>)
    requires |open| > 0
    ensures ms == MatchesFrom(s, open, close, 0)
  {
    ms := [];
    var lastIndex: nat := 0;
    while true
      invariant lastIndex <= |s|
      invariant ms + MatchesFrom(s, open, close, lastIndex) == MatchesFrom(s, open, close, 0)
      decreases |s| - lastIndex
    {
      var mm := NextMatch(s, open, close, lastIndex);
      if mm.None? {
        break;
      }
      ms := ms + [mm.value];
      lastIndex := mm.value.end;
    }
  }

  /** One more `exec`: the match found moves from the rest of the scan to the
      matches seen so far, and the scan resumes at its end. */
  lemma ScanStep(s: string, open: string, close: string, seen: seq<Span>, from: nat)
    requires |open| > 0 && NextMatch(s, open, close, from).Some?
    ensures var m := NextMatch(s, open, close, from).value;
      seen + MatchesFrom(s, open, close, from) == (seen + [m]) + MatchesFrom(s, open, close, m.end)
  {
  }

  /** Lines 19-30: the groups of the blocks `sel` selects whole. */
  method WholeBlockGroups(doc: string, blocks: seq<Span>, sel: Range) returns (out: seq<Group>)
    requires BlocksIn(doc, blocks)
    ensures out == WholeBlocks(doc, blocks, sel)
  {
    out := [];
    for i := 0 to |blocks|
      invariant out == WholeBlocks(doc, blocks[..i], sel)
    {
      assert blocks[..i + 1][..i] == blocks[..i];
      var t := blocks[i];
      if t.start >= sel.start && t.end <= sel.end {
        var text := doc[t.start..t.end];
        var tags := ScanAll(text, MembersOpen, MembersClose);
        MatchesFit(text, MembersOpen, MembersClose, 0);
        var members := TagValues(text, tags);
        var nameVal := NameValue(text);
        out := out + [Group(nameVal, members)];
      }
    }
    assert blocks[..|blocks|] == blocks;
  }

  /** Lines 31-70: scan the whole document for member tags; each one inside
      `sel` and not in a block `sel` selects whole is filed under its resolved
      name in a per-selection map, whose entries become groups in insertion
      order. The map is the pair `order` (its key order) and `byName`. */
  method LooseGroups(doc: string, blocks: seq<Span>, sel: Range) returns (out: seq<Group>)
    requires BlocksIn(doc, blocks)
    ensures out == GroupByName(LooseMembers(blocks, ResolvedTags(doc, blocks, MemberTags(doc)), sel))
  {
    var order: seq<string> := [];
    var byName: map<string, seq<string>> := map[];
    ghost var seen: seq<Span> := [];
    ghost var filed: seq<Group> := [];
    var lastIndex: nat := 0;
    while true
      invariant lastIndex <= |doc|
      invariant seen + MatchesFrom(doc, MembersOpen, MembersClose, lastIndex) == MemberTags(doc)
      invariant Fit(doc, seen, MembersOpen, MembersClose)
      invariant filed == LooseMembers(blocks, ResolvedTags(doc, blocks, seen), sel)
      invariant MapOf(order, byName, filed)
      decreases |doc| - lastIndex
    {
      var mm := NextMatch(doc, MembersOpen, MembersClose, lastIndex);
      if mm.None? {
        assert MatchesFrom(doc, MembersOpen, MembersClose, lastIndex) == [];
        assert seen + [] == seen;
        break;
      }
      var m := mm.value;
      ScanStep(doc, MembersOpen, MembersClose, seen, lastIndex);
      ResolvedTagsSnoc(doc, blocks, seen, m);
      LooseMembersSnoc(blocks, ResolvedTags(doc, blocks, seen), Tag(m, ResolveName(doc, blocks, m), MemberValue(doc, m)), sel);
      seen := seen + [m];
      lastIndex := m.end;
      if m.start >= sel.start && m.end <= sel.end {
        var insideIncluded := InsideIncluded(blocks, sel, m);
        if !insideIncluded {
          var nameVal := ResolveName(doc, blocks, m);
          var value := MemberValue(doc, m);
          order, byName := FileMember(order, byName, filed, nameVal, value);
          filed := filed + [Group(nameVal, [value])];
        }
      }
    }
    assert seen == MemberTags(doc);
    assert filed == LooseMembers(blocks, ResolvedTags(doc, blocks, MemberTags(doc)), sel);
    out := EmitGroups(order, byName, filed);
  }

  /** Lines 62-70: one group per map entry, in insertion order. */
  method EmitGroups(order: seq<string>, byName: map<string, seq<string>>, ghost filed: seq<Group>)
    returns (out: seq<Group>)
    requires MapOf(order, byName, filed)
    ensures out == GroupByName(filed)
  {
    ghost var groups := GroupByName(filed);
    out := [];
    for k := 0 to |order|
      invariant out == groups[..k]
    {
      EmitStep(order, byName, filed, k);
      out := out + [Group(order[k], byName[order[k]])];
    }
    TakeAll(groups);
  }

  lemma EmitStep(order: seq<string>, byName: map<string, seq<string>>, filed: seq<Group>, k: nat)
    requires MapOf(order, byName, filed)
    requires k < |order|
    ensures |GroupByName(filed)| == |order|
    ensures order[k] in byName
    ensures GroupByName(filed)[..k + 1] == GroupByName(filed)[..k] + [Group(order[k], byName[order[k]])]
  {
    var groups := GroupByName(filed);
    assert order[k] in order;
    assert groups[k] == Group(order[k], byName[order[k]]);
    TakeSnoc(groups, k);
  }

  /** Lines 55-59: `get(nameVal) ?? []`, push the value, `set`. */
  method FileMember(order: seq<string>, byName: map<string, seq<string>>, ghost before: seq<Group>,
                    nameVal: string, value: string)
    returns (order': seq<string>, byName': map<string, seq<string>>)
    requires MapOf(order, byName, before)
    ensures MapOf(order', byName', before + [Group(nameVal, [value])])
  {
    MapOfSnoc(order, byName, before, Group(nameVal, [value]));
    var list := if nameVal in byName then byName[nameVal] else [];
    byName' := byName[nameVal := list + [value]];
    order' := if nameVal in order then order else order + [nameVal];
  }

  lemma FlattenSnoc<T>(xss: seq<seq<T>>, i: nat)
    requires i < |xss|
    ensures Flatten(xss[..i + 1]) == Flatten(xss[..i]) + xss[i]
  {
    assert xss[..i + 1][..i] == xss[..i];
  }

  /** Lines 5-71: the candidate groups of every selection, in order. */
  method CollectCandidates(doc: string, ranges: seq<Range>) returns (blocks: seq<Group>)
    ensures blocks == Candidates(doc, ranges)
  {
    var allTypesMatches := ScanAll(doc, TypesOpen, TypesClose);
    assert allTypesMatches == TypeBlocks(doc);
    ghost var tags := DocTags(doc);
    ghost var perRange := Selections(doc, allTypesMatches, tags, ranges);
    blocks := [];
    for i := 0 to |ranges|
      invariant blocks == Flatten(perRange[..i])
    {
      FlattenSnoc(perRange, i);
      var sel := ranges[i];
      if sel.end <= sel.start {
        assert perRange[i] == [] by {
          assert perRange[i] == RangeGroups(doc, allTypesMatches, tags, sel);
        }
        assert blocks + [] == blocks;
        continue;
      }
      var whole := WholeBlockGroups(doc, allTypesMatches, sel);
      var loose := LooseGroups(doc, allTypesMatches, sel);
      assert whole + loose == perRange[i] by {
        assert perRange[i] == RangeGroups(doc, allTypesMatches, tags, sel);
      }
      blocks := blocks + (whole + loose);
    }
    TakeAll(perRange);
    assert Candidates(doc, ranges) == Flatten(perRange);
  }

  lemma TakeSnoc<T>(xs: seq<T>, i: nat)
    requires i < |xs|
    ensures xs[..i + 1] == xs[..i] + [xs[i]]
  {
    assert xs[..i + 1][..i] == xs[..i];
  }

  lemma TakeAll<T>(xs: seq<T>)
    ensures xs[..|xs|] == xs
  {
  }

  /** Lines 81-85: the values the `[^<]*` pattern reads back, minus empty ones. */
  method KeepValues(vs: seq<string>) returns (mems: seq<string>)
    ensures mems == KeptValues(vs)
  {
    mems := [];
    for j := 0 to |vs|
      invariant mems == KeptValues(vs[..j])
    {
      assert vs[..j + 1][..j] == vs[..j];
      var m := vs[j];
      if m != "" && '<' !in m {
        mems := mems + [m];
      }
    }
    assert vs[..|vs|] == vs;
  }

  /** Lines 87-89: push each value the list does not yet include. */
  method AppendNew(list: seq<string>, mems: seq<string>, ghost prior: seq<string>) returns (r: seq<string>)
    requires list == Dedup(prior)
    ensures r == Dedup(prior + mems)
  {
    r := list;
    assert prior + mems[..0] == prior;
    for j := 0 to |mems|
      invariant r == Dedup(prior + mems[..j])
    {
      assert prior + mems[..j + 1] == (prior + mems[..j]) + [mems[j]];
      DedupSnoc(prior + mems[..j], mems[j]);
      if mems[j] !in r {
        r := r + [mems[j]];
      }
    }
    assert mems[..|mems|] == mems;
  }

  /** Lines 73-90: `nameOrder` lists each name once, in first-seen order;
      `membersByName` files under it the kept values, each once. */
  method MergeGroups(blocks: seq<Group>) returns (nameOrder: seq<string>, membersByName: map<string, seq<string>>)
    ensures MergedOf(nameOrder, membersByName, blocks)
  {
    nameOrder := [];
    membersByName := map[];
    for i := 0 to |blocks|
      invariant MergedOf(nameOrder, membersByName, blocks[..i])
    {
      assert blocks[..i + 1] == blocks[..i] + [blocks[i]];
      var b := blocks[i];
      var nameVal := b.name;
      var mems := KeepValues(b.members);
      ghost var earlier := KeptValues(ValuesOf(blocks[..i], nameVal));
      if nameVal !in membersByName {
        DedupMem(Names(blocks[..i]), nameVal);
        ValuesOfAbsent(blocks[..i], nameVal);
      }
      var list := if nameVal in membersByName then membersByName[nameVal] else [];
      list := AppendNew(list, mems, earlier);
      MergedOfSnoc(nameOrder, membersByName, blocks[..i], b, list);
      if nameVal !in nameOrder {
        nameOrder := nameOrder + [nameVal];
      }
      membersByName := membersByName[nameVal := list];
    }
    assert blocks[..|blocks|] == blocks;
  }

  /** Lines 91-107: one text block per name in `nameOrder`, indented, between
      the fixed head and tail. */
  method Serialise(nameOrder: seq<string>, membersByName: map<string, seq<string>>, ghost blocks: seq<Group>)
    returns (xml: string)
    requires MergedOf(nameOrder, membersByName, blocks)
    ensures xml == Render(Merge(blocks))
  {
    var mergedBlocks: seq<string> := [];
    for k := 0 to |nameOrder|
      invariant |mergedBlocks| == k
      invariant forall j :: 0 <= j < k ==> mergedBlocks[j] == TypesText(Group(nameOrder[j], membersByName[nameOrder[j]]))
    {
      var nm := nameOrder[k];
      var mems := membersByName[nm];
      mergedBlocks := mergedBlocks + [TypesText(Group(nm, mems))];
    }
    Rendered(nameOrder, membersByName, blocks, mergedBlocks);
    xml := Header + Join(seq(|mergedBlocks|, k requires 0 <= k < |mergedBlocks| => Indent(mergedBlocks[k])), "\n") + Footer;
  }

  /** The text blocks written for the merged names, indented and joined,
      are the rendering of the merged groups. */
  lemma Rendered(nameOrder: seq<string>, membersByName: map<string, seq<string>>, blocks: seq<Group>,
                 mergedBlocks: seq<string>)
    requires MergedOf(nameOrder, membersByName, blocks)
    requires |mergedBlocks| == |nameOrder|
    requires forall j :: 0 <= j < |nameOrder| ==> mergedBlocks[j] == TypesText(Group(nameOrder[j], membersByName[nameOrder[j]]))
    ensures Header + Join(seq(|mergedBlocks|, k requires 0 <= k < |mergedBlocks| => Indent(mergedBlocks[k])), "\n") + Footer
            == Render(Merge(blocks))
  {
    MergeOfMerged(nameOrder, membersByName, blocks);
    var indented := seq(|mergedBlocks|, k requires 0 <= k < |mergedBlocks| => Indent(mergedBlocks[k]));
    var merged := Merge(blocks);
    var expected := seq(|merged|, k requires 0 <= k < |merged| => Indent(TypesText(merged[k])));
    forall k | 0 <= k < |merged|
      ensures indented[k] == expected[k]
    {
      assert merged[k] == Group(nameOrder[k], membersByName[nameOrder[k]]);
    }
    SameElements(indented, expected);
  }

  /** `buildPackageFromText`. The source keeps `membersByName` in a plain
      object, so a type name inherited from `Object.prototype` makes it throw;
      such inputs are excluded. */
  method BuildPackageFromText(doc: string, ranges: seq<Range>) returns (r: Option<string>)
    requires forall g :: g in Candidates(doc, ranges) ==> g.name !in ObjectPrototypeKeys
    ensures r == Build(doc, ranges)
  {
    var blocks := CollectCandidates(doc, ranges);
    if |blocks| == 0 {
      return None;
    }
    var nameOrder, membersByName := MergeGroups(blocks);
    var xml := Serialise(nameOrder, membersByName, blocks);
    return Some(xml);
  }
}
