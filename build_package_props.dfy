/** What `buildPackageFromText` promises, proved about the specification
    functions of module `BuildPackage`: when the result is absent, which
    groups and members the package lists and in what order, that repeating a
    selection changes nothing, and the layout of the text. */
module BuildPackageProperties {
  import opened Text
  import opened BuildPackage

  // ---------------------------------------------------------------------
  // Sequences: names, values, first occurrences

  lemma {:induction false} NamesIndex(gs: seq<Group>)
    ensures |Names(gs)| == |gs|
    ensures forall k :: 0 <= k < |gs| ==> Names(gs)[k] == gs[k].name
  {
    if |gs| > 0 {
      NamesIndex(gs[..|gs| - 1]);
    }
  }

  lemma NamesMem(gs: seq<Group>, n: string)
    ensures n in Names(gs) <==> exists g :: g in gs && g.name == n
  {
    NamesIndex(gs);
    if n in Names(gs) {
      var k :| 0 <= k < |gs| && Names(gs)[k] == n;
      assert gs[k] in gs;
    }
    if g :| g in gs && g.name == n {
      var k :| 0 <= k < |gs| && gs[k] == g;
      assert Names(gs)[k] == n;
    }
  }

  lemma NamesAppend(a: seq<Group>, b: seq<Group>)
    ensures Names(a + b) == Names(a) + Names(b)
  {
    NamesIndex(a);
    NamesIndex(b);
    NamesIndex(a + b);
  }

  lemma {:induction false} ValuesOfAppend(a: seq<Group>, b: seq<Group>, n: string)
    ensures ValuesOf(a + b, n) == ValuesOf(a, n) + ValuesOf(b, n)
    decreases |b|
  {
    if |b| == 0 {
      assert a + b == a;
    } else {
      var b' := b[..|b| - 1];
      assert (a + b)[..|a + b| - 1] == a + b';
      ValuesOfAppend(a, b', n);
    }
  }

  /** A value is filed under `n` exactly when some group named `n` holds it. */
  lemma {:induction false} ValuesOfMem(gs: seq<Group>, n: string, v: string)
    ensures v in ValuesOf(gs, n) <==> exists g :: g in gs && g.name == n && v in g.members
  {
    if |gs| > 0 {
      var p := gs[..|gs| - 1];
      var last := gs[|gs| - 1];
      ValuesOfMem(p, n, v);
      assert gs == p + [last];
      if g :| g in gs && g.name == n && v in g.members {
        if g != last {
          assert g in p;
        }
      }
    }
  }

  lemma {:induction false} KeptValuesMem(vs: seq<string>, v: string)
    ensures v in KeptValues(vs) <==> v in vs && Kept(v)
  {
    if |vs| > 0 {
      var p := vs[..|vs| - 1];
      KeptValuesMem(p, v);
      assert vs == p + [vs[|vs| - 1]];
    }
  }

  lemma DedupEmpty<T>(xs: seq<T>)
    ensures Dedup(xs) == [] <==> xs == []
  {
    if xs != [] {
      DedupMem(xs, xs[0]);
    }
  }

  /** `Dedup` keeps no element twice. */
  lemma {:induction false} DedupDistinct<T>(xs: seq<T>)
    ensures forall i, j :: 0 <= i < j < |Dedup(xs)| ==> Dedup(xs)[i] != Dedup(xs)[j]
  {
    if |xs| > 0 {
      DedupDistinct(xs[..|xs| - 1]);
    }
  }

  /** The position of the first occurrence of `x` in `xs`. */
  function IndexOf<T(==)>(xs: seq<T>, x: T): (i: nat)
    requires x in xs
    ensures i < |xs| && xs[i] == x && x !in xs[..i]
  {
    if xs[0] == x then 0
    else
      var j := IndexOf(xs[1..], x);
      assert xs[..j + 1] == [xs[0]] + xs[1..][..j];
      j + 1
  }

  lemma IndexOfIs<T>(xs: seq<T>, x: T, i: nat)
    requires i < |xs| && xs[i] == x && x !in xs[..i]
    ensures IndexOf(xs, x) == i
  {
  }

  lemma IndexOfPrefix<T>(a: seq<T>, b: seq<T>, x: T)
    requires x in a
    ensures IndexOf(a + b, x) == IndexOf(a, x)
  {
    var i := IndexOf(a, x);
    assert (a + b)[..i] == a[..i];
    IndexOfIs(a + b, x, i);
  }

  /** `Dedup` lists the elements in the order of their first occurrences. */
  lemma {:induction false} DedupOrder<T>(xs: seq<T>)
    ensures forall k :: 0 <= k < |Dedup(xs)| ==> Dedup(xs)[k] in xs
    ensures forall i, j :: 0 <= i < j < |Dedup(xs)| ==> IndexOf(xs, Dedup(xs)[i]) < IndexOf(xs, Dedup(xs)[j])
  {
    if |xs| > 0 {
      var p := xs[..|xs| - 1];
      var x := xs[|xs| - 1];
      assert xs == p + [x];
      DedupOrder(p);
      var d := Dedup(p);
      forall k | 0 <= k < |d|
        ensures d[k] in p && IndexOf(xs, d[k]) == IndexOf(p, d[k])
      {
        IndexOfPrefix(p, [x], d[k]);
      }
      if x !in d {
        DedupMem(p, x);
        assert xs[..|p|] == p;
        IndexOfIs(xs, x, |p|);
      }
    }
  }

  /** Appending elements already present changes nothing. */
  lemma {:induction false} DedupAbsorb<T>(xs: seq<T>, ys: seq<T>)
    requires forall y :: y in ys ==> y in xs
    ensures Dedup(xs + ys) == Dedup(xs)
    decreases |ys|
  {
    if |ys| == 0 {
      assert xs + ys == xs;
    } else {
      var ys' := ys[..|ys| - 1];
      var y := ys[|ys| - 1];
      assert xs + ys == (xs + ys') + [y];
      assert forall z :: z in ys' ==> z in ys;
      DedupAbsorb(xs, ys');
      assert y in ys;
      DedupMem(xs, y);
      DedupSnoc(xs + ys', y);
    }
  }

  // ---------------------------------------------------------------------
  // The merge

  /** Lines 73-78 and 91-98: the merged groups carry pairwise distinct names,
      exactly the names of the candidates, in the order each name first
      appears among them. */
  lemma MergeNames(cands: seq<Group>)
    ensures forall i, j :: 0 <= i < j < |Merge(cands)| ==> Merge(cands)[i].name != Merge(cands)[j].name
    ensures forall k :: 0 <= k < |Merge(cands)| ==> Merge(cands)[k].name in Names(cands)
    ensures forall i, j :: 0 <= i < j < |Merge(cands)| ==>
              IndexOf(Names(cands), Merge(cands)[i].name) < IndexOf(Names(cands), Merge(cands)[j].name)
  {
    DedupDistinct(Names(cands));
    DedupOrder(Names(cands));
  }

  /** Some merged group is named `n` exactly when some candidate is. */
  lemma MergeHasName(cands: seq<Group>, n: string)
    ensures (exists k :: 0 <= k < |Merge(cands)| && Merge(cands)[k].name == n)
        <==> (exists g :: g in cands && g.name == n)
  {
    var ns := Dedup(Names(cands));
    DedupMem(Names(cands), n);
    NamesMem(cands, n);
    if n in ns {
      var k :| 0 <= k < |ns| && ns[k] == n;
      assert Merge(cands)[k].name == n;
    }
  }

  /** Lines 80-88: a merged group holds exactly the kept values some
      candidate of the same name holds. */
  lemma MergeMembers(cands: seq<Group>, k: nat, v: string)
    requires k < |Merge(cands)|
    ensures v in Merge(cands)[k].members
        <==> Kept(v) && exists g :: g in cands && g.name == Merge(cands)[k].name && v in g.members
  {
    var n := Merge(cands)[k].name;
    DedupMem(KeptValues(ValuesOf(cands, n)), v);
    KeptValuesMem(ValuesOf(cands, n), v);
    ValuesOfMem(cands, n, v);
  }

  /** Lines 86-89: within a merged group no value repeats, and the values
      keep the order of their first occurrences among the kept values filed
      under the group's name. */
  lemma MergeMembersOrder(cands: seq<Group>, k: nat)
    requires k < |Merge(cands)|
    ensures var ms := Merge(cands)[k].members;
      forall i, j :: 0 <= i < j < |ms| ==> ms[i] != ms[j]
    ensures var vs := KeptValues(ValuesOf(cands, Merge(cands)[k].name));
      var ms := Merge(cands)[k].members;
      (forall i :: 0 <= i < |ms| ==> ms[i] in vs)
      && forall i, j :: 0 <= i < j < |ms| ==> IndexOf(vs, ms[i]) < IndexOf(vs, ms[j])
  {
    var vs := KeptValues(ValuesOf(cands, Merge(cands)[k].name));
    DedupDistinct(vs);
    DedupOrder(vs);
  }

  /** Candidates that repeat earlier ones leave the merge as it was. */
  lemma MergeAbsorbs(cands: seq<Group>, more: seq<Group>)
    requires forall g :: g in more ==> g in cands
    ensures Merge(cands + more) == Merge(cands)
  {
    NamesAppend(cands, more);
    forall y | y in Names(more)
      ensures y in Names(cands)
    {
      NamesMem(more, y);
      NamesMem(cands, y);
    }
    DedupAbsorb(Names(cands), Names(more));
    var ns := Dedup(Names(cands));
    forall k | 0 <= k < |ns|
      ensures Dedup(KeptValues(ValuesOf(cands + more, ns[k]))) == Dedup(KeptValues(ValuesOf(cands, ns[k])))
    {
      var n := ns[k];
      ValuesOfAppend(cands, more, n);
      KeptValuesAppend(ValuesOf(cands, n), ValuesOf(more, n));
      forall v | v in KeptValues(ValuesOf(more, n))
        ensures v in KeptValues(ValuesOf(cands, n))
      {
        KeptValuesMem(ValuesOf(more, n), v);
        KeptValuesMem(ValuesOf(cands, n), v);
        ValuesOfMem(more, n, v);
        ValuesOfMem(cands, n, v);
      }
      DedupAbsorb(KeptValues(ValuesOf(cands, n)), KeptValues(ValuesOf(more, n)));
    }
  }

  // ---------------------------------------------------------------------
  // Candidates

  lemma SpanFits(s: string, spans: seq<Span>, open: string, close: string, t: Span)
    requires Fit(s, spans, open, close) && t in spans
    ensures t.start + |open| + |close| <= t.end <= |s|
  {
    var k :| 0 <= k < |spans| && spans[k] == t;
  }

  lemma {:induction false} FlattenAppend<T>(a: seq<seq<T>>, b: seq<seq<T>>)
    ensures Flatten(a + b) == Flatten(a) + Flatten(b)
    decreases |b|
  {
    if |b| == 0 {
      assert a + b == a;
    } else {
      var b' := b[..|b| - 1];
      assert (a + b)[..|a + b| - 1] == a + b';
      FlattenAppend(a, b');
    }
  }

  lemma {:induction false} FlattenMem<T>(xss: seq<seq<T>>, i: nat, x: T)
    requires i < |xss| && x in xss[i]
    ensures x in Flatten(xss)
  {
    if i < |xss| - 1 {
      var p := xss[..|xss| - 1];
      assert p[i] == xss[i];
      FlattenMem(p, i, x);
    }
  }

  lemma {:induction false} FlattenFrom<T>(xss: seq<seq<T>>, x: T)
    requires x in Flatten(xss)
    ensures exists i :: 0 <= i < |xss| && x in xss[i]
  {
    var p := xss[..|xss| - 1];
    if x !in xss[|xss| - 1] {
      FlattenFrom(p, x);
      var i :| 0 <= i < |p| && x in p[i];
      assert p[i] == xss[i];
    }
  }

  lemma FlattenEmpty<T>(xss: seq<seq<T>>)
    ensures Flatten(xss) == [] <==> forall i :: 0 <= i < |xss| ==> xss[i] == []
  {
    if Flatten(xss) == [] {
      forall i | 0 <= i < |xss|
        ensures xss[i] == []
      {
        if xss[i] != [] {
          FlattenMem(xss, i, xss[i][0]);
        }
      }
    } else {
      FlattenFrom(xss, Flatten(xss)[0]);
    }
  }

  lemma SelectionsAppend(doc: string, blocks: seq<Span>, ts: seq<Tag>, a: seq<Range>, b: seq<Range>)
    requires BlocksIn(doc, blocks)
    ensures Selections(doc, blocks, ts, a + b) == Selections(doc, blocks, ts, a) + Selections(doc, blocks, ts, b)
  {
  }

  lemma {:induction false} WholeBlocksEmpty(doc: string, blocks: seq<Span>, r: Range)
    requires BlocksIn(doc, blocks)
    ensures WholeBlocks(doc, blocks, r) == [] <==> forall t :: t in blocks ==> !Within(t, r)
  {
    if |blocks| > 0 {
      var p := blocks[..|blocks| - 1];
      WholeBlocksEmpty(doc, p, r);
      assert blocks == p + [blocks[|blocks| - 1]];
    }
  }

  lemma {:induction false} WholeBlocksMem(doc: string, blocks: seq<Span>, r: Range, t: Span)
    requires BlocksIn(doc, blocks) && t in blocks && Within(t, r)
    ensures t.start <= t.end <= |doc|
    ensures BlockGroup(doc, t) in WholeBlocks(doc, blocks, r)
  {
    var p := blocks[..|blocks| - 1];
    assert blocks == p + [blocks[|blocks| - 1]];
    if t != blocks[|blocks| - 1] {
      assert t in p;
      WholeBlocksMem(doc, p, r, t);
    }
  }

  /** Lines 37-43: `some` is the existential it reads as. */
  lemma {:induction false} InsideIncludedIff(blocks: seq<Span>, r: Range, m: Span)
    ensures InsideIncluded(blocks, r, m) <==> exists t :: t in blocks && Within(t, r) && Encloses(t, m)
  {
    if |blocks| > 0 {
      InsideIncludedIff(blocks[1..], r, m);
      assert blocks == [blocks[0]] + blocks[1..];
    }
  }

  /** A tag the loose scan of `r` takes. */
  predicate Loose(blocks: seq<Span>, r: Range, t: Tag)
  {
    Within(t.span, r) && !InsideIncluded(blocks, r, t.span)
  }

  lemma {:induction false} LooseMembersEmpty(blocks: seq<Span>, ts: seq<Tag>, r: Range)
    ensures LooseMembers(blocks, ts, r) == [] <==> forall k :: 0 <= k < |ts| ==> !Loose(blocks, r, ts[k])
  {
    if |ts| > 0 {
      var p := ts[..|ts| - 1];
      LooseMembersEmpty(blocks, p, r);
      assert forall k :: 0 <= k < |p| ==> p[k] == ts[k];
    }
  }

  lemma {:induction false} LooseMembersMem(blocks: seq<Span>, ts: seq<Tag>, r: Range, k: nat)
    requires k < |ts| && Loose(blocks, r, ts[k])
    ensures Group(ts[k].name, [ts[k].value]) in LooseMembers(blocks, ts, r)
  {
    if k < |ts| - 1 {
      var p := ts[..|ts| - 1];
      assert p[k] == ts[k];
      LooseMembersMem(blocks, p, r, k);
    }
  }

  lemma GroupByNameEmpty(gs: seq<Group>)
    ensures GroupByName(gs) == [] <==> gs == []
  {
    DedupEmpty(Names(gs));
    NamesIndex(gs);
  }

  /** The group `GroupByName` makes of a name holds every value filed under
      it. */
  lemma GroupByNameHolds(gs: seq<Group>, g: Group, v: string)
    requires g in gs && v in g.members
    ensures exists h :: h in GroupByName(gs) && h.name == g.name && v in h.members
  {
    var ns := Dedup(Names(gs));
    NamesMem(gs, g.name);
    DedupMem(Names(gs), g.name);
    var k :| 0 <= k < |ns| && ns[k] == g.name;
    ValuesOfMem(gs, g.name, v);
    assert GroupByName(gs)[k].name == g.name && v in GroupByName(gs)[k].members;
  }

  /** Lines 15-70: a selection yields no group exactly when no `<types>`
      block and no `<members>` tag lies wholly inside it. */
  lemma RangeGroupsEmpty(doc: string, blocks: seq<Span>, ts: seq<Tag>, r: Range)
    requires Fit(doc, blocks, TypesOpen, TypesClose) && BlocksIn(doc, blocks)
    requires forall k :: 0 <= k < |ts| ==> ts[k].span.start < ts[k].span.end
    ensures RangeGroups(doc, blocks, ts, r) == []
        <==> (forall t :: t in blocks ==> !Within(t, r)) && (forall k :: 0 <= k < |ts| ==> !Within(ts[k].span, r))
  {
    WholeBlocksEmpty(doc, blocks, r);
    LooseMembersEmpty(blocks, ts, r);
    GroupByNameEmpty(LooseMembers(blocks, ts, r));
    if r.end <= r.start {
      forall t | t in blocks
        ensures !Within(t, r)
      {
        SpanFits(doc, blocks, TypesOpen, TypesClose, t);
      }
    } else {
      if k :| 0 <= k < |ts| && Within(ts[k].span, r) {
        if InsideIncluded(blocks, r, ts[k].span) {
          InsideIncludedIff(blocks, r, ts[k].span);
        }
      }
    }
  }

  // ---------------------------------------------------------------------
  // The package

  /** `r` wholly contains a `<types>` block or a `<members>` tag. */
  predicate Selects(doc: string, r: Range)
  {
    (exists t :: t in TypeBlocks(doc) && Within(t, r))
    || (exists m :: m in MemberTags(doc) && Within(m, r))
  }

  lemma DocTagsAt(doc: string, k: nat)
    requires k < |MemberTags(doc)|
    ensures var m := MemberTags(doc)[k];
      m.start + |MembersOpen| + |MembersClose| <= m.end <= |doc|
      && DocTags(doc)[k] == Tag(m, ResolveName(doc, TypeBlocks(doc), m), MemberValue(doc, m))
  {
  }

  /** `RangeGroupsEmpty` stated over the tag spans the records carry. */
  lemma RangeGroupsEmptyOver(doc: string, blocks: seq<Span>, tags: seq<Span>, ts: seq<Tag>, r: Range)
    requires Fit(doc, blocks, TypesOpen, TypesClose) && BlocksIn(doc, blocks)
    requires Fit(doc, tags, MembersOpen, MembersClose)
    requires |ts| == |tags| && forall k :: 0 <= k < |ts| ==> ts[k].span == tags[k]
    ensures RangeGroups(doc, blocks, ts, r) == []
        <==> (forall t :: t in blocks ==> !Within(t, r)) && (forall m :: m in tags ==> !Within(m, r))
  {
    RangeGroupsEmpty(doc, blocks, ts, r);
    if m :| m in tags && Within(m, r) {
      var k :| 0 <= k < |tags| && tags[k] == m;
      assert Within(ts[k].span, r);
    }
  }

  /** Lines 15-70: a selection yields no candidate exactly when it wholly
      contains no `<types>` block and no `<members>` tag. */
  lemma SelectionEmpty(doc: string, r: Range)
    ensures RangeGroups(doc, TypeBlocks(doc), DocTags(doc), r) == [] <==> !Selects(doc, r)
  {
    var tags := MemberTags(doc);
    RangeGroupsEmptyOver(doc, TypeBlocks(doc), tags, ResolvedTags(doc, TypeBlocks(doc), tags), r);
  }

  /** Lines 18 and 72: there is no package exactly when no selection wholly
      contains a `<types>` block or a `<members>` tag. */
  lemma BuildAbsent(doc: string, ranges: seq<Range>)
    ensures Build(doc, ranges).None? <==> forall r :: r in ranges ==> !Selects(doc, r)
  {
    var sels := Selections(doc, TypeBlocks(doc), DocTags(doc), ranges);
    FlattenEmpty(sels);
    forall i | 0 <= i < |ranges|
      ensures sels[i] == [] <==> !Selects(doc, ranges[i])
    {
      SelectionEmpty(doc, ranges[i]);
    }
  }

  /** Lines 18, 20 and 36: selections shorter than the shortest block
      (`<types></types>`, 15 characters) produce no package; in particular
      none at all, empty or inverted ones, a bare `<name>` tag or a single
      character. */
  lemma ShortSelectionsAbsent(doc: string, ranges: seq<Range>)
    requires forall r :: r in ranges ==> r.end - r.start < |TypesOpen| + |TypesClose|
    ensures Build(doc, ranges) == None
  {
    BuildAbsent(doc, ranges);
    forall r | r in ranges
      ensures !Selects(doc, r)
    {
      forall t | t in TypeBlocks(doc)
        ensures !Within(t, r)
      {
        SpanFits(doc, TypeBlocks(doc), TypesOpen, TypesClose, t);
      }
      forall m | m in MemberTags(doc)
        ensures !Within(m, r)
      {
        SpanFits(doc, MemberTags(doc), MembersOpen, MembersClose, m);
      }
    }
  }

  /** A candidate group of `doc` is in the merge under its name, with each of
      its kept values. */
  lemma CandidateListed(doc: string, ranges: seq<Range>, i: nat, g: Group)
    requires i < |ranges|
    requires g in RangeGroups(doc, TypeBlocks(doc), DocTags(doc), ranges[i])
    ensures Build(doc, ranges).Some?
    ensures exists h :: (h in Merge(Candidates(doc, ranges)) && h.name == g.name
                         && forall v :: v in g.members && Kept(v) ==> v in h.members)
  {
    var cands := Candidates(doc, ranges);
    var sels := Selections(doc, TypeBlocks(doc), DocTags(doc), ranges);
    assert sels[i] == RangeGroups(doc, TypeBlocks(doc), DocTags(doc), ranges[i]);
    FlattenMem(sels, i, g);
    MergeHasName(cands, g.name);
    var k :| 0 <= k < |Merge(cands)| && Merge(cands)[k].name == g.name;
    forall v | v in g.members && Kept(v)
      ensures v in Merge(cands)[k].members
    {
      MergeMembers(cands, k, v);
    }
    assert Merge(cands)[k] in Merge(cands);
  }

  /** Lines 19-28: a block that a selection wholly contains always yields a
      group under the block's name (`""` when it has none), holding each of
      the block's kept member values. */
  lemma SelectedBlockListed(doc: string, ranges: seq<Range>, i: nat, t: Span)
    requires i < |ranges| && t in TypeBlocks(doc) && Within(t, ranges[i])
    ensures Build(doc, ranges).Some?
    ensures t.start <= t.end <= |doc|
    ensures exists h :: (h in Merge(Candidates(doc, ranges)) && h.name == BlockGroup(doc, t).name
                         && forall v :: v in BlockGroup(doc, t).members && Kept(v) ==> v in h.members)
  {
    var r := ranges[i];
    SpanFits(doc, TypeBlocks(doc), TypesOpen, TypesClose, t);
    WholeBlocksMem(doc, TypeBlocks(doc), r, t);
    CandidateListed(doc, ranges, i, BlockGroup(doc, t));
  }

  /** Lines 31-59: a member tag that a selection wholly contains, outside
      every block that selection wholly contains, is listed under its resolved
      type name with its value, unless the merge drops the value. */
  lemma LooseTagListed(doc: string, ranges: seq<Range>, i: nat, k: nat)
    requires i < |ranges| && k < |MemberTags(doc)|
    requires Within(MemberTags(doc)[k], ranges[i])
    requires forall t :: t in TypeBlocks(doc) && Within(t, ranges[i]) ==> !Encloses(t, MemberTags(doc)[k])
    ensures Build(doc, ranges).Some?
    ensures var m := MemberTags(doc)[k];
      m.end <= |doc| && m.start + |MembersOpen| + |MembersClose| <= m.end
      && exists h :: (h in Merge(Candidates(doc, ranges)) && h.name == ResolveName(doc, TypeBlocks(doc), m)
                      && (Kept(MemberValue(doc, m)) ==> MemberValue(doc, m) in h.members))
  {
    var r := ranges[i];
    var m := MemberTags(doc)[k];
    var blocks := TypeBlocks(doc);
    var ts := DocTags(doc);
    DocTagsAt(doc, k);
    InsideIncludedIff(blocks, r, m);
    assert Loose(blocks, r, ts[k]);
    LooseMembersMem(blocks, ts, r, k);
    var g := Group(ts[k].name, [ts[k].value]);
    GroupByNameHolds(LooseMembers(blocks, ts, r), g, ts[k].value);
    var h :| h in GroupByName(LooseMembers(blocks, ts, r)) && h.name == g.name && ts[k].value in h.members;
    assert h in RangeGroups(doc, blocks, ts, r);
    CandidateListed(doc, ranges, i, h);
  }

  /** Lines 37-44: every loose group of `r` comes from a tag that lies inside
      `r` and inside no block `r` selects whole, so the members of a selected
      block are not taken again. */
  lemma {:induction false} LooseMembersFrom(blocks: seq<Span>, ts: seq<Tag>, r: Range, g: Group)
    requires g in LooseMembers(blocks, ts, r)
    ensures exists k :: 0 <= k < |ts| && Loose(blocks, r, ts[k]) && g == Group(ts[k].name, [ts[k].value])
  {
    var p := ts[..|ts| - 1];
    if g in LooseMembers(blocks, p, r) {
      LooseMembersFrom(blocks, p, r, g);
      var k :| 0 <= k < |p| && Loose(blocks, r, p[k]) && g == Group(p[k].name, [p[k].value]);
      assert p[k] == ts[k];
    }
  }

  /** A group whose name has no `<` and no surrounding white space, and whose
      values have no surrounding white space. */
  predicate CleanGroup(g: Group)
  {
    '<' !in g.name && IsTrimmed(g.name) && forall v :: v in g.members ==> IsTrimmed(v)
  }

  predicate CleanTag(t: Tag)
  {
    '<' !in t.name && IsTrimmed(t.name) && IsTrimmed(t.value)
  }

  lemma {:induction false} WholeBlocksClean(doc: string, blocks: seq<Span>, r: Range)
    requires BlocksIn(doc, blocks)
    ensures forall g :: g in WholeBlocks(doc, blocks, r) ==> CleanGroup(g)
  {
    if |blocks| > 0 {
      var p := blocks[..|blocks| - 1];
      var t := blocks[|blocks| - 1];
      WholeBlocksClean(doc, p, r);
      if Within(t, r) {
        var text := BlockText(doc, t);
        var vs := TagValues(text, MemberTags(text));
        forall v | v in vs
          ensures IsTrimmed(v)
        {
          var k :| 0 <= k < |vs| && vs[k] == v;
        }
        assert CleanGroup(BlockGroup(doc, t));
      }
    }
  }

  lemma {:induction false} LooseMembersClean(blocks: seq<Span>, ts: seq<Tag>, r: Range)
    requires forall k :: 0 <= k < |ts| ==> CleanTag(ts[k])
    ensures forall g :: g in LooseMembers(blocks, ts, r) ==> CleanGroup(g)
  {
    forall g | g in LooseMembers(blocks, ts, r)
      ensures CleanGroup(g)
    {
      LooseMembersFrom(blocks, ts, r, g);
    }
  }

  lemma GroupByNameClean(gs: seq<Group>)
    requires forall g :: g in gs ==> CleanGroup(g)
    ensures forall h :: h in GroupByName(gs) ==> CleanGroup(h)
  {
    var ns := Dedup(Names(gs));
    forall k | 0 <= k < |ns|
      ensures CleanGroup(GroupByName(gs)[k])
    {
      DedupMem(Names(gs), ns[k]);
      NamesMem(gs, ns[k]);
      forall v | v in ValuesOf(gs, ns[k])
        ensures IsTrimmed(v)
      {
        ValuesOfMem(gs, ns[k], v);
      }
    }
  }

  /** Clean tags give clean candidates, and clean candidates a clean merge
      whose values all survive the re-read. */
  lemma SelectionsClean(doc: string, blocks: seq<Span>, ts: seq<Tag>, ranges: seq<Range>)
    requires BlocksIn(doc, blocks)
    requires forall k :: 0 <= k < |ts| ==> CleanTag(ts[k])
    ensures forall g :: g in Flatten(Selections(doc, blocks, ts, ranges)) ==> CleanGroup(g)
  {
    var sels := Selections(doc, blocks, ts, ranges);
    forall g | g in Flatten(sels)
      ensures CleanGroup(g)
    {
      FlattenFrom(sels, g);
      var i :| 0 <= i < |sels| && g in sels[i];
      var r := ranges[i];
      WholeBlocksClean(doc, blocks, r);
      LooseMembersClean(blocks, ts, r);
      GroupByNameClean(LooseMembers(blocks, ts, r));
    }
  }

  lemma MergeClean(cands: seq<Group>)
    requires forall g :: g in cands ==> CleanGroup(g)
    ensures forall h :: h in Merge(cands) ==> CleanGroup(h) && forall v :: v in h.members ==> Kept(v)
  {
    MergeNames(cands);
    forall k | 0 <= k < |Merge(cands)|
      ensures CleanGroup(Merge(cands)[k]) && forall v :: v in Merge(cands)[k].members ==> Kept(v)
    {
      NamesMem(cands, Merge(cands)[k].name);
      forall v | v in Merge(cands)[k].members
        ensures Kept(v) && IsTrimmed(v)
      {
        MergeMembers(cands, k, v);
      }
    }
  }

  lemma DocTagsClean(doc: string)
    ensures forall k :: 0 <= k < |DocTags(doc)| ==> CleanTag(DocTags(doc)[k])
  {
    forall k | 0 <= k < |DocTags(doc)|
      ensures CleanTag(DocTags(doc)[k])
    {
      DocTagsAt(doc, k);
    }
  }

  /** Lines 24-25, 48-53, 76-77 and 80-84: every listed type name is free of
      `<` and of surrounding white space, and every listed member is
      non-empty, free of `<` and of surrounding white space. */
  lemma PackageGroupsClean(doc: string, ranges: seq<Range>)
    ensures forall h :: h in Merge(Candidates(doc, ranges)) ==>
              '<' !in h.name && IsTrimmed(h.name)
              && forall v :: v in h.members ==> v != "" && '<' !in v && IsTrimmed(v)
  {
    DocTagsClean(doc);
    SelectionsClean(doc, TypeBlocks(doc), DocTags(doc), ranges);
    MergeClean(Candidates(doc, ranges));
  }

  /** Lists that repeat earlier lists add nothing to the merge. */
  lemma FlattenAbsorb(a: seq<seq<Group>>, b: seq<seq<Group>>)
    requires forall i :: 0 <= i < |b| ==> b[i] in a
    ensures |Flatten(a + b)| == 0 <==> |Flatten(a)| == 0
    ensures Merge(Flatten(a + b)) == Merge(Flatten(a))
  {
    FlattenAppend(a, b);
    forall g | g in Flatten(b)
      ensures g in Flatten(a)
    {
      FlattenFrom(b, g);
      var i :| 0 <= i < |b| && g in b[i];
      var j :| 0 <= j < |a| && a[j] == b[i];
      FlattenMem(a, j, g);
    }
    MergeAbsorbs(Flatten(a), Flatten(b));
  }

  lemma SelectionsAbsorb(doc: string, blocks: seq<Span>, ts: seq<Tag>, ranges: seq<Range>, more: seq<Range>)
    requires BlocksIn(doc, blocks)
    requires forall r :: r in more ==> r in ranges
    ensures var c := Flatten(Selections(doc, blocks, ts, ranges));
      var c' := Flatten(Selections(doc, blocks, ts, ranges + more));
      (|c'| == 0 <==> |c| == 0) && Merge(c') == Merge(c)
  {
    var a := Selections(doc, blocks, ts, ranges);
    var b := Selections(doc, blocks, ts, more);
    SelectionsAppend(doc, blocks, ts, ranges, more);
    forall i | 0 <= i < |b|
      ensures b[i] in a
    {
      assert more[i] in more;
      var j :| 0 <= j < |ranges| && ranges[j] == more[i];
      assert a[j] == b[i];
    }
    FlattenAbsorb(a, b);
  }

  /** Lines 15-90: selecting again what is already selected leaves the
      package as it was; the members are deduplicated across selections. */
  lemma RepeatedSelections(doc: string, ranges: seq<Range>, more: seq<Range>)
    requires forall r :: r in more ==> r in ranges
    ensures Build(doc, ranges + more) == Build(doc, ranges)
  {
    SelectionsAbsorb(doc, TypeBlocks(doc), DocTags(doc), ranges, more);
  }

  /** Every selection given twice: the same package as given once. */
  lemma DoubledSelections(doc: string, ranges: seq<Range>)
    ensures Build(doc, ranges + ranges) == Build(doc, ranges)
  {
    RepeatedSelections(doc, ranges, ranges);
  }

  /** Lines 45-54: the name a member tag resolves to is that of the block
      enclosing it (the blocks are disjoint, so there is at most one), and
      otherwise the first name after the tag. */
  lemma ResolveNameCases(doc: string, m: Span)
    requires m.start < m.end <= |doc|
    ensures forall j :: 0 <= j < |TypeBlocks(doc)| && Encloses(TypeBlocks(doc)[j], m) ==>
              ResolveName(doc, TypeBlocks(doc), m) == NameValue(BlockText(doc, TypeBlocks(doc)[j]))
    ensures (forall t :: t in TypeBlocks(doc) ==> !Encloses(t, m)) ==>
              ResolveName(doc, TypeBlocks(doc), m) == NameValue(doc[m.end..])
  {
    var blocks := TypeBlocks(doc);
    forall j | 0 <= j < |blocks| && Encloses(blocks[j], m)
      ensures ResolveName(doc, blocks, m) == NameValue(BlockText(doc, blocks[j]))
    {
      ResolveNameIn(doc, blocks, m, j);
    }
  }

  /** Blocks in increasing order that do not overlap. */
  predicate Disjoint(blocks: seq<Span>)
  {
    forall i, j :: 0 <= i < j < |blocks| ==> blocks[i].end <= blocks[j].start
  }

  lemma ResolveNameIn(doc: string, blocks: seq<Span>, m: Span, j: nat)
    requires BlocksIn(doc, blocks) && Disjoint(blocks) && m.start < m.end <= |doc|
    requires j < |blocks| && Encloses(blocks[j], m)
    ensures ResolveName(doc, blocks, m) == NameValue(BlockText(doc, blocks[j]))
  {
    var e := FirstEnclosing(blocks, m);
    assert blocks[j] in blocks;
    var i :| 0 <= i < |blocks| && blocks[i] == e.value;
  }
}
