/** `render_readme` on whole texts, and the second-render guard of `run`
    (scripts/generate_repo_metrics.py:520-534, 554-567). */
module ReadmeGuard {
  import opened MarkerText
  import opened MarkerRegions
  import opened Wrappers

  // ── The ascending order of the regions is unique ────────────────────────

  lemma ParsedBeginsDiffer(lines: seq<string>, slugs: set<string>, regions: map<string, Region>, s: string, t: string)
    requires ParsesTo(lines, slugs, regions) && s in slugs && t in slugs && s != t
    ensures regions[s].begin != regions[t].begin
  {
    hide MarkerOf, Count;
    assert MarksOnce(lines, Begin(s), regions[s].begin) && MarksOnce(lines, Begin(t), regions[t].begin);
  }

  lemma ParsedRegionsUnique(lines: seq<string>, slugs: set<string>, a: map<string, Region>, b: map<string, Region>)
    requires ParsesTo(lines, slugs, a) && ParsesTo(lines, slugs, b)
    ensures a == b
  {
    hide MarkerOf, Count;
    forall s | s in slugs ensures a[s] == b[s] {
      MarkedOnceAt(lines, Begin(s), a[s].begin, b[s].begin);
      MarkedOnceAt(lines, End(s), a[s].end, b[s].end);
    }
  }

  lemma SameFirst(regions: map<string, Region>, a: seq<Placed>, b: seq<Placed>)
    requires InOrder(regions, a) && InOrder(regions, b)
    ensures (a == [] <==> b == []) && (a != [] ==> a[0] == b[0])
  {
    if a != [] {
      assert a[0].slug in regions;
      var k :| 0 <= k < |b| && b[k].slug == a[0].slug;
      assert b[0].slug in regions;
      assert regions[b[k].slug] == Region(b[k].begin, b[k].end) && regions[a[0].slug] == Region(a[0].begin, a[0].end);
      var j :| 0 <= j < |a| && a[j].slug == b[0].slug;
      assert regions[a[j].slug] == Region(a[j].begin, a[j].end) && regions[b[0].slug] == Region(b[0].begin, b[0].end);
      assert a[0].begin <= a[j].begin && b[0].begin <= b[k].begin;
      assert k == 0;
    }
    assert b == [] || b[0].slug in regions;
  }

  lemma OrderOfRest(regions: map<string, Region>, a: seq<Placed>)
    requires InOrder(regions, a) && a != []
    ensures InOrder(regions - {a[0].slug}, a[1..])
  {
    var rest := regions - {a[0].slug};
    forall k | 0 <= k < |a[1..]|
      ensures a[1..][k].slug in rest && rest[a[1..][k].slug] == Region(a[1..][k].begin, a[1..][k].end)
    {
      assert a[1..][k] == a[k + 1] && a[0].begin < a[k + 1].begin;
      assert regions[a[0].slug].begin == a[0].begin && regions[a[k + 1].slug].begin == a[k + 1].begin;
    }
    forall s | s in rest ensures exists k :: 0 <= k < |a[1..]| && a[1..][k].slug == s {
      var k :| 0 <= k < |a| && a[k].slug == s;
      assert a[1..][k - 1].slug == s;
    }
  }

  lemma {:induction false} OrderIsUnique(regions: map<string, Region>, a: seq<Placed>, b: seq<Placed>)
    requires InOrder(regions, a) && InOrder(regions, b)
    ensures a == b
    decreases |a|
  {
    hide *;
    SameFirst(regions, a, b);
    if a != [] {
      OrderOfRest(regions, a);
      OrderOfRest(regions, b);
      OrderIsUnique(regions - {a[0].slug}, a[1..], b[1..]);
      assert a == [a[0]] + a[1..] && b == [b[0]] + b[1..];
    }
  }

  lemma OrderedRegionsAscend(lines: seq<string>, slugs: set<string>, regions: map<string, Region>, asc: seq<Placed>)
    requires ParsesTo(lines, slugs, regions) && InOrder(regions, asc)
    ensures Ascending(asc, |lines|)
  {
    hide MarkerOf, Count;
    forall k | 0 <= k < |asc| ensures asc[k].begin < asc[k].end < |lines| {
      assert regions[asc[k].slug] == Region(asc[k].begin, asc[k].end);
    }
  }

  /** `sorted(regions.items(), key=begin)`, built from the last region to the first. */
  method SortRegions(ghost lines: seq<string>, ghost slugs: set<string>, regions: map<string, Region>)
      returns (asc: seq<Placed>)
    requires ParsesTo(lines, slugs, regions)
    ensures InOrder(regions, asc)
  {
    hide MarkerOf, Count, MarksOnce;
    asc := [];
    var rest := regions.Keys;
    ghost var done: map<string, Region> := map[];
    while rest != {}
      invariant rest <= regions.Keys
      invariant done == map s | s in regions && s !in rest :: regions[s]
      invariant InOrder(done, asc)
      invariant forall s, t :: s in rest && t in done ==> regions[s].begin < done[t].begin
      decreases rest
    {
      var last := LatestBegin(lines, slugs, regions, rest);
      Prepend(done, asc, last, regions[last]);
      asc := [Placed(last, regions[last].begin, regions[last].end)] + asc;
      done, rest := done[last := regions[last]], rest - {last};
    }
    assert regions == done;
  }

  lemma Prepend(done: map<string, Region>, asc: seq<Placed>, last: string, region: Region)
    requires InOrder(done, asc) && last !in done
    requires forall t :: t in done ==> region.begin < done[t].begin
    ensures InOrder(done[last := region], [Placed(last, region.begin, region.end)] + asc)
  {
    hide InOrder;
    PrependTo(done, asc, last, region, [Placed(last, region.begin, region.end)] + asc);
  }

  lemma PrependTo(done: map<string, Region>, asc: seq<Placed>, last: string, region: Region, placed: seq<Placed>)
    requires InOrder(done, asc) && last !in done
    requires forall t :: t in done ==> region.begin < done[t].begin
    requires |placed| == |asc| + 1 && placed[0] == Placed(last, region.begin, region.end)
    requires forall k :: 0 < k < |placed| ==> placed[k] == asc[k - 1]
    ensures InOrder(done[last := region], placed)
  {
    var grown := done[last := region];
    forall k | 0 < k < |placed|
      ensures placed[k].slug in done && done[placed[k].slug] == Region(placed[k].begin, placed[k].end)
      ensures region.begin < placed[k].begin && placed[k].slug != last
    {
      assert asc[k - 1].slug in done;
    }
    forall s | s in grown ensures exists k :: 0 <= k < |placed| && placed[k].slug == s {
      if s == last {
        assert placed[0].slug == s;
      } else {
        var k :| 0 <= k < |asc| && asc[k].slug == s;
        assert placed[k + 1].slug == s;
      }
    }
    forall j, k | 0 <= j < k < |placed| ensures placed[j].begin < placed[k].begin {
      if j > 0 {
        assert asc[j - 1].begin < asc[k - 1].begin;
      }
    }
  }

  method LatestBegin(ghost lines: seq<string>, ghost slugs: set<string>, regions: map<string, Region>, some: set<string>)
      returns (last: string)
    requires ParsesTo(lines, slugs, regions) && some <= regions.Keys && some != {}
    ensures last in some && forall s :: s in some && s != last ==> regions[s].begin < regions[last].begin
  {
    hide MarkerOf, Count, MarksOnce;
    last :| last in some;
    var rest := some - {last};
    while rest != {}
      invariant last in some && last !in rest && rest <= some
      invariant forall s :: s in some && s !in rest && s != last ==> regions[s].begin < regions[last].begin
      decreases rest
    {
      var s :| s in rest;
      ParsedBeginsDiffer(lines, slugs, regions, s, last);
      if regions[s].begin > regions[last].begin {
        last := s;
      }
      rest := rest - {s};
    }
  }

  // ── Rendering a text ────────────────────────────────────────────────────

  /** `out` is what rendering `lines` gives, back to front over its parsed regions. */
  ghost predicate RendersLines(lines: seq<string>, slugs: set<string>, content: string -> string, out: seq<string>) {
    exists regions, asc ::
      ParsesTo(lines, slugs, regions) && InOrder(regions, asc) && Ascending(asc, |lines|)
      && out == BackToFront(lines, asc, content)
  }

  ghost predicate Renders(text: string, slugs: set<string>, content: string -> string, out: string) {
    exists lines :: lines != [] && RendersLines(Split(text), slugs, content, lines) && out == Join(lines)
  }

  /** The regions of `text` parse, and no two of them share a line. */
  ghost predicate WellSeparated(text: string, slugs: set<string>) {
    exists regions :: ParsesTo(Split(text), slugs, regions) && PairwiseDisjoint(regions)
  }

  ghost predicate Parses(text: string, slugs: set<string>) {
    exists regions :: ParsesTo(Split(text), slugs, regions)
  }

  /** The regions of `text` parse, but two of them share a line. */
  ghost predicate Entangled(text: string, slugs: set<string>) {
    exists regions :: ParsesTo(Split(text), slugs, regions) && !PairwiseDisjoint(regions)
  }

  method RenderReadme(text: string, slugs: seq<string>, content: string -> string) returns (r: Result<string, MarkerError>)
    requires slugs != []
    ensures r.Ok? ==> Renders(text, SetOf(slugs), content, r.value)
    ensures r.Err? ==> Explains(r.error, Split(text), SetOf(slugs))
  {
    hide MarkerOf, Count, ParsesTo, InOrder, Ascending, Join, Split, Explains;
    var lines := Split(text);
    ghost var original := lines;
    var parsed := ParseMarkerRegions(lines, slugs);
    if parsed.Err? {
      return Err(parsed.error);
    }
    var asc := SortRegions(lines, SetOf(slugs), parsed.value);
    OrderedRegionsAscend(lines, SetOf(slugs), parsed.value, asc);
    lines := SpliceAll(lines, asc, content);
    assert RendersLines(original, SetOf(slugs), content, lines);
    return Ok(Join(lines));
  }

  /** The loop over the regions in reverse order, splicing the line list in place. */
  method SpliceAll(lines0: seq<string>, asc: seq<Placed>, content: string -> string) returns (lines: seq<string>)
    requires Ascending(asc, |lines0|) && lines0 != []
    ensures lines == BackToFront(lines0, asc, content) && lines != []
  {
    lines := lines0;
    assert asc[|asc|..] == [];
    for k := |asc| downto 0
      invariant Ascending(asc[k..], |lines0|)
      invariant lines == BackToFront(lines0, asc[k..], content) && lines != []
    {
      AscendingTail(asc, |lines0|, k);
      AscendingTail(asc, |lines0|, k + 1);
      assert asc[k..][1..] == asc[k + 1..] && asc[k..][0] == asc[k];
      SpliceFits(lines0, asc[k..], content);
      lines := Splice(lines, asc[k], content(asc[k].slug));
    }
    assert asc[0..] == asc;
  }

  /** When a region's turn comes its BEGIN line is still in place. */
  lemma SpliceFits(lines: seq<string>, asc: seq<Placed>, content: string -> string)
    requires Ascending(asc, |lines|) && asc != []
    ensures Ascending(asc[1..], |lines|) && asc[0].begin < |BackToFront(lines, asc[1..], content)|
    ensures BackToFront(lines, asc, content)
            == Splice(BackToFront(lines, asc[1..], content), asc[0], content(asc[0].slug))
  {
    AscendingTail(asc, |lines|, 1);
  }

  // ── Rendering twice ─────────────────────────────────────────────────────

  ghost predicate InertContent(content: string -> string) {
    forall s :: Inert(content(s))
  }

  lemma InertIsPlain(content: string -> string)
    requires InertContent(content)
    ensures PlainContent(content)
  {
    hide MarkerOf;
    forall s ensures MarkerOf(content(s)) == Plain {
      assert Inert(content(s));
    }
  }

  lemma {:induction false} RenderedLinesStayLines(lines: seq<string>, asc: seq<Placed>, content: string -> string)
    requires Ascending(asc, |lines|) && lines != [] && InertContent(content)
    requires forall line :: line in lines ==> OneLine(line)
    ensures BackToFront(lines, asc, content) != []
    ensures forall line :: line in BackToFront(lines, asc, content) ==> OneLine(line)
    decreases |asc|
  {
    hide MarkerOf;
    if asc != [] {
      SpliceFits(lines, asc, content);
      RenderedLinesStayLines(lines, asc[1..], content);
      assert Inert(content(asc[0].slug));
    }
  }

  /** Rendering a well-separated text: the result parses to the same slugs, is well separated again, keeps
      every line outside the regions, and rendering it with other metrics shows only those. */
  lemma RenderLinesAgain(lines: seq<string>, slugs: set<string>, regions: map<string, Region>, asc: seq<Placed>,
                         first: string -> string, second: string -> string)
      returns (regions': map<string, Region>, asc': seq<Placed>)
    requires ParsesTo(lines, slugs, regions) && InOrder(regions, asc) && Ascending(asc, |lines|)
    requires PairwiseDisjoint(regions) && PlainContent(first)
    ensures var out := BackToFront(lines, asc, first);
            && ParsesTo(out, slugs, regions') && InOrder(regions', asc') && PairwiseDisjoint(regions')
            && From(asc, 0, |lines|) && From(asc', 0, |out|)
            && Outside(out, asc', 0) == Outside(lines, asc, 0)
            && Ascending(asc', |out|)
            && BackToFront(out, asc', second) == BackToFront(lines, asc, second)
  {
    PairsDisjoint(regions, asc, |lines|);
    FromIfDisjoint(asc, 0, |lines|);
    hide MarkerOf, Count, ParsesTo, InOrder, PairwiseDisjoint, Assemble, BackToFront, Moved, From, RegionsAt, Ascending, Outside;
    var out := AsAssembled(lines, asc, first);
    asc' := Moved(asc, |lines|, 0, 0);
    regions' := RegionsAt(regions, asc, asc');
    RenderedParses(lines, slugs, regions, asc, first);
    OrderedRegionsAscend(out, slugs, regions', asc');
    OutsideKept(lines, asc, 0, [], first);
    AssembleAbsorbs(lines, asc, 0, [], first, second);
    assert [] + out == out;
    var out1 := AsAssembled(lines, asc, second);
    var out2 := AsAssembled(out, asc', second);
  }

  lemma AsAssembled(lines: seq<string>, asc: seq<Placed>, content: string -> string) returns (out: seq<string>)
    requires Ascending(asc, |lines|) && From(asc, 0, |lines|)
    ensures out == BackToFront(lines, asc, content) == Assemble(lines, asc, 0, content)
  {
    out := BackToFront(lines, asc, content);
    SplicesAssemble(lines, asc, 0, content);
    assert out[0..] == out;
  }

  lemma RendersSplit(text: string, slugs: set<string>, content: string -> string, out: string)
    requires Renders(text, slugs, content, out) && InertContent(content)
    ensures RendersLines(Split(text), slugs, content, Split(out))
  {
    hide MarkerOf, Count, ParsesTo, InOrder, BackToFront, Split, Join;
    var lines :| lines != [] && RendersLines(Split(text), slugs, content, lines) && out == Join(lines);
    var regions, asc :| ParsesTo(Split(text), slugs, regions) && InOrder(regions, asc)
                     && Ascending(asc, |Split(text)|) && lines == BackToFront(Split(text), asc, content);
    SplitMakesLines(text);
    RenderedLinesStayLines(Split(text), asc, content);
    SplitUndoesJoin(lines);
  }

  /** Line `i` opens the region `s`, the next one is its content and the one after closes it. */
  ghost predicate Holds(lines: seq<string>, s: string, text: string, i: nat) {
    && i + 2 < |lines| && MarkerOf(lines[i]) == Begin(s) && lines[i + 1] == text && MarkerOf(lines[i + 2]) == End(s)
  }

  /** In a rendered text every region holds one line, and that is its content. */
  lemma RenderedRegionsHoldContent(text: string, slugs: set<string>, content: string -> string, out: string, s: string)
    requires Renders(text, slugs, content, out) && WellSeparated(text, slugs) && InertContent(content) && s in slugs
    ensures exists i :: Holds(Split(out), s, content(s), i)
  {
    RendersSplit(text, slugs, content, out);
    hide MarkerOf, Count, ParsesTo, InOrder, BackToFront, Split, Join, Ascending, PairwiseDisjoint, InertContent, Inert;
    var lines := Split(text);
    var regions, asc :| ParsesTo(lines, slugs, regions) && InOrder(regions, asc) && Ascending(asc, |lines|)
                     && Split(out) == BackToFront(lines, asc, content);
    var other :| ParsesTo(lines, slugs, other) && PairwiseDisjoint(other);
    ParsedRegionsUnique(lines, slugs, regions, other);
    PairsDisjoint(regions, asc, |lines|);
    var i := ContentOf(lines, slugs, regions, asc, content, s);
  }

  lemma ContentOf(lines: seq<string>, slugs: set<string>, regions: map<string, Region>, asc: seq<Placed>,
                  content: string -> string, s: string) returns (i: nat)
    requires ParsesTo(lines, slugs, regions) && InOrder(regions, asc) && Ascending(asc, |lines|) && Disjoint(asc)
    requires s in slugs
    ensures Holds(BackToFront(lines, asc, content), s, content(s), i)
  {
    assert s in regions && Delimits(lines, s, regions[s]);
    hide *;
    var k := PlaceOf(regions, asc, s);
    DelimitsAt(lines, slugs, regions, asc, k);
    DisjointFrom(asc, |lines|);
    var out := AsAssembled(lines, asc, content);
    MovedMarkersAt(lines, asc, content, k);
    MovedContent(lines, asc, 0, [], content, k);
    assert [] + out == out;
    i := Moved(asc, |lines|, 0, 0)[k].begin;
    HoldsAt(lines, out, asc[k], Moved(asc, |lines|, 0, 0)[k], content(s));
  }

  lemma DisjointFrom(asc: seq<Placed>, size: nat)
    requires Ascending(asc, size) && Disjoint(asc)
    ensures From(asc, 0, size)
  {
    FromIfDisjoint(asc, 0, size);
  }

  lemma HoldsAt(lines: seq<string>, out: seq<string>, p: Placed, q: Placed, text: string)
    requires Delimits(lines, p.slug, Region(p.begin, p.end)) && p.begin < p.end < |lines| && q.begin < q.end < |out|
    requires out[q.begin] == lines[p.begin] && out[q.end] == lines[p.end] && ContentAt(out, q, text)
    ensures Holds(out, p.slug, text, q.begin)
  {
    hide MarkerOf, Count;
  }

  /** Rendering is a function of the text and the contents. */
  lemma RendersUnique(lines: seq<string>, slugs: set<string>, content: string -> string, a: seq<string>, b: seq<string>)
    requires RendersLines(lines, slugs, content, a) && RendersLines(lines, slugs, content, b)
    ensures a == b
  {
    hide MarkerOf, Count, ParsesTo, InOrder, BackToFront, Ascending;
    var r1, asc1 :| ParsesTo(lines, slugs, r1) && InOrder(r1, asc1) && Ascending(asc1, |lines|) && a == BackToFront(lines, asc1, content);
    var r2, asc2 :| ParsesTo(lines, slugs, r2) && InOrder(r2, asc2) && Ascending(asc2, |lines|) && b == BackToFront(lines, asc2, content);
    ParsedRegionsUnique(lines, slugs, r1, r2);
    OrderIsUnique(r1, asc1, asc2);
  }

  /** The law of the generator, exactly: a rendered text can be rendered again if and only if the regions of
      the original were well separated, and then the second rendering overwrites the first. */
  lemma RenderingAgain(text: string, slugs: set<string>, first: string -> string, second: string -> string, once: string)
    requires Renders(text, slugs, first, once) && InertContent(first) && InertContent(second)
    ensures (exists twice :: Renders(once, slugs, second, twice)) <==> WellSeparated(text, slugs)
    ensures WellSeparated(text, slugs) ==> WellSeparated(once, slugs)
    ensures forall twice :: Renders(once, slugs, second, twice) ==> Renders(text, slugs, second, twice)
  {
    InertIsPlain(first);
    RendersSplit(text, slugs, first, once);
    hide MarkerOf, Count, ParsesTo, InOrder, BackToFront, Split, Join, InertContent, PlainContent, Ascending, PairwiseDisjoint, Inert;
    var lines, out := Split(text), Split(once);
    var regions, asc :| ParsesTo(lines, slugs, regions) && InOrder(regions, asc) && Ascending(asc, |lines|)
                     && out == BackToFront(lines, asc, first);
    if PairwiseDisjoint(regions) {
      var regions', asc' := RenderLinesAgain(lines, slugs, regions, asc, first, second);
      var both := BackToFront(out, asc', second);
      assert RendersLines(out, slugs, second, both) && RendersLines(lines, slugs, second, both);
      SplitMakesLines(text);
      RenderedLinesStayLines(lines, asc, second);
      assert Renders(once, slugs, second, Join(both)) && Renders(text, slugs, second, Join(both));
      assert WellSeparated(text, slugs) && WellSeparated(once, slugs);
      forall twice | Renders(once, slugs, second, twice) ensures Renders(text, slugs, second, twice) {
        var lines2 :| lines2 != [] && RendersLines(out, slugs, second, lines2) && twice == Join(lines2);
        RendersUnique(out, slugs, second, lines2, both);
      }
    } else {
      forall regions' ensures !ParsesTo(out, slugs, regions') {
        OverlapDestroysAMarker(lines, slugs, regions, asc, first, regions');
      }
      forall r | ParsesTo(lines, slugs, r) ensures !PairwiseDisjoint(r) {
        ParsedRegionsUnique(lines, slugs, r, regions);
      }
    }
  }

  // ── run ─────────────────────────────────────────────────────────────────

  datatype Outcome =
    | MarkerGuardFailed(error: MarkerError)
    | SecondRenderRaised
    | NotIdempotent
    | Rendered(readme: string)

  /** The README half of `run`: render, render the result again, and refuse to write unless nothing changed. */
  method Run(current: string, m: Metrics) returns (outcome: Outcome)
    requires Derived(m)
    ensures outcome != NotIdempotent
    ensures outcome.MarkerGuardFailed? ==> Explains(outcome.error, Split(current), SetOf(SLUGS))
    ensures outcome.Rendered? ==> Renders(current, SetOf(SLUGS), (s: string) => Render(s, m), outcome.readme)
    ensures outcome.MarkerGuardFailed? <==> !Parses(current, SetOf(SLUGS))
    ensures outcome.SecondRenderRaised? <==> Entangled(current, SetOf(SLUGS))
    ensures outcome.Rendered? <==> WellSeparated(current, SetOf(SLUGS))
  {
    var content := (s: string) => Render(s, m);
    forall s ensures Inert(content(s)) {
      RenderInert(s, m);
    }
    hide MarkerOf, Count, ParsesTo, Split, Join, Inert, Render, Renders, Explains, Derived;
    assert InertContent(content);
    assert SLUGS != [];
    hide SLUGS, Parses, WellSeparated, Entangled;
    OneParse(current, SetOf(SLUGS));
    var rendered := RenderReadme(current, SLUGS, content);
    if rendered.Err? {
      NoRegions(rendered.error, current, SetOf(SLUGS));
      return MarkerGuardFailed(rendered.error);
    }
    RenderedParsed(current, SetOf(SLUGS), content, rendered.value);
    var twice := RenderReadme(rendered.value, SLUGS, content);
    RenderingAgain(current, SetOf(SLUGS), content, content, rendered.value);
    if twice.Err? {
      NotRendered(twice.error, rendered.value, SetOf(SLUGS), content);
      return SecondRenderRaised;
    }
    SameRendering(current, SetOf(SLUGS), content, rendered.value, twice.value);
    if twice.value != rendered.value {
      return NotIdempotent;
    }
    return Rendered(rendered.value);
  }

  /** A text parses in at most one way, so it is separated, or entangled, or does not parse. */
  lemma OneParse(text: string, slugs: set<string>)
    ensures Parses(text, slugs) <==> WellSeparated(text, slugs) || Entangled(text, slugs)
    ensures !(WellSeparated(text, slugs) && Entangled(text, slugs))
  {
    hide MarkerOf, Count, ParsesTo, Split, PairwiseDisjoint;
    forall a, b | ParsesTo(Split(text), slugs, a) && ParsesTo(Split(text), slugs, b) ensures a == b {
      ParsedRegionsUnique(Split(text), slugs, a, b);
    }
  }

  lemma RenderedParsed(text: string, slugs: set<string>, content: string -> string, out: string)
    requires Renders(text, slugs, content, out)
    ensures Parses(text, slugs)
  {
    hide MarkerOf, Count, ParsesTo, InOrder, BackToFront, Ascending, Split, Join;
  }

  /** Entangled texts exist for any two or more slugs, so the second render does raise. */
  lemma EntangledTextsExist(slugs: seq<string>) returns (text: string)
    requires DistinctSlugs(slugs) && |slugs| >= 2
    ensures Entangled(text, SetOf(slugs))
  {
    hide MarkerOf, Count, ParsesTo, PairwiseDisjoint, Interleaved, BeginLine, EndLine, IsSlug, OneLine, Join, Split;
    var lines := Interleaved(slugs);
    var regions := OverlapParses(slugs);
    InterleavedSplits(slugs);
    text := Join(lines);
    assert ParsesTo(Split(text), SetOf(slugs), regions);
    assert Entangled(text, SetOf(slugs));
  }

  /** The eleven slugs are such a list, so there is a text for which `run` ends in the second render. */
  lemma SecondRenderCanRaise() returns (text: string)
    ensures Entangled(text, SetOf(SLUGS))
  {
    SlugsAreSlugs();
    SlugsDiffer();
    hide SLUGS, IsSlug, Entangled;
    text := EntangledTextsExist(SLUGS);
  }

  lemma SlugsAreSlugs()
    ensures |SLUGS| == 11 && forall i :: 0 <= i < |SLUGS| ==> IsSlug(SLUGS[i])
  {}

  lemma SlugsDiffer()
    ensures forall i, j :: 0 <= i < j < |SLUGS| ==> SLUGS[i] != SLUGS[j]
  {
    hide IsSlug;
  }

  lemma InterleavedSplits(slugs: seq<string>)
    requires DistinctSlugs(slugs) && slugs != []
    ensures Interleaved(slugs) != [] && Split(Join(Interleaved(slugs))) == Interleaved(slugs)
  {
    hide MarkerOf, BeginLine, EndLine, IsSlug, OneLine, Join, Split;
    var lines := Interleaved(slugs);
    forall line | line in lines ensures OneLine(line) {
      var j :| 0 <= j < |lines| && lines[j] == line;
      InterleavedAt(slugs, j);
    }
    SplitUndoesJoin(lines);
  }

  lemma NoRegions(error: MarkerError, text: string, slugs: set<string>)
    requires Explains(error, Split(text), slugs)
    ensures !Parses(text, slugs)
  {
    hide MarkerOf, Count, ParsesTo, Explains, Split;
    forall regions ensures !ParsesTo(Split(text), slugs, regions) {
      ErrorsAreFinal(error, Split(text), slugs, regions);
    }
  }

  lemma NotRendered(error: MarkerError, text: string, slugs: set<string>, content: string -> string)
    requires Explains(error, Split(text), slugs)
    ensures forall out :: !Renders(text, slugs, content, out)
  {
    hide MarkerOf, Count, ParsesTo, Explains, Split, InOrder, BackToFront, Ascending;
    forall regions ensures !ParsesTo(Split(text), slugs, regions) {
      ErrorsAreFinal(error, Split(text), slugs, regions);
    }
  }

  lemma SameRendering(text: string, slugs: set<string>, content: string -> string, a: string, b: string)
    requires Renders(text, slugs, content, a) && Renders(text, slugs, content, b)
    ensures a == b
  {
    hide RendersLines, Split, Join;
    var la :| la != [] && RendersLines(Split(text), slugs, content, la) && a == Join(la);
    var lb :| lb != [] && RendersLines(Split(text), slugs, content, lb) && b == Join(lb);
    RendersUnique(Split(text), slugs, content, la, lb);
  }
}
