/** `_find_markers`, `parse_marker_regions`, `render_readme` and the second-render guard of `run`
    (scripts/generate_repo_metrics.py:469-534, 559-567): an in-place, back-to-front splice of a line list. */
module MarkerRegions {
  import opened MarkerText
  import opened Wrappers

  datatype MarkerError = UnknownSlug | Missing(slug: string) | Duplicated(slug: string) | Reversed(slug: string)

  /** 0-based indices of the two marker lines of one slug. */
  datatype Region = Region(begin: nat, end: nat)

  datatype Placed = Placed(slug: string, begin: nat, end: nat)

  // ── Parsing ─────────────────────────────────────────────────────────────

  /** How many lines carry marker `m`. */
  ghost function Count(lines: seq<string>, m: Marker): nat {
    if lines == [] then 0
    else Count(lines[..|lines| - 1], m) + (if MarkerOf(lines[|lines| - 1]) == m then 1 else 0)
  }

  ghost predicate MarksOnce(lines: seq<string>, m: Marker, i: nat) {
    i < |lines| && MarkerOf(lines[i]) == m && Count(lines, m) == 1
  }

  ghost predicate KnownSlugs(lines: seq<string>, slugs: set<string>) {
    forall i :: 0 <= i < |lines| && MarkerOf(lines[i]) != Plain ==> MarkerOf(lines[i]).slug in slugs
  }

  ghost predicate Delimits(lines: seq<string>, s: string, r: Region) {
    MarksOnce(lines, Begin(s), r.begin) && MarksOnce(lines, End(s), r.end) && r.begin < r.end
  }

  /** Every expected slug has exactly one BEGIN, exactly one END, in that order, and no other slug is marked. */
  ghost predicate ParsesTo(lines: seq<string>, slugs: set<string>, regions: map<string, Region>) {
    && regions.Keys == slugs
    && KnownSlugs(lines, slugs)
    && forall s :: s in slugs ==> Delimits(lines, s, regions[s])
  }

  lemma {:induction false} CountAdds(a: seq<string>, b: seq<string>, m: Marker)
    ensures Count(a + b, m) == Count(a, m) + Count(b, m)
  {
    hide MarkerOf;
    if b == [] {
      assert a + b == a;
    } else {
      CountAdds(a, b[..|b| - 1], m);
      assert (a + b)[..|a + b| - 1] == a + b[..|b| - 1];
    }
  }

  lemma {:induction false} CountPositive(lines: seq<string>, m: Marker, i: nat)
    requires i < |lines| && MarkerOf(lines[i]) == m
    ensures Count(lines, m) >= 1
  {
    hide MarkerOf;
    if i < |lines| - 1 {
      CountPositive(lines[..|lines| - 1], m, i);
    }
  }

  lemma {:induction false} CountTwo(lines: seq<string>, m: Marker, i: nat, j: nat)
    requires i < j < |lines| && MarkerOf(lines[i]) == m && MarkerOf(lines[j]) == m
    ensures Count(lines, m) >= 2
  {
    hide MarkerOf;
    if j < |lines| - 1 {
      CountTwo(lines[..|lines| - 1], m, i, j);
    } else {
      CountPositive(lines[..|lines| - 1], m, i);
    }
  }

  lemma {:induction false} CountZero(lines: seq<string>, m: Marker)
    requires forall i :: 0 <= i < |lines| ==> MarkerOf(lines[i]) != m
    ensures Count(lines, m) == 0
  {
    hide MarkerOf;
    if lines != [] {
      CountZero(lines[..|lines| - 1], m);
    }
  }

  lemma MarkedOnceAt(lines: seq<string>, m: Marker, i: nat, j: nat)
    requires MarksOnce(lines, m, i) && j < |lines| && MarkerOf(lines[j]) == m
    ensures i == j
  {
    hide MarkerOf;
    if i < j {
      CountTwo(lines, m, i, j);
    } else if j < i {
      CountTwo(lines, m, j, i);
    }
  }

  function Lookup(found: map<string, seq<nat>>, slug: string): seq<nat> {
    if slug in found then found[slug] else []
  }

  /** `at` lists, in ascending order, exactly the lines that carry marker `m`. */
  ghost predicate Located(lines: seq<string>, m: Marker, at: seq<nat>) {
    && |at| == Count(lines, m)
    && (forall k :: 0 <= k < |at| ==> at[k] < |lines| && MarkerOf(lines[at[k]]) == m)
    && (forall j, k :: 0 <= j < k < |at| ==> at[j] < at[k])
  }

  ghost predicate Found(lines: seq<string>, begins: map<string, seq<nat>>, ends: map<string, seq<nat>>) {
    && (forall s :: Located(lines, Begin(s), Lookup(begins, s)))
    && (forall s :: Located(lines, End(s), Lookup(ends, s)))
    && (forall s :: s in begins ==> begins[s] != [])
    && (forall s :: s in ends ==> ends[s] != [])
  }

  method FindMarkers(lines: seq<string>) returns (begins: map<string, seq<nat>>, ends: map<string, seq<nat>>)
    ensures Found(lines, begins, ends)
  {
    hide MarkerOf;
    begins, ends := map[], map[];
    for idx := 0 to |lines|
      invariant Found(lines[..idx], begins, ends)
    {
      var marker := MarkerOf(lines[idx]);
      FoundNext(lines, idx, begins, ends);
      match marker {
        case Begin(slug) => begins := Noted(begins, slug, idx);
        case End(slug) => ends := Noted(ends, slug, idx);
        case Plain =>
      }
    }
    assert lines[..|lines|] == lines;
  }

  lemma LocatedNext(lines: seq<string>, idx: nat, m: Marker, at: seq<nat>)
    requires idx < |lines| && Located(lines[..idx], m, at)
    ensures MarkerOf(lines[idx]) == m ==> Located(lines[..idx + 1], m, at + [idx])
    ensures MarkerOf(lines[idx]) != m ==> Located(lines[..idx + 1], m, at)
  {
    hide MarkerOf;
    assert lines[..idx + 1][..idx] == lines[..idx];
    assert forall k :: 0 <= k < |at| ==> lines[..idx][at[k]] == lines[..idx + 1][at[k]];
  }

  function Noted(found: map<string, seq<nat>>, slug: string, idx: nat): map<string, seq<nat>> {
    found[slug := Lookup(found, slug) + [idx]]
  }

  lemma FoundNext(lines: seq<string>, idx: nat, begins: map<string, seq<nat>>, ends: map<string, seq<nat>>)
    requires idx < |lines| && Found(lines[..idx], begins, ends)
    ensures match MarkerOf(lines[idx])
            case Begin(slug) => Found(lines[..idx + 1], Noted(begins, slug, idx), ends)
            case End(slug) => Found(lines[..idx + 1], begins, Noted(ends, slug, idx))
            case Plain => Found(lines[..idx + 1], begins, ends)
  {
    hide MarkerOf, Located;
    var m := MarkerOf(lines[idx]);
    var begins' := if m.Begin? then Noted(begins, m.slug, idx) else begins;
    var ends' := if m.End? then Noted(ends, m.slug, idx) else ends;
    forall s ensures Located(lines[..idx + 1], Begin(s), Lookup(begins', s)) {
      LocatedNext(lines, idx, Begin(s), Lookup(begins, s));
    }
    forall s ensures Located(lines[..idx + 1], End(s), Lookup(ends', s)) {
      LocatedNext(lines, idx, End(s), Lookup(ends, s));
    }
  }

  function SetOf(slugs: seq<string>): set<string> {
    set s | s in slugs
  }

  /** Which guard an error names. */
  ghost predicate Explains(error: MarkerError, lines: seq<string>, slugs: set<string>) {
    match error
    case UnknownSlug => !KnownSlugs(lines, slugs)
    case Missing(s) => s in slugs && (Count(lines, Begin(s)) == 0 || Count(lines, End(s)) == 0)
    case Duplicated(s) =>
      && s in slugs && Count(lines, Begin(s)) > 0 && Count(lines, End(s)) > 0
      && (Count(lines, Begin(s)) > 1 || Count(lines, End(s)) > 1)
    case Reversed(s) => s in slugs && exists i, j :: j <= i && MarksOnce(lines, Begin(s), i) && MarksOnce(lines, End(s), j)
  }

  lemma ErrorsAreFinal(error: MarkerError, lines: seq<string>, slugs: set<string>, regions: map<string, Region>)
    requires Explains(error, lines, slugs)
    ensures !ParsesTo(lines, slugs, regions)
  {
    hide MarkerOf;
    if ParsesTo(lines, slugs, regions) && error.Reversed? {
      var s := error.slug;
      var i, j :| j <= i && MarksOnce(lines, Begin(s), i) && MarksOnce(lines, End(s), j);
      MarkedOnceAt(lines, Begin(s), i, regions[s].begin);
      MarkedOnceAt(lines, End(s), j, regions[s].end);
    }
  }

  /** `SLUGS` in the order the parser visits them. */
  method ParseMarkerRegions(lines: seq<string>, slugs: seq<string>) returns (r: Result<map<string, Region>, MarkerError>)
    ensures r.Ok? ==> ParsesTo(lines, SetOf(slugs), r.value)
    ensures r.Err? ==> Explains(r.error, lines, SetOf(slugs))
  {
    hide MarkerOf, Count, Found, Located, Delimits;
    ghost var expected := SetOf(slugs);
    var begins, ends := FindMarkers(lines);
    var unknown := (begins.Keys + ends.Keys) - SetOf(slugs);
    if unknown != {} {
      var s :| s in unknown;
      UnknownIsMarked(lines, expected, begins, ends, s);
      return Err(UnknownSlug);
    }
    AllKnown(lines, expected, begins, ends);
    var regions: map<string, Region> := map[];
    for k := 0 to |slugs|
      invariant regions.Keys == SetOf(slugs[..k])
      invariant forall s :: s in regions ==> Delimits(lines, s, regions[s])
    {
      var slug := slugs[k];
      assert slug in expected;
      assert slugs[..k + 1] == slugs[..k] + [slug];
      FoundFor(lines, begins, ends, slug);
      var region := LocateRegion(lines, expected, slug, Lookup(begins, slug), Lookup(ends, slug));
      if region.Err? {
        return Err(region.error);
      }
      regions := regions[slug := region.value];
    }
    assert slugs[..|slugs|] == slugs;
    return Ok(regions);
  }

  /** The three per-slug guards. */
  method LocateRegion(ghost lines: seq<string>, ghost slugs: set<string>, slug: string,
                      slugBegins: seq<nat>, slugEnds: seq<nat>) returns (r: Result<Region, MarkerError>)
    requires slug in slugs
    requires Located(lines, Begin(slug), slugBegins) && Located(lines, End(slug), slugEnds)
    ensures r.Ok? ==> Delimits(lines, slug, r.value)
    ensures r.Err? ==> Explains(r.error, lines, slugs)
  {
    hide MarkerOf, Count;
    if slugBegins == [] || slugEnds == [] {
      return Err(Missing(slug));
    }
    if |slugBegins| > 1 || |slugEnds| > 1 {
      return Err(Duplicated(slug));
    }
    var begin, end := slugBegins[0], slugEnds[0];
    assert MarksOnce(lines, Begin(slug), begin) && MarksOnce(lines, End(slug), end);
    if begin >= end {
      return Err(Reversed(slug));
    }
    return Ok(Region(begin, end));
  }

  lemma FoundFor(lines: seq<string>, begins: map<string, seq<nat>>, ends: map<string, seq<nat>>, s: string)
    requires Found(lines, begins, ends)
    ensures Located(lines, Begin(s), Lookup(begins, s)) && Located(lines, End(s), Lookup(ends, s))
  {
    hide MarkerOf;
  }

  lemma UnknownIsMarked(lines: seq<string>, slugs: set<string>, begins: map<string, seq<nat>>,
                        ends: map<string, seq<nat>>, s: string)
    requires Found(lines, begins, ends) && s !in slugs && (s in begins || s in ends)
    ensures !KnownSlugs(lines, slugs)
  {
    hide MarkerOf;
    if s in begins {
      assert Located(lines, Begin(s), Lookup(begins, s));
      var i := begins[s][0];
      assert MarkerOf(lines[i]) == Begin(s);
    } else {
      assert Located(lines, End(s), Lookup(ends, s));
      var i := ends[s][0];
      assert MarkerOf(lines[i]) == End(s);
    }
  }

  lemma AllKnown(lines: seq<string>, slugs: set<string>, begins: map<string, seq<nat>>, ends: map<string, seq<nat>>)
    requires Found(lines, begins, ends) && begins.Keys + ends.Keys - slugs == {}
    ensures KnownSlugs(lines, slugs)
  {
    hide MarkerOf;
    assert forall s :: s in begins.Keys + ends.Keys <==> s in begins || s in ends;
    assert forall s :: s in begins || s in ends ==> s in slugs || s in begins.Keys + ends.Keys - slugs;
    forall i | 0 <= i < |lines| && MarkerOf(lines[i]) != Plain ensures MarkerOf(lines[i]).slug in slugs {
      var m := MarkerOf(lines[i]);
      CountPositive(lines, m, i);
      assert Located(lines, Begin(m.slug), Lookup(begins, m.slug));
      assert Located(lines, End(m.slug), Lookup(ends, m.slug));
    }
  }

  // ── Rendering ───────────────────────────────────────────────────────────

  /** `lines[begin + 1 : end] = [text]`, with Python's clipping of a stale `end`. */
  function Splice(lines: seq<string>, p: Placed, text: string): seq<string>
    requires p.begin < |lines| && p.begin < p.end
  {
    lines[..p.begin + 1] + [text] + lines[if p.end <= |lines| then p.end else |lines|..]
  }

  /** The regions listed by ascending BEGIN line. */
  ghost predicate InOrder(regions: map<string, Region>, asc: seq<Placed>) {
    && (forall k :: 0 <= k < |asc| ==>
          asc[k].slug in regions && regions[asc[k].slug] == Region(asc[k].begin, asc[k].end))
    && (forall s :: s in regions ==> exists k :: 0 <= k < |asc| && asc[k].slug == s)
    && (forall j, k :: 0 <= j < k < |asc| ==> asc[j].begin < asc[k].begin)
  }

  /** What the splices need: BEGINs ascend, and each region is a non-empty stretch of the list. */
  ghost predicate Ascending(asc: seq<Placed>, size: nat) {
    && (forall k :: 0 <= k < |asc| ==> asc[k].begin < asc[k].end < size)
    && (forall j, k :: 0 <= j < k < |asc| ==> asc[j].begin < asc[k].begin)
  }

  /** Applying the replacements from the last region to the first. */
  ghost function BackToFront(lines: seq<string>, asc: seq<Placed>, content: string -> string): (out: seq<string>)
    requires Ascending(asc, |lines|)
    ensures asc == [] ==> out == lines
    ensures asc != [] ==> |out| > asc[0].begin + 1 && out[..asc[0].begin + 1] == lines[..asc[0].begin + 1]
    decreases |asc|
  {
    if asc == [] then lines
    else
      var later := BackToFront(lines, asc[1..], content);
      assert |asc| > 1 ==> asc[0].begin < asc[1].begin;
      assert |asc| > 1 ==> later[..asc[1].begin + 1][..asc[0].begin + 1] == lines[..asc[1].begin + 1][..asc[0].begin + 1];
      Splice(later, asc[0], content(asc[0].slug))
  }

  /** Each region has ended before the next one starts. */
  ghost predicate Disjoint(asc: seq<Placed>) {
    forall j, k :: 0 <= j < k < |asc| ==> asc[j].end < asc[k].begin
  }

  /** Two regions share no line: neither nested nor interleaved. */
  ghost predicate PairwiseDisjoint(regions: map<string, Region>) {
    forall s, t :: s in regions && t in regions && s != t ==>
      regions[s].end < regions[t].begin || regions[t].end < regions[s].begin
  }

  lemma DisjointPairs(regions: map<string, Region>, asc: seq<Placed>)
    requires InOrder(regions, asc) && Disjoint(asc)
    ensures PairwiseDisjoint(regions)
  {
    forall s, t | s in regions && t in regions && s != t
      ensures regions[s].end < regions[t].begin || regions[t].end < regions[s].begin
    {
      var j :| 0 <= j < |asc| && asc[j].slug == s;
      var k :| 0 <= k < |asc| && asc[k].slug == t;
      if j < k {
        assert asc[j].end < asc[k].begin;
      } else {
        assert asc[k].end < asc[j].begin;
      }
    }
  }

  lemma PairsDisjoint(regions: map<string, Region>, asc: seq<Placed>, size: nat)
    requires InOrder(regions, asc) && Ascending(asc, size) && PairwiseDisjoint(regions)
    ensures Disjoint(asc)
  {
    forall j, k | 0 <= j < k < |asc| ensures asc[j].end < asc[k].begin {
      var s, t := asc[j].slug, asc[k].slug;
      assert regions[s] == Region(asc[j].begin, asc[j].end) && regions[t] == Region(asc[k].begin, asc[k].end);
    }
  }

  // ── Front-to-back reading of the result, for disjoint regions ────────────

  ghost predicate From(asc: seq<Placed>, from: nat, size: nat) {
    if asc == [] then from <= size
    else from <= asc[0].begin < asc[0].end < size && From(asc[1..], asc[0].end, size)
  }

  lemma {:induction false} FromIfDisjoint(asc: seq<Placed>, from: nat, size: nat)
    requires Ascending(asc, size) && Disjoint(asc)
    requires from <= size && (asc != [] ==> from <= asc[0].begin)
    ensures From(asc, from, size)
  {
    if asc != [] {
      FromIfDisjoint(asc[1..], asc[0].end, size);
    }
  }

  lemma {:induction false} FromStartsAfter(asc: seq<Placed>, from: nat, size: nat)
    requires From(asc, from, size)
    ensures forall k :: 0 <= k < |asc| ==> from <= asc[k].begin < asc[k].end < size
    ensures forall j, k :: 0 <= j < k < |asc| ==> asc[j].end <= asc[k].begin
  {
    if asc != [] {
      FromStartsAfter(asc[1..], asc[0].end, size);
    }
  }

  /** Lines `from` onwards, with each region's inside replaced by its content. */
  ghost function Assemble(lines: seq<string>, asc: seq<Placed>, from: nat, content: string -> string): seq<string>
    requires From(asc, from, |lines|)
    decreases |asc|
  {
    if asc == [] then lines[from..]
    else lines[from..asc[0].begin + 1] + [content(asc[0].slug)] + Assemble(lines, asc[1..], asc[0].end, content)
  }

  /** Index stability: for disjoint regions the back-to-front splices give the front-to-back reading. */
  lemma {:induction false} SplicesAssemble(lines: seq<string>, asc: seq<Placed>, from: nat, content: string -> string)
    requires Ascending(asc, |lines|) && From(asc, from, |lines|)
    ensures BackToFront(lines, asc, content)[from..] == Assemble(lines, asc, from, content)
    decreases |asc|
  {
    if asc != [] {
      var later := BackToFront(lines, asc[1..], content);
      AscendingTail(asc, |lines|, 1);
      SplicesAssemble(lines, asc[1..], asc[0].end, content);
      LaterKeepsPrefix(lines, asc, from, content);
      var text := [content(asc[0].slug)];
      assert BackToFront(lines, asc, content) == lines[..asc[0].begin + 1] + text + later[asc[0].end..];
      assert Assemble(lines, asc, from, content) == lines[from..asc[0].begin + 1] + text + later[asc[0].end..];
      hide BackToFront, Assemble, From, Ascending;
      DropInside(lines, from, asc[0].begin + 1, text, later[asc[0].end..]);
      assert BackToFront(lines, asc, content)[from..] == Assemble(lines, asc, from, content);
    }
  }

  /** Splicing the later regions does not move anything up to the end of the first one. */
  lemma LaterKeepsPrefix(lines: seq<string>, asc: seq<Placed>, from: nat, content: string -> string)
    requires Ascending(asc, |lines|) && From(asc, from, |lines|) && asc != [] && Ascending(asc[1..], |lines|)
    ensures var later := BackToFront(lines, asc[1..], content);
            asc[0].end <= |later| && later[..asc[0].begin + 1] == lines[..asc[0].begin + 1]
  {
    var later := BackToFront(lines, asc[1..], content);
    FromStartsAfter(asc, from, |lines|);
    hide BackToFront, From;
    if |asc| > 1 {
      assert asc[0].end <= asc[1].begin && asc[1..][0] == asc[1];
      assert later[..asc[1].begin + 1][..asc[0].begin + 1] == lines[..asc[1].begin + 1][..asc[0].begin + 1];
    }
  }

  lemma DropInside<T>(s: seq<T>, a: nat, b: nat, t: seq<T>, u: seq<T>)
    requires a <= b <= |s|
    ensures (s[..b] + t + u)[a..] == s[a..b] + t + u
  {}

  /** Where the regions lie in the assembled text, when `off` lines precede it. */
  ghost function Moved(asc: seq<Placed>, size: nat, from: nat, off: nat): (moved: seq<Placed>)
    requires From(asc, from, size)
    ensures |moved| == |asc|
    ensures forall k :: 0 <= k < |asc| ==> moved[k].slug == asc[k].slug
    ensures asc != [] ==> moved[0].begin == off + (asc[0].begin - from)
    decreases |asc|
  {
    if asc == [] then []
    else
      var begin := off + (asc[0].begin - from);
      [Placed(asc[0].slug, begin, begin + 2)] + Moved(asc[1..], size, asc[0].end, begin + 2)
  }

  /** In the assembled text the regions are again in order, disjoint and inside the list. */
  lemma {:induction false} MovedRegions(lines: seq<string>, asc: seq<Placed>, from: nat, off: nat, content: string -> string)
    requires From(asc, from, |lines|)
    ensures From(Moved(asc, |lines|, from, off), off, off + |Assemble(lines, asc, from, content)|)
    decreases |asc|
  {
    if asc != [] {
      var begin := off + (asc[0].begin - from);
      MovedRegions(lines, asc[1..], asc[0].end, begin + 2, content);
      var rest := Moved(asc[1..], |lines|, asc[0].end, begin + 2);
      var moved := Moved(asc, |lines|, from, off);
      assert moved == [Placed(asc[0].slug, begin, begin + 2)] + rest;
      assert |asc| > 1 ==> asc[0].end <= asc[1].begin;
    }
  }

  /** One region of the assembled text: its lines up to the content, and where the rest begins. */
  lemma FirstRegion(lines: seq<string>, asc: seq<Placed>, from: nat, prefix: seq<string>, content: string -> string)
      returns (prefix': seq<string>)
    requires From(asc, from, |lines|) && asc != []
    ensures var moved := Moved(asc, |lines|, from, |prefix|);
            && |prefix'| == moved[0].end == moved[0].begin + 2
            && moved[1..] == Moved(asc[1..], |lines|, asc[0].end, |prefix'|)
            && prefix + Assemble(lines, asc, from, content) == prefix' + Assemble(lines, asc[1..], asc[0].end, content)
            && prefix'[|prefix|..moved[0].begin + 1] == lines[from..asc[0].begin + 1]
  {
    var head := lines[from..asc[0].begin + 1];
    var text := [content(asc[0].slug)];
    prefix' := prefix + head + text;
    var rest := Assemble(lines, asc[1..], asc[0].end, content);
    var begin := |prefix| + (asc[0].begin - from);
    var later := Moved(asc[1..], |lines|, asc[0].end, begin + 2);
    assert Assemble(lines, asc, from, content) == head + text + rest;
    assert Moved(asc, |lines|, from, |prefix|) == [Placed(asc[0].slug, begin, begin + 2)] + later;
    hide Assemble, Moved, From;
    Regroup(prefix, head, text, rest);
  }

  lemma Regroup<T>(a: seq<T>, b: seq<T>, c: seq<T>, d: seq<T>)
    ensures a + (b + c + d) == a + b + c + d
    ensures (a + b + c)[|a|..|a| + |b|] == b
  {}

  lemma SliceBefore<T>(a: seq<T>, b: seq<T>, i: nat, j: nat)
    requires i <= j <= |a|
    ensures (a + b)[i..j] == a[i..j]
  {}

  /** A second rendering overwrites the first: only the content of the last one shows. */
  lemma {:induction false} AssembleAbsorbs(lines: seq<string>, asc: seq<Placed>, from: nat, prefix: seq<string>,
                                           first: string -> string, second: string -> string)
    requires From(asc, from, |lines|)
    ensures var out := prefix + Assemble(lines, asc, from, first);
            var moved := Moved(asc, |lines|, from, |prefix|);
            From(moved, |prefix|, |out|) && Assemble(out, moved, |prefix|, second) == Assemble(lines, asc, from, second)
    decreases |asc|
  {
    MovedRegions(lines, asc, from, |prefix|, first);
    var out := prefix + Assemble(lines, asc, from, first);
    var moved := Moved(asc, |lines|, from, |prefix|);
    if asc == [] {
      assert out[|prefix|..] == lines[from..];
    } else {
      var prefix' := FirstRegion(lines, asc, from, prefix, first);
      var rest := Assemble(lines, asc[1..], asc[0].end, first);
      AssembleAbsorbs(lines, asc[1..], asc[0].end, prefix', first, second);
      SliceBefore(prefix', rest, |prefix|, moved[0].begin + 1);
      assert out == prefix' + rest;
      hide Moved, From;
      assert Assemble(out, moved[1..], moved[0].end, second) == Assemble(lines, asc[1..], asc[0].end, second);
      assert out[|prefix|..moved[0].begin + 1] == lines[from..asc[0].begin + 1];
      assert moved != [] && moved[0].slug == asc[0].slug;
    }
  }

  /** The lines that are not strictly inside a region, in order. */
  ghost function Outside<T>(lines: seq<T>, asc: seq<Placed>, from: nat): seq<T>
    requires From(asc, from, |lines|)
    decreases |asc|
  {
    if asc == [] then lines[from..]
    else lines[from..asc[0].begin + 1] + Outside(lines, asc[1..], asc[0].end)
  }

  ghost predicate Inside(asc: seq<Placed>, i: nat) {
    exists k :: 0 <= k < |asc| && asc[k].begin < i < asc[k].end
  }

  /** Line by line: a line stays unless it lies strictly inside a region. */
  ghost function KeptLines<T>(lines: seq<T>, asc: seq<Placed>, from: nat): seq<T>
    requires from <= |lines|
    decreases |lines| - from
  {
    if from == |lines| then []
    else (if Inside(asc, from) then [] else [lines[from]]) + KeptLines(lines, asc, from + 1)
  }

  lemma {:induction false} KeptThrough<T>(lines: seq<T>, asc: seq<Placed>, from: nat, until: nat)
    requires from <= until <= |lines|
    ensures (forall i: nat :: from <= i < until ==> !Inside(asc, i)) ==>
              KeptLines(lines, asc, from) == lines[from..until] + KeptLines(lines, asc, until)
    ensures (forall i: nat :: from <= i < until ==> Inside(asc, i)) ==> KeptLines(lines, asc, from) == KeptLines(lines, asc, until)
    decreases |lines| - from
  {
    hide *;
    if from < until {
      KeptThrough(lines, asc, from + 1, until);
      KeptNext(lines, asc, from);
      var rest := KeptLines(lines, asc, until);
      assert lines[from..until] == [lines[from]] + lines[from + 1..until];
      assert [lines[from]] + (lines[from + 1..until] + rest) == lines[from..until] + rest;
    } else {
      assert lines[from..until] + KeptLines(lines, asc, until) == KeptLines(lines, asc, until);
    }
  }

  lemma KeptNext<T>(lines: seq<T>, asc: seq<Placed>, from: nat)
    requires from < |lines|
    ensures !Inside(asc, from) ==> KeptLines(lines, asc, from) == [lines[from]] + KeptLines(lines, asc, from + 1)
    ensures Inside(asc, from) ==> KeptLines(lines, asc, from) == KeptLines(lines, asc, from + 1)
  {}

  lemma {:induction false} KeptByOthers<T>(lines: seq<T>, asc: seq<Placed>, from: nat)
    requires asc != [] && asc[0].end <= from <= |lines|
    ensures KeptLines(lines, asc, from) == KeptLines(lines, asc[1..], from)
    decreases |lines| - from
  {
    if from < |lines| {
      KeptByOthers(lines, asc, from + 1);
      if k :| 0 <= k < |asc| && asc[k].begin < from < asc[k].end {
        assert asc[1..][k - 1] == asc[k];
      }
      if k :| 0 <= k < |asc[1..]| && asc[1..][k].begin < from < asc[1..][k].end {
        assert asc[k + 1] == asc[1..][k];
      }
      assert Inside(asc, from) <==> Inside(asc[1..], from);
    }
  }

  lemma FirstRegionInside(asc: seq<Placed>, from: nat, size: nat)
    requires From(asc, from, size) && asc != []
    ensures forall i: nat :: asc[0].begin < i < asc[0].end ==> Inside(asc, i)
    ensures forall i: nat :: i <= asc[0].begin ==> !Inside(asc, i)
  {
    FromStartsAfter(asc, from, size);
    hide From;
    forall i: nat | i <= asc[0].begin ensures !Inside(asc, i) {
      assert forall k :: 0 < k < |asc| ==> asc[0].end <= asc[k].begin;
    }
  }

  /** The lines outside the regions are those that lie strictly inside none. */
  lemma {:induction false} OutsideExactly<T>(lines: seq<T>, asc: seq<Placed>, from: nat)
    requires From(asc, from, |lines|)
    ensures Outside(lines, asc, from) == KeptLines(lines, asc, from)
    decreases |asc|
  {
    if asc == [] {
      KeptThrough(lines, asc, from, |lines|);
      assert lines[from..|lines|] == lines[from..];
    } else {
      OutsideExactly(lines, asc[1..], asc[0].end);
      OutsideByFirst(lines, asc, from);
    }
  }

  lemma OutsideByFirst<T>(lines: seq<T>, asc: seq<Placed>, from: nat)
    requires From(asc, from, |lines|) && asc != [] && From(asc[1..], asc[0].end, |lines|)
    requires Outside(lines, asc[1..], asc[0].end) == KeptLines(lines, asc[1..], asc[0].end)
    ensures Outside(lines, asc, from) == KeptLines(lines, asc, from)
  {
    hide *;
    OutsideNext(lines, asc, from);
    FirstRegionInside(asc, from, |lines|);
    var p := asc[0];
    KeptThrough(lines, asc, from, p.begin + 1);
    KeptThrough(lines, asc, p.begin + 1, p.end);
    KeptByOthers(lines, asc, p.end);
    assert Outside(lines, asc, from) == KeptLines(lines, asc, from);
  }

  /** Rendering keeps every line outside the regions, and their order. */
  lemma {:induction false} OutsideKept(lines: seq<string>, asc: seq<Placed>, from: nat, prefix: seq<string>, content: string -> string)
    requires From(asc, from, |lines|)
    ensures var out := prefix + Assemble(lines, asc, from, content);
            var moved := Moved(asc, |lines|, from, |prefix|);
            From(moved, |prefix|, |out|) && Outside(out, moved, |prefix|) == Outside(lines, asc, from)
    decreases |asc|
  {
    hide *;
    MovedRegions(lines, asc, from, |prefix|, content);
    var out := prefix + Assemble(lines, asc, from, content);
    var moved := Moved(asc, |lines|, from, |prefix|);
    if asc == [] {
      OutsideOfNone(lines, asc, from, prefix, content);
    } else {
      FirstFits(asc, from, |lines|);
      var prefix' := FirstRegion(lines, asc, from, prefix, content);
      var rest := Assemble(lines, asc[1..], asc[0].end, content);
      OutsideKept(lines, asc[1..], asc[0].end, prefix', content);
      SliceBefore(prefix', rest, |prefix|, moved[0].begin + 1);
      OutsideNext(out, moved, |prefix|);
      OutsideNext(lines, asc, from);
    }
    assert From(moved, |prefix|, |out|) && Outside(out, moved, |prefix|) == Outside(lines, asc, from);
  }

  lemma OutsideOfNone(lines: seq<string>, asc: seq<Placed>, from: nat, prefix: seq<string>, content: string -> string)
    requires From(asc, from, |lines|) && asc == []
    requires From(Moved(asc, |lines|, from, |prefix|), |prefix|, |prefix + Assemble(lines, asc, from, content)|)
    ensures Outside(prefix + Assemble(lines, asc, from, content), Moved(asc, |lines|, from, |prefix|), |prefix|)
            == Outside(lines, asc, from)
  {
    assert (prefix + lines[from..])[|prefix|..] == lines[from..];
  }

  lemma OutsideNext<T>(lines: seq<T>, asc: seq<Placed>, from: nat)
    requires From(asc, from, |lines|) && asc != []
    ensures from <= asc[0].begin < asc[0].end < |lines| && From(asc[1..], asc[0].end, |lines|)
    ensures Outside(lines, asc, from) == lines[from..asc[0].begin + 1] + Outside(lines, asc[1..], asc[0].end)
  {}

  // ── The rendered text still parses ──────────────────────────────────────

  ghost predicate PlainContent(content: string -> string) {
    forall s :: MarkerOf(content(s)) == Plain
  }

  /** No marker line lies strictly inside a region. */
  ghost predicate InteriorPlain(lines: seq<string>, asc: seq<Placed>) {
    forall k, i :: 0 <= k < |asc| && asc[k].begin < i < asc[k].end && i < |lines| ==> MarkerOf(lines[i]) == Plain
  }

  lemma DisjointInteriors(lines: seq<string>, slugs: set<string>, regions: map<string, Region>, asc: seq<Placed>)
    requires ParsesTo(lines, slugs, regions) && InOrder(regions, asc) && PairwiseDisjoint(regions)
    ensures InteriorPlain(lines, asc)
  {
    hide MarkerOf, Count;
    forall k, i | 0 <= k < |asc| && asc[k].begin < i < asc[k].end && i < |lines|
      ensures MarkerOf(lines[i]) == Plain
    {
      var s, m := asc[k].slug, MarkerOf(lines[i]);
      if m != Plain {
        var t := m.slug;
        assert regions[s] == Region(asc[k].begin, asc[k].end);
        MarkedOnceAt(lines, m, if m.Begin? then regions[t].begin else regions[t].end, i);
      }
    }
  }

  /** Rendering disjoint regions neither adds nor removes a marker. */
  lemma {:induction false} MarkersKept(lines: seq<string>, asc: seq<Placed>, from: nat, content: string -> string, m: Marker)
    requires From(asc, from, |lines|) && InteriorPlain(lines, asc) && PlainContent(content) && m != Plain
    ensures Count(Assemble(lines, asc, from, content), m) == Count(lines[from..], m)
    decreases |asc|
  {
    hide MarkerOf, Count;
    if asc != [] {
      var p := asc[0];
      InteriorTail(lines, asc, from);
      MarkersKept(lines, asc[1..], p.end, content, m);
      MarkersKeptByOne(lines, from, p, content(p.slug), Assemble(lines, asc[1..], p.end, content), m);
    }
  }

  lemma MarkersKeptByOne(lines: seq<string>, from: nat, p: Placed, text: string, rest: seq<string>, m: Marker)
    requires from <= p.begin < p.end <= |lines| && m != Plain && MarkerOf(text) == Plain
    requires forall line :: line in lines[p.begin + 1..p.end] ==> MarkerOf(line) == Plain
    requires Count(rest, m) == Count(lines[p.end..], m)
    ensures Count(lines[from..p.begin + 1] + [text] + rest, m) == Count(lines[from..], m)
  {
    hide MarkerOf, Count;
    CutTwice(lines, from, p.begin + 1, p.end);
    CountMiddle(lines[from..p.begin + 1], lines[p.begin + 1..p.end], lines[p.end..], m);
    CountMiddle(lines[from..p.begin + 1], [text], rest, m);
  }

  lemma InteriorTail(lines: seq<string>, asc: seq<Placed>, from: nat)
    requires From(asc, from, |lines|) && InteriorPlain(lines, asc) && asc != []
    ensures InteriorPlain(lines, asc[1..])
    ensures forall line :: line in lines[asc[0].begin + 1..asc[0].end] ==> MarkerOf(line) == Plain
  {
    hide MarkerOf;
    forall k, i | 0 <= k < |asc[1..]| && asc[1..][k].begin < i < asc[1..][k].end && i < |lines|
      ensures MarkerOf(lines[i]) == Plain
    {
      assert asc[1..][k] == asc[k + 1];
    }
    var inside := lines[asc[0].begin + 1..asc[0].end];
    forall line | line in inside ensures MarkerOf(line) == Plain {
      var i :| 0 <= i < |inside| && inside[i] == line;
      assert lines[asc[0].begin + 1 + i] == line;
    }
  }

  lemma CutTwice<T>(s: seq<T>, a: nat, b: nat, c: nat)
    requires a <= b <= c <= |s|
    ensures s[a..] == s[a..b] + s[b..c] + s[c..]
  {}

  lemma CountMiddle(a: seq<string>, b: seq<string>, c: seq<string>, m: Marker)
    requires m != Plain && forall line :: line in b ==> MarkerOf(line) == Plain
    ensures Count(a + b + c, m) == Count(a, m) + Count(c, m)
  {
    hide MarkerOf, Count;
    CountZero(b, m);
    CountAdds(a + b, c, m);
    CountAdds(a, b, m);
  }

  lemma FirstAssembled(lines: seq<string>, asc: seq<Placed>, from: nat, content: string -> string)
    requires From(asc, from, |lines|) && from < |lines|
    ensures |Assemble(lines, asc, from, content)| > 0 && Assemble(lines, asc, from, content)[0] == lines[from]
  {}

  /** `q` in `out` has the marker lines that `p` has in `lines`. */
  ghost predicate MarkersAt(lines: seq<string>, out: seq<string>, p: Placed, q: Placed) {
    && p.begin < |lines| && p.end < |lines| && q.begin < |out| && q.end < |out|
    && out[q.begin] == lines[p.begin] && out[q.end] == lines[p.end]
  }

  lemma FirstFits(asc: seq<Placed>, from: nat, size: nat)
    requires From(asc, from, size) && asc != []
    ensures from <= asc[0].begin < asc[0].end < size && From(asc[1..], asc[0].end, size)
  {}

  /** The marker lines themselves reappear at the moved places. */
  lemma {:induction false} MovedMarkers(lines: seq<string>, asc: seq<Placed>, from: nat, prefix: seq<string>,
                                        content: string -> string, k: nat)
    requires From(asc, from, |lines|) && k < |asc|
    ensures MarkersAt(lines, prefix + Assemble(lines, asc, from, content), asc[k], Moved(asc, |lines|, from, |prefix|)[k])
    decreases |asc|
  {
    hide *;
    FirstFits(asc, from, |lines|);
    var prefix' := FirstRegion(lines, asc, from, prefix, content);
    var rest := Assemble(lines, asc[1..], asc[0].end, content);
    var moved := Moved(asc, |lines|, from, |prefix|);
    if k == 0 {
      FirstAssembled(lines, asc[1..], asc[0].end, content);
      FirstMarkers(lines, from, asc[0], prefix, prefix', rest, moved[0]);
    } else {
      MovedMarkers(lines, asc[1..], asc[0].end, prefix', content, k - 1);
      assert asc[1..][k - 1] == asc[k] && moved[1..][k - 1] == moved[k];
    }
    assert MarkersAt(lines, prefix + Assemble(lines, asc, from, content), asc[k], moved[k]);
  }

  /** One line, the content, stands between the markers of `q` in `out`. */
  ghost predicate ContentAt(out: seq<string>, q: Placed, text: string) {
    q.end == q.begin + 2 && q.begin + 1 < |out| && out[q.begin + 1] == text
  }

  /** And between them stands one line, the content of the region. */
  lemma {:induction false} MovedContent(lines: seq<string>, asc: seq<Placed>, from: nat, prefix: seq<string>,
                                        content: string -> string, k: nat)
    requires From(asc, from, |lines|) && k < |asc|
    ensures ContentAt(prefix + Assemble(lines, asc, from, content), Moved(asc, |lines|, from, |prefix|)[k],
                      content(asc[k].slug))
    decreases |asc|
  {
    hide *;
    FirstFits(asc, from, |lines|);
    var moved := Moved(asc, |lines|, from, |prefix|);
    if k == 0 {
      FirstContent(lines, asc, from, prefix, content);
    } else {
      var prefix' := FirstRegion(lines, asc, from, prefix, content);
      MovedContent(lines, asc[1..], asc[0].end, prefix', content, k - 1);
      assert asc[1..][k - 1] == asc[k] && moved[1..][k - 1] == moved[k];
    }
    assert ContentAt(prefix + Assemble(lines, asc, from, content), moved[k], content(asc[k].slug));
  }

  lemma FirstContent(lines: seq<string>, asc: seq<Placed>, from: nat, prefix: seq<string>, content: string -> string)
    requires From(asc, from, |lines|) && asc != []
    ensures ContentAt(prefix + Assemble(lines, asc, from, content), Moved(asc, |lines|, from, |prefix|)[0],
                      content(asc[0].slug))
  {
    var head, rest := lines[from..asc[0].begin + 1], Assemble(lines, asc[1..], asc[0].end, content);
    var text := content(asc[0].slug);
    assert Assemble(lines, asc, from, content) == head + [text] + rest;
    var q := Moved(asc, |lines|, from, |prefix|)[0];
    assert q.begin + 1 == |prefix| + |head| && q.end == q.begin + 2;
    hide *;
    MiddleOf(prefix, head, text, rest);
  }

  lemma MiddleOf<T>(a: seq<T>, b: seq<T>, x: T, c: seq<T>)
    ensures |a + (b + [x] + c)| > |a| + |b| && (a + (b + [x] + c))[|a| + |b|] == x
  {}

  lemma FirstMarkers(lines: seq<string>, from: nat, p: Placed, prefix: seq<string>, prefix': seq<string>,
                     rest: seq<string>, q: Placed)
    requires from <= p.begin < p.end < |lines|
    requires q.begin == |prefix| + (p.begin - from) && |prefix'| == q.end == q.begin + 2
    requires prefix'[|prefix|..q.begin + 1] == lines[from..p.begin + 1]
    requires rest != [] && rest[0] == lines[p.end]
    ensures MarkersAt(lines, prefix' + rest, p, q)
  {
    assert prefix'[|prefix|..q.begin + 1][p.begin - from] == lines[from..p.begin + 1][p.begin - from];
  }

  lemma {:induction false} CountWitness(lines: seq<string>, m: Marker) returns (i: nat)
    requires Count(lines, m) > 0
    ensures i < |lines| && MarkerOf(lines[i]) == m
  {
    hide MarkerOf;
    if MarkerOf(lines[|lines| - 1]) == m {
      i := |lines| - 1;
    } else {
      i := CountWitness(lines[..|lines| - 1], m);
    }
  }

  ghost function IndexOf(asc: seq<Placed>, s: string): (k: nat)
    requires exists k :: 0 <= k < |asc| && asc[k].slug == s
    ensures k < |asc| && asc[k].slug == s
  {
    var k :| 0 <= k < |asc| && asc[k].slug == s;
    k
  }

  /** The regions that a list of places with `regions`' slugs stands for. */
  ghost function RegionsAt(regions: map<string, Region>, asc: seq<Placed>, moved: seq<Placed>): (r: map<string, Region>)
    requires InOrder(regions, asc) && |moved| == |asc|
    ensures r.Keys == regions.Keys
  {
    map s | s in regions :: Region(moved[IndexOf(asc, s)].begin, moved[IndexOf(asc, s)].end)
  }

  lemma PlaceOf(regions: map<string, Region>, asc: seq<Placed>, s: string) returns (k: nat)
    requires InOrder(regions, asc) && s in regions
    ensures k < |asc| && asc[k].slug == s && k == IndexOf(asc, s)
  {
    k := IndexOf(asc, s);
  }

  lemma PlaceIsUnique(regions: map<string, Region>, asc: seq<Placed>, k: nat)
    requires InOrder(regions, asc) && k < |asc|
    ensures IndexOf(asc, asc[k].slug) == k
  {
    var j := IndexOf(asc, asc[k].slug);
    assert regions[asc[j].slug] == Region(asc[j].begin, asc[j].end);
    assert regions[asc[k].slug] == Region(asc[k].begin, asc[k].end);
    assert asc[j].begin == asc[k].begin;
  }

  lemma MarkersDiffer(lines: seq<string>, s: string, t: string, i: nat, j: nat)
    requires MarksOnce(lines, End(s), i) && MarksOnce(lines, Begin(t), j)
    ensures i != j
  {
    hide MarkerOf;
  }

  lemma RenderedCounts(lines: seq<string>, slugs: set<string>, regions: map<string, Region>, asc: seq<Placed>,
                       content: string -> string)
    requires ParsesTo(lines, slugs, regions) && InOrder(regions, asc) && PairwiseDisjoint(regions)
    requires From(asc, 0, |lines|) && PlainContent(content)
    ensures forall m: Marker :: m != Plain ==> Count(Assemble(lines, asc, 0, content), m) == Count(lines, m)
    ensures forall s :: s in slugs ==>
      Count(Assemble(lines, asc, 0, content), Begin(s)) == 1 && Count(Assemble(lines, asc, 0, content), End(s)) == 1
    ensures KnownSlugs(Assemble(lines, asc, 0, content), slugs)
  {
    hide MarkerOf, Count, Assemble;
    var out := Assemble(lines, asc, 0, content);
    DisjointInteriors(lines, slugs, regions, asc);
    forall m: Marker | m != Plain ensures Count(out, m) == Count(lines, m) {
      MarkersKept(lines, asc, 0, content, m);
      assert lines[0..] == lines;
    }
    forall i | 0 <= i < |out| && MarkerOf(out[i]) != Plain ensures MarkerOf(out[i]).slug in slugs {
      CountPositive(out, MarkerOf(out[i]), i);
      var j := CountWitness(lines, MarkerOf(out[i]));
    }
  }

  lemma MovedMarkersAt(lines: seq<string>, asc: seq<Placed>, content: string -> string, k: nat)
    requires From(asc, 0, |lines|) && k < |asc|
    ensures var out := Assemble(lines, asc, 0, content);
            var p := Moved(asc, |lines|, 0, 0)[k];
            && asc[k].begin < asc[k].end < |lines| && p.begin < p.end < |out|
            && out[p.begin] == lines[asc[k].begin] && out[p.end] == lines[asc[k].end]
  {
    hide Assemble, Moved, From;
    var out := Assemble(lines, asc, 0, content);
    var moved := Moved(asc, |lines|, 0, 0);
    MovedMarkers(lines, asc, 0, [], content, k);
    assert [] + out == out;
    assert MarkersAt(lines, out, asc[k], moved[k]);
    MovedRegions(lines, asc, 0, 0, content);
    FromStartsAfter(asc, 0, |lines|);
    FromStartsAfter(moved, 0, |out|);
    assert asc[k].begin < asc[k].end < |lines| && moved[k].begin < moved[k].end < |out|;
  }

  lemma RenderedMarks(lines: seq<string>, asc: seq<Placed>, content: string -> string, k: nat)
    requires From(asc, 0, |lines|) && k < |asc|
    requires Delimits(lines, asc[k].slug, Region(asc[k].begin, asc[k].end))
    requires Count(Assemble(lines, asc, 0, content), Begin(asc[k].slug)) == 1
    requires Count(Assemble(lines, asc, 0, content), End(asc[k].slug)) == 1
    ensures var p := Moved(asc, |lines|, 0, 0)[k];
            Delimits(Assemble(lines, asc, 0, content), p.slug, Region(p.begin, p.end))
  {
    hide MarkerOf, Count, Assemble, Moved, From;
    MovedMarkersAt(lines, asc, content, k);
    var p := Moved(asc, |lines|, 0, 0)[k];
    assert Delimits(Assemble(lines, asc, 0, content), p.slug, Region(p.begin, p.end));
  }

  lemma DelimitsAt(lines: seq<string>, slugs: set<string>, regions: map<string, Region>, asc: seq<Placed>, k: nat)
    requires ParsesTo(lines, slugs, regions) && InOrder(regions, asc) && k < |asc|
    ensures asc[k].slug in slugs && Delimits(lines, asc[k].slug, Region(asc[k].begin, asc[k].end))
  {
    hide MarkerOf, Count, Delimits;
    assert regions[asc[k].slug] == Region(asc[k].begin, asc[k].end);
  }

  lemma MovedInOrder(regions: map<string, Region>, asc: seq<Placed>, moved: seq<Placed>, size: nat)
    requires InOrder(regions, asc) && |moved| == |asc| && From(moved, 0, size)
    requires forall k :: 0 <= k < |asc| ==> moved[k].slug == asc[k].slug
    ensures InOrder(RegionsAt(regions, asc, moved), moved)
  {
    FromStartsAfter(moved, 0, size);
    hide From;
    var regions' := RegionsAt(regions, asc, moved);
    forall k | 0 <= k < |moved|
      ensures moved[k].slug in regions' && regions'[moved[k].slug] == Region(moved[k].begin, moved[k].end)
    {
      PlaceIsUnique(regions, asc, k);
    }
    hide RegionsAt;
    forall s | s in regions' ensures exists k :: 0 <= k < |moved| && moved[k].slug == s {
      var k :| 0 <= k < |asc| && asc[k].slug == s;
      assert moved[k].slug == s;
    }
    forall j, k | 0 <= j < k < |moved| ensures moved[j].begin < moved[k].begin {
      assert moved[j].end <= moved[k].begin;
    }
  }

  lemma ParsedRegionsDisjoint(lines: seq<string>, slugs: set<string>, regions: map<string, Region>, asc: seq<Placed>)
    requires ParsesTo(lines, slugs, regions) && InOrder(regions, asc) && From(asc, 0, |lines|)
    ensures PairwiseDisjoint(regions)
  {
    FromStartsAfter(asc, 0, |lines|);
    hide MarkerOf, Count, From;
    forall j, k | 0 <= j < k < |asc| ensures asc[j].end < asc[k].begin {
      assert regions[asc[j].slug] == Region(asc[j].begin, asc[j].end);
      assert regions[asc[k].slug] == Region(asc[k].begin, asc[k].end);
      MarkersDiffer(lines, asc[j].slug, asc[k].slug, asc[j].end, asc[k].begin);
    }
    DisjointPairs(regions, asc);
  }

  /** Everything the second parse needs: same slugs, once each, in order and disjoint again. */
  lemma RenderedParses(lines: seq<string>, slugs: set<string>, regions: map<string, Region>, asc: seq<Placed>,
                       content: string -> string)
    requires ParsesTo(lines, slugs, regions) && InOrder(regions, asc) && PairwiseDisjoint(regions)
    requires From(asc, 0, |lines|) && PlainContent(content)
    ensures var out := Assemble(lines, asc, 0, content);
            var moved := Moved(asc, |lines|, 0, 0);
            var regions' := RegionsAt(regions, asc, moved);
            ParsesTo(out, slugs, regions') && InOrder(regions', moved) && PairwiseDisjoint(regions')
  {
    hide MarkerOf, Count, Assemble, Moved, MarksOnce, InOrder, KnownSlugs, From, Delimits;
    var out := Assemble(lines, asc, 0, content);
    var moved := Moved(asc, |lines|, 0, 0);
    var regions' := RegionsAt(regions, asc, moved);
    MovedRegions(lines, asc, 0, 0, content);
    RenderedCounts(lines, slugs, regions, asc, content);
    forall s | s in slugs ensures Delimits(out, s, regions'[s]) {
      var k := PlaceOf(regions, asc, s);
      DelimitsAt(lines, slugs, regions, asc, k);
      RenderedMarks(lines, asc, content, k);
      assert regions'[s] == Region(moved[k].begin, moved[k].end);
    }
    MovedInOrder(regions, asc, moved, |out|);
    ParsedRegionsDisjoint(out, slugs, regions', moved);
  }

  // ── Overlapping regions destroy a marker ────────────────────────────────

  lemma SpliceCount(lines: seq<string>, p: Placed, text: string, m: Marker)
    requires p.begin < |lines| && p.begin < p.end && MarkerOf(text) == Plain && m != Plain
    ensures Count(Splice(lines, p, text), m) <= Count(lines, m)
    ensures (exists i :: p.begin < i < p.end && i < |lines| && MarkerOf(lines[i]) == m)
            ==> Count(Splice(lines, p, text), m) < Count(lines, m)
  {
    hide MarkerOf;
    var end := if p.end <= |lines| then p.end else |lines|;
    var head, inside, tail := lines[..p.begin + 1], lines[p.begin + 1..end], lines[end..];
    CutTwice(lines, 0, p.begin + 1, end);
    assert lines[0..] == lines && lines[0..p.begin + 1] == head;
    assert Splice(lines, p, text) == head + [text] + tail;
    if i :| p.begin < i < p.end && i < |lines| && MarkerOf(lines[i]) == m {
      assert inside[i - p.begin - 1] == lines[i];
      CountPositive(inside, m, i - p.begin - 1);
    }
    hide Splice, Count;
    CountAdds(head + inside, tail, m);
    CountAdds(head, inside, m);
    CountMiddle(head, [text], tail, m);
  }

  lemma {:induction false} MarkersNeverGrow(lines: seq<string>, asc: seq<Placed>, content: string -> string, m: Marker, j: nat)
    requires Ascending(asc, |lines|) && PlainContent(content) && m != Plain && j <= |asc|
    ensures Count(BackToFront(lines, asc, content), m) <= Count(BackToFront(lines, asc[j..], content), m)
    decreases |asc|
  {
    hide MarkerOf, Count;
    if j == 0 {
      assert asc[0..] == asc;
    } else {
      MarkersNeverGrow(lines, asc[1..], content, m, j - 1);
      assert asc[1..][j - 1..] == asc[j..];
      SpliceCount(BackToFront(lines, asc[1..], content), asc[0], content(asc[0].slug), m);
    }
  }

  /** The BEGIN of a region that starts inside the previous one is erased by that one's splice. */
  lemma BeginIsErased(lines: seq<string>, asc: seq<Placed>, content: string -> string, m: Marker)
    requires Ascending(asc, |lines|) && PlainContent(content) && m != Plain
    requires |asc| > 1 && asc[0].end > asc[1].begin && MarkerOf(lines[asc[1].begin]) == m && Count(lines, m) == 1
    ensures Count(BackToFront(lines, asc, content), m) == 0
  {
    hide MarkerOf, Count;
    var p, q, rest := asc[0], asc[1], asc[1..];
    var later := BackToFront(lines, rest, content);
    MarkersNeverGrow(lines, rest, content, m, |rest|);
    assert rest[|rest|..] == [];
    assert later[q.begin] == later[..q.begin + 1][q.begin] == lines[..q.begin + 1][q.begin];
    SpliceCount(later, p, content(p.slug), m);
  }

  lemma NeighboursOverlap(lines: seq<string>, slugs: set<string>, regions: map<string, Region>, asc: seq<Placed>)
      returns (j: nat)
    requires ParsesTo(lines, slugs, regions) && InOrder(regions, asc) && Ascending(asc, |lines|)
    requires !PairwiseDisjoint(regions)
    ensures j + 1 < |asc| && asc[j].end > asc[j + 1].begin
    ensures asc[j + 1].slug in slugs && MarksOnce(lines, Begin(asc[j + 1].slug), asc[j + 1].begin)
  {
    hide MarkerOf, Count, MarksOnce, PairwiseDisjoint;
    if Disjoint(asc) {
      DisjointPairs(regions, asc);
    }
    var i, k :| 0 <= i < k < |asc| && asc[i].end >= asc[k].begin;
    j := i;
    var p, q := asc[j], asc[j + 1];
    assert q.begin <= asc[k].begin;
    assert regions[p.slug] == Region(p.begin, p.end) && regions[q.slug] == Region(q.begin, q.end);
    assert Delimits(lines, p.slug, regions[p.slug]) && Delimits(lines, q.slug, regions[q.slug]);
    hide ParsesTo, InOrder, Ascending, Disjoint;
    MarkersDiffer(lines, p.slug, q.slug, p.end, q.begin);
    assert asc[j].end > asc[j + 1].begin && q.slug in slugs;
  }

  /** When two regions overlap, some BEGIN marker is gone after rendering, so the next parse fails. */
  lemma OverlapDestroysAMarker(lines: seq<string>, slugs: set<string>, regions: map<string, Region>, asc: seq<Placed>,
                               content: string -> string, regions': map<string, Region>)
    requires ParsesTo(lines, slugs, regions) && InOrder(regions, asc) && Ascending(asc, |lines|)
    requires PlainContent(content) && !PairwiseDisjoint(regions)
    ensures !ParsesTo(BackToFront(lines, asc, content), slugs, regions')
  {
    var j := NeighboursOverlap(lines, slugs, regions, asc);
    var tail := asc[j..];
    var m := Begin(asc[j + 1].slug);
    AscendingTail(asc, |lines|, j);
    hide MarkerOf, Count, BackToFront, PairwiseDisjoint, InOrder, Ascending, ParsesTo;
    BeginIsErased(lines, tail, content, m);
    MarkersNeverGrow(lines, asc, content, m, j);
    assert Count(BackToFront(lines, asc, content), m) == 0;
  }

  lemma AscendingTail(asc: seq<Placed>, size: nat, j: nat)
    requires Ascending(asc, size) && j <= |asc|
    ensures Ascending(asc[j..], size)
    ensures forall k :: 0 <= k < |asc| - j ==> asc[j..][k] == asc[j + k]
  {}

  // ── Overlapping regions exist ───────────────────────────────────────────

  function BeginLine(s: string): string {
    BEGIN_PREFIX + s + SUFFIX
  }

  function EndLine(s: string): string {
    END_PREFIX + s + SUFFIX
  }

  lemma MarkerLine(s: string)
    requires IsSlug(s)
    ensures MarkerOf(BeginLine(s)) == Begin(s) && MarkerOf(EndLine(s)) == End(s)
  {
    var b, e := BeginLine(s), EndLine(s);
    assert b[..|BEGIN_PREFIX|] == BEGIN_PREFIX && e[..|END_PREFIX|] == END_PREFIX;
    assert b[|b| - |SUFFIX|..] == SUFFIX && e[|e| - |SUFFIX|..] == SUFFIX;
    assert b[|BEGIN_PREFIX|..|b| - |SUFFIX|] == s && e[|END_PREFIX|..|e| - |SUFFIX|] == s;
    assert e[5] == END_PREFIX[5] == 'E' && BEGIN_PREFIX[5] == 'B';
    if |e| >= |BEGIN_PREFIX| {
      assert e[..|BEGIN_PREFIX|][5] == 'E';
    }
  }

  /** A line is the marker of a slug exactly when it consists of the comment around that slug. */
  lemma MarkersExactly(line: string, s: string)
    ensures MarkerOf(line) == Begin(s) <==> IsSlug(s) && line == BEGIN_PREFIX + s + SUFFIX
    ensures MarkerOf(line) == End(s) <==> IsSlug(s) && line == END_PREFIX + s + SUFFIX
  {
    if IsSlug(s) {
      MarkerLine(s);
    }
    var b, e, z := |BEGIN_PREFIX|, |END_PREFIX|, |line| - |SUFFIX|;
    if Matches(line, BEGIN_PREFIX) {
      assert line == line[..b] + line[b..z] + line[z..];
    }
    if Matches(line, END_PREFIX) {
      assert line == line[..e] + line[e..z] + line[z..];
    }
  }

  lemma MarkerLineOneLine(s: string)
    requires IsSlug(s)
    ensures OneLine(BeginLine(s)) && OneLine(EndLine(s))
  {
    assert OneLine(BEGIN_PREFIX) && OneLine(END_PREFIX) && OneLine(SUFFIX) && OneLine(s);
  }

  lemma {:induction false} CountOnce(lines: seq<string>, m: Marker, i: nat)
    requires i < |lines| && MarkerOf(lines[i]) == m
    requires forall j :: 0 <= j < |lines| && MarkerOf(lines[j]) == m ==> j == i
    ensures MarksOnce(lines, m, i)
  {
    hide MarkerOf;
    if i == |lines| - 1 {
      CountZero(lines[..i], m);
    } else {
      CountOnce(lines[..|lines| - 1], m, i);
    }
  }

  /** All BEGIN lines, then all END lines. */
  function Interleaved(slugs: seq<string>): (lines: seq<string>)
    ensures |lines| == 2 * |slugs|
  {
    seq(2 * |slugs|, j requires 0 <= j < 2 * |slugs| =>
      if j < |slugs| then BeginLine(slugs[j]) else EndLine(slugs[j - |slugs|]))
  }

  ghost predicate DistinctSlugs(slugs: seq<string>) {
    && (forall i :: 0 <= i < |slugs| ==> IsSlug(slugs[i]))
    && (forall i, j :: 0 <= i < j < |slugs| ==> slugs[i] != slugs[j])
  }

  lemma InterleavedAt(slugs: seq<string>, j: nat)
    requires DistinctSlugs(slugs) && j < 2 * |slugs|
    ensures OneLine(Interleaved(slugs)[j])
    ensures MarkerOf(Interleaved(slugs)[j]) == if j < |slugs| then Begin(slugs[j]) else End(slugs[j - |slugs|])
  {
    hide BeginLine, EndLine, MarkerOf;
    var s := slugs[if j < |slugs| then j else j - |slugs|];
    MarkerLine(s);
    MarkerLineOneLine(s);
  }

  lemma InterleavedMarks(slugs: seq<string>, i: nat)
    requires DistinctSlugs(slugs) && i < |slugs|
    ensures Delimits(Interleaved(slugs), slugs[i], Region(i, |slugs| + i))
  {
    hide MarkerOf, Count, BeginLine, EndLine, IsSlug, Interleaved;
    var lines := Interleaved(slugs);
    InterleavedAt(slugs, i);
    InterleavedAt(slugs, |slugs| + i);
    forall j | 0 <= j < |lines| && MarkerOf(lines[j]) == Begin(slugs[i]) ensures j == i {
      InterleavedAt(slugs, j);
    }
    forall j | 0 <= j < |lines| && MarkerOf(lines[j]) == End(slugs[i]) ensures j == |slugs| + i {
      InterleavedAt(slugs, j);
    }
    CountOnce(lines, Begin(slugs[i]), i);
    CountOnce(lines, End(slugs[i]), |slugs| + i);
  }

  lemma InterleavedKnown(slugs: seq<string>)
    requires DistinctSlugs(slugs)
    ensures KnownSlugs(Interleaved(slugs), SetOf(slugs))
  {
    hide MarkerOf, BeginLine, EndLine, IsSlug, Interleaved;
    var lines := Interleaved(slugs);
    forall j | 0 <= j < |lines| && MarkerOf(lines[j]) != Plain ensures MarkerOf(lines[j]).slug in SetOf(slugs) {
      InterleavedAt(slugs, j);
    }
  }

  ghost function IndexIn(slugs: seq<string>, s: string): (i: nat)
    requires s in slugs
    ensures i < |slugs| && slugs[i] == s
  {
    var i: nat :| i < |slugs| && slugs[i] == s;
    i
  }

  /** For any two or more slugs there are lines that parse although their regions overlap. For two slugs these are the
      four lines BEGIN a, BEGIN b, END a, END b. */
  lemma OverlapParses(slugs: seq<string>) returns (regions: map<string, Region>)
    requires DistinctSlugs(slugs) && |slugs| >= 2
    ensures ParsesTo(Interleaved(slugs), SetOf(slugs), regions) && !PairwiseDisjoint(regions)
  {
    hide MarkerOf, Count, Delimits, KnownSlugs, Interleaved, IsSlug, BeginLine, EndLine;
    var lines, n := Interleaved(slugs), |slugs|;
    regions := map s | s in SetOf(slugs) :: Region(IndexIn(slugs, s), n + IndexIn(slugs, s));
    InterleavedKnown(slugs);
    forall s | s in SetOf(slugs) ensures Delimits(lines, s, regions[s]) {
      InterleavedMarks(slugs, IndexIn(slugs, s));
    }
    assert regions.Keys == SetOf(slugs);
    var a, b := slugs[0], slugs[1];
    assert a in SetOf(slugs) && b in SetOf(slugs) && IndexIn(slugs, a) == 0 && IndexIn(slugs, b) == 1;
    assert regions[a] == Region(0, n) && regions[b] == Region(1, n + 1);
    assert ParsesTo(lines, SetOf(slugs), regions) && !PairwiseDisjoint(regions);
  }
}
