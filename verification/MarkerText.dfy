/** Lines, markers and rendered region contents of `scripts/generate_repo_metrics.py`. */
module MarkerText {

  // ── text.split("\n") and "\n".join(lines) ───────────────────────────────

  function Split(text: string): (lines: seq<string>)
    ensures lines != []
  {
    if text == [] then [[]]
    else if text[0] == '\n' then [[]] + Split(text[1..])
    else
      var rest := Split(text[1..]);
      [[text[0]] + rest[0]] + rest[1..]
  }

  function Join(lines: seq<string>): string
    requires lines != []
  {
    if |lines| == 1 then lines[0] else lines[0] + "\n" + Join(lines[1..])
  }

  ghost predicate OneLine(line: string) {
    '\n' !in line
  }

  lemma {:induction false} SplitMakesLines(text: string)
    ensures forall line :: line in Split(text) ==> OneLine(line)
  {
    if text != [] {
      SplitMakesLines(text[1..]);
      var rest := Split(text[1..]);
      assert OneLine(rest[0]);
      assert forall line :: line in rest[1..] ==> line in rest;
    }
  }

  lemma {:induction false} JoinUndoesSplit(text: string)
    ensures Join(Split(text)) == text
  {
    if text != [] {
      JoinUndoesSplit(text[1..]);
      var rest := Split(text[1..]);
      if text[0] == '\n' {
        assert ([[]] + rest)[1..] == rest;
        assert Join([[]] + rest) == [] + "\n" + Join(rest);
        assert [] + "\n" + text[1..] == text;
      } else {
        var lines := [[text[0]] + rest[0]] + rest[1..];
        assert lines[1..] == rest[1..];
        assert Join(lines) == [text[0]] + Join(rest);
        assert [text[0]] + text[1..] == text;
      }
    }
  }

  lemma {:induction false} SplitLine(line: string, rest: string)
    requires OneLine(line)
    ensures Split(line) == [line]
    ensures Split(line + "\n" + rest) == [line] + Split(rest)
  {
    if line == [] {
      assert line + "\n" + rest == "\n" + rest;
      assert ("\n" + rest)[1..] == rest;
    } else {
      assert line[0] in line;
      assert forall c :: c in line[1..] ==> c in line;
      SplitLine(line[1..], rest);
      assert (line + "\n" + rest)[1..] == line[1..] + "\n" + rest;
      assert [line[0]] + line[1..] == line;
    }
  }

  lemma {:induction false} SplitUndoesJoin(lines: seq<string>)
    requires lines != [] && forall line :: line in lines ==> OneLine(line)
    ensures Split(Join(lines)) == lines
  {
    assert lines[0] in lines;
    if |lines| == 1 {
      SplitLine(lines[0], "");
      assert [lines[0]] == lines;
    } else {
      assert forall line :: line in lines[1..] ==> line in lines;
      SplitUndoesJoin(lines[1..]);
      SplitLine(lines[0], Join(lines[1..]));
      assert [lines[0]] + lines[1..] == lines;
    }
  }

  // ── Marker comments ─────────────────────────────────────────────────────

  datatype Marker = Plain | Begin(slug: string) | End(slug: string)

  const BEGIN_PREFIX := "<!-- BEGIN GENERATED REPOSITORY METRICS: "
  const END_PREFIX := "<!-- END GENERATED REPOSITORY METRICS: "
  const SUFFIX := " -->"

  predicate IsSlug(s: string) {
    s != [] && forall c :: c in s ==> 'a' <= c <= 'z' || '0' <= c <= '9' || c == '-'
  }

  /** `line` is `prefix`, a slug, and the comment end. */
  predicate Matches(line: string, prefix: string) {
    && |line| > |prefix| + |SUFFIX|
    && line[..|prefix|] == prefix
    && line[|line| - |SUFFIX|..] == SUFFIX
    && IsSlug(line[|prefix|..|line| - |SUFFIX|])
  }

  function MarkerOf(line: string): Marker {
    if Matches(line, BEGIN_PREFIX) then Begin(line[|BEGIN_PREFIX|..|line| - |SUFFIX|])
    else if Matches(line, END_PREFIX) then End(line[|END_PREFIX|..|line| - |SUFFIX|])
    else Plain
  }

  /** Every marker line starts with `<`. */
  lemma MarkerLinesStartWithAngle(line: string)
    requires MarkerOf(line) != Plain
    ensures line != [] && line[0] == '<'
  {
    assert BEGIN_PREFIX[0] == '<' && END_PREFIX[0] == '<';
    if Matches(line, BEGIN_PREFIX) {
      assert line[..|BEGIN_PREFIX|][0] == line[0];
    } else {
      assert line[..|END_PREFIX|][0] == line[0];
    }
  }

  // ── What the regions are filled with ────────────────────────────────────

  datatype Metrics = Metrics(
    backendTests: nat, testFiles: nat, vitestTests: nat, apiOperations: nat,
    pythonRuntime: string, nextjsVersion: string, reactVersion: string, typescriptVersion: string)

  function Decimal(n: nat): string {
    if n < 10 then ['0' + n as char] else Decimal(n / 10) + ['0' + (n % 10) as char]
  }

  /** `version.split(".", 1)[0]`. */
  function Major(version: string): string {
    if version == [] || version[0] == '.' then [] else [version[0]] + Major(version[1..])
  }

  const SLUGS: seq<string> := [
    "badge-api-operations", "badge-nextjs", "badge-python-runtime", "badge-react", "badge-tests",
    "badge-typescript", "summary-test-stats", "techstack-backend-runtime", "techstack-frontend",
    "techstack-testing", "tree-backend-tests"]

  /** The shape shared by the six badges. */
  function Badge(alt: string, name: string, value: string, colour: string, query: string): seq<string> {
    ["![", alt, "](https://", "img.shields.io/badge/", name, "-", value, colour, query, ")"]
  }

  const WHITE := "&logoColor=white"

  function BadgePieces(slug: string, m: Metrics): seq<string> {
    if slug == "badge-python-runtime" then
      Badge("Python", "Python", m.pythonRuntime, "-3776AB", "?logo=python" + WHITE)
    else if slug == "badge-nextjs" then
      Badge("Next.js", "Next.js", Major(m.nextjsVersion), "-000000", "?logo=nextdotjs" + WHITE)
    else if slug == "badge-react" then
      Badge("React", "React", Major(m.reactVersion), "-61DAFB", "?logo=react" + "&logoColor=111111")
    else if slug == "badge-typescript" then
      Badge("TypeScript", "TypeScript", Major(m.typescriptVersion), "-3178C6", "?logo=typescript" + WHITE)
    else if slug == "badge-tests" then
      Badge("Tests", "Tests", Decimal(m.backendTests), "_collected-28A745", "?logo=pytest" + WHITE)
    else
      Badge("API Operations", "API_Operations", Decimal(m.apiOperations), "-blue", "")
  }

  function TestLinePieces(slug: string, m: Metrics): seq<string> {
    if slug == "tree-backend-tests" then
      ["  tests/         ", "        ", Decimal(m.testFiles), " test files, ", Decimal(m.backendTests), " tests"]
    else if slug == "techstack-testing" then
      ["| Testing | pytest (", Decimal(m.backendTests), " tests collected),", " Vitest (",
       Decimal(m.vitestTests), " tests), ", "Playwright |"]
    else
      ["**Current ", "test stats:** ", Decimal(m.backendTests), " backend tests", " collected across ",
       Decimal(m.testFiles), " test files.", " Frontend: ", Decimal(m.vitestTests), " Vitest tests."]
  }

  function StackLinePieces(slug: string, m: Metrics): seq<string> {
    if slug == "techstack-backend-runtime" then
      ["| Backend API |", " Python ", m.pythonRuntime, ", FastAPI, ", "Pydantic v2, ", "SQLAlchemy |"]
    else
      ["| Frontend |", " Next.js ", Major(m.nextjsVersion), ", React ", Major(m.reactVersion), ", TypeScript ",
       Major(m.typescriptVersion), ", Tailwind CSS 4,", " Recharts, D3 |"]
  }

  const BADGES: seq<string> := [
    "badge-python-runtime", "badge-nextjs", "badge-react", "badge-typescript", "badge-tests", "badge-api-operations"]
  const STACK_LINES: seq<string> := ["techstack-backend-runtime", "techstack-frontend"]

  /** `REGION_RENDERERS[slug](metrics)` in pieces; the eleven slugs are `SLUGS`. */
  function Pieces(slug: string, m: Metrics): seq<string> {
    if slug in BADGES then BadgePieces(slug, m)
    else if slug in STACK_LINES then StackLinePieces(slug, m)
    else TestLinePieces(slug, m)
  }

  function Concat(pieces: seq<string>): string {
    if pieces == [] then "" else pieces[0] + Concat(pieces[1..])
  }

  function Render(slug: string, m: Metrics): string {
    Concat(Pieces(slug, m))
  }

  // ── What the regions show ───────────────────────────────────────────────

  /** The parts, one after the other, somewhere in the line. */
  ghost predicate Shows(line: string, parts: seq<string>) {
    exists a: string, b: string :: line == a + Concat(parts) + b
  }

  lemma {:induction false} ConcatOfTwo(a: seq<string>, b: seq<string>)
    ensures Concat(a + b) == Concat(a) + Concat(b)
  {
    if a == [] {
      assert a + b == b;
    } else {
      ConcatOfTwo(a[1..], b);
      assert (a + b)[1..] == a[1..] + b && (a + b)[0] == a[0];
      assert Concat(a + b) == a[0] + Concat(a[1..] + b);
    }
  }

  lemma ShowsMiddle(a: seq<string>, b: seq<string>, c: seq<string>)
    ensures Shows(Concat(a + b + c), b)
  {
    hide Concat;
    ConcatOfTwo(a + b, c);
    ConcatOfTwo(a, b);
    assert Concat(a + b + c) == Concat(a) + Concat(b) + Concat(c);
  }

  lemma ShowsSlice(pieces: seq<string>, i: nat, j: nat)
    requires i <= j <= |pieces|
    ensures Shows(Concat(pieces), pieces[i..j])
  {
    hide *;
    ShowsMiddle(pieces[..i], pieces[i..j], pieces[j..]);
    assert pieces[..i] + pieces[i..j] == pieces[..j];
    assert pieces[..j] + pieces[j..] == pieces;
  }

  lemma BadgeShows(alt: string, name: string, value: string, colour: string, query: string)
    ensures Shows(Concat(Badge(alt, name, value, colour, query)), ["img.shields.io/badge/", name, "-", value, colour])
  {
    var pieces := Badge(alt, name, value, colour, query);
    ShowsSlice(pieces, 3, 8);
    assert pieces[3..8] == ["img.shields.io/badge/", name, "-", value, colour];
  }

  /** Each version badge shows the version it is named after ... */
  lemma VersionBadgesShowMetrics(m: Metrics)
    ensures Shows(Render("badge-python-runtime", m), ["img.shields.io/badge/", "Python", "-", m.pythonRuntime, "-3776AB"])
    ensures Shows(Render("badge-nextjs", m), ["img.shields.io/badge/", "Next.js", "-", Major(m.nextjsVersion), "-000000"])
    ensures Shows(Render("badge-react", m), ["img.shields.io/badge/", "React", "-", Major(m.reactVersion), "-61DAFB"])
    ensures Shows(Render("badge-typescript", m),
                  ["img.shields.io/badge/", "TypeScript", "-", Major(m.typescriptVersion), "-3178C6"])
  {
    hide Shows, Concat, Decimal, Major, Badge;
    assert BADGES[0] == "badge-python-runtime" && BADGES[1] == "badge-nextjs" && BADGES[2] == "badge-react";
    assert BADGES[3] == "badge-typescript";
    BadgeShows("Python", "Python", m.pythonRuntime, "-3776AB", "?logo=python" + WHITE);
    BadgeShows("Next.js", "Next.js", Major(m.nextjsVersion), "-000000", "?logo=nextdotjs" + WHITE);
    BadgeShows("React", "React", Major(m.reactVersion), "-61DAFB", "?logo=react" + "&logoColor=111111");
    BadgeShows("TypeScript", "TypeScript", Major(m.typescriptVersion), "-3178C6", "?logo=typescript" + WHITE);
  }

  /** ... and the two others show their counts. */
  lemma CountBadgesShowMetrics(m: Metrics)
    ensures Shows(Render("badge-tests", m),
                  ["img.shields.io/badge/", "Tests", "-", Decimal(m.backendTests), "_collected-28A745"])
    ensures Shows(Render("badge-api-operations", m),
                  ["img.shields.io/badge/", "API_Operations", "-", Decimal(m.apiOperations), "-blue"])
  {
    hide Shows, Concat, Decimal, Major, Badge;
    assert BADGES[4] == "badge-tests" && BADGES[5] == "badge-api-operations";
    BadgeShows("Tests", "Tests", Decimal(m.backendTests), "_collected-28A745", "?logo=pytest" + WHITE);
    BadgeShows("API Operations", "API_Operations", Decimal(m.apiOperations), "-blue", "");
  }

  lemma NoBadge(slug: string)
    requires slug != [] && slug[0] != 'b'
    ensures slug !in BADGES
  {
    assert forall i :: 0 <= i < |BADGES| ==> BADGES[i][0] == 'b';
  }

  lemma NoStackLine(slug: string)
    requires |slug| > 1 && (slug[0] != 't' || slug[1] != 'e')
    ensures slug !in STACK_LINES
  {
    assert forall i :: 0 <= i < |STACK_LINES| ==> STACK_LINES[i][0] == 't' && STACK_LINES[i][1] == 'e';
  }

  lemma NoStackLineByLength()
    ensures "techstack-testing" !in STACK_LINES
  {
    assert forall i :: 0 <= i < |STACK_LINES| ==> |STACK_LINES[i]| >= 18;
    assert |"techstack-testing"| == 17;
  }

  /** The test lines show the counts in front of what they count. */
  lemma TestLinesShowMetrics(m: Metrics)
    ensures Shows(Render("tree-backend-tests", m),
                  [Decimal(m.testFiles), " test files, ", Decimal(m.backendTests), " tests"])
    ensures Shows(Render("techstack-testing", m),
                  ["| Testing | pytest (", Decimal(m.backendTests), " tests collected),", " Vitest (",
                   Decimal(m.vitestTests), " tests), "])
    ensures Shows(Render("summary-test-stats", m),
                  [Decimal(m.backendTests), " backend tests", " collected across ", Decimal(m.testFiles), " test files.",
                   " Frontend: ", Decimal(m.vitestTests), " Vitest tests."])
  {
    hide Shows, Concat, Decimal;
    NoBadge("tree-backend-tests");
    NoBadge("techstack-testing");
    NoBadge("summary-test-stats");
    NoStackLine("tree-backend-tests");
    NoStackLineByLength();
    NoStackLine("summary-test-stats");
    TestLineParts(m);
  }

  lemma TestLineParts(m: Metrics)
    ensures Shows(Concat(TestLinePieces("tree-backend-tests", m)),
                  [Decimal(m.testFiles), " test files, ", Decimal(m.backendTests), " tests"])
    ensures Shows(Concat(TestLinePieces("techstack-testing", m)),
                  ["| Testing | pytest (", Decimal(m.backendTests), " tests collected),", " Vitest (",
                   Decimal(m.vitestTests), " tests), "])
    ensures Shows(Concat(TestLinePieces("summary-test-stats", m)),
                  [Decimal(m.backendTests), " backend tests", " collected across ", Decimal(m.testFiles), " test files.",
                   " Frontend: ", Decimal(m.vitestTests), " Vitest tests."])
  {
    hide Shows, Concat, Decimal;
    var tree, stack := TestLinePieces("tree-backend-tests", m), TestLinePieces("techstack-testing", m);
    var summary := TestLinePieces("summary-test-stats", m);
    ShowsSlice(tree, 2, 6);
    ShowsSlice(stack, 0, 6);
    assert "summary-test-stats"[0] == 's' && "tree-backend-tests"[0] == 't' && "techstack-testing"[0] == 't';
    ShowsSlice(summary, 2, 10);
    assert tree[2..6] == [Decimal(m.testFiles), " test files, ", Decimal(m.backendTests), " tests"];
    assert stack[0..6] == ["| Testing | pytest (", Decimal(m.backendTests), " tests collected),", " Vitest (",
                           Decimal(m.vitestTests), " tests), "];
    assert summary[2..10] == [Decimal(m.backendTests), " backend tests", " collected across ", Decimal(m.testFiles),
                              " test files.", " Frontend: ", Decimal(m.vitestTests), " Vitest tests."];
  }

  /** The lines of the stack table show the versions behind the names. */
  lemma StackLinesShowMetrics(m: Metrics)
    ensures Shows(Render("techstack-backend-runtime", m), [" Python ", m.pythonRuntime, ", FastAPI, "])
    ensures Shows(Render("techstack-frontend", m),
                  [" Next.js ", Major(m.nextjsVersion), ", React ", Major(m.reactVersion), ", TypeScript ",
                   Major(m.typescriptVersion), ", Tailwind CSS 4,"])
  {
    hide Shows, Concat, Major;
    NoBadge("techstack-backend-runtime");
    NoBadge("techstack-frontend");
    assert STACK_LINES[0] == "techstack-backend-runtime" && STACK_LINES[1] == "techstack-frontend";
    assert |"techstack-backend-runtime"| == 25 && |"techstack-frontend"| == 18;
    var runtime, frontend := StackLinePieces("techstack-backend-runtime", m), StackLinePieces("techstack-frontend", m);
    ShowsSlice(runtime, 1, 4);
    ShowsSlice(frontend, 1, 8);
    assert runtime[1..4] == [" Python ", m.pythonRuntime, ", FastAPI, "];
    assert frontend[1..8] == [" Next.js ", Major(m.nextjsVersion), ", React ", Major(m.reactVersion), ", TypeScript ",
                              Major(m.typescriptVersion), ", Tailwind CSS 4,"];
  }

  /** The number that a decimal numeral means. */
  function Meaning(numeral: string): int {
    if numeral == [] then 0
    else 10 * Meaning(numeral[..|numeral| - 1]) + (numeral[|numeral| - 1] as int - '0' as int)
  }

  lemma {:induction false} DecimalMeans(n: nat)
    ensures Meaning(Decimal(n)) == n && Decimal(n) != [] && (n > 0 ==> Decimal(n)[0] != '0')
  {
    if n >= 10 {
      DecimalMeans(n / 10);
      assert Decimal(n)[..|Decimal(n)| - 1] == Decimal(n / 10);
    } else {
      assert Decimal(n)[..0] == [];
    }
  }

  /** What stands in front of the first dot, or everything. */
  lemma {:induction false} MajorEndsAtDot(a: string, b: string)
    requires '.' !in a
    ensures Major(a) == a && Major(a + "." + b) == a
  {
    if a == [] {
      assert (a + "." + b)[0] == '.';
    } else {
      assert '.' !in a[1..] && a[0] != '.';
      MajorEndsAtDot(a[1..], b);
      assert (a + "." + b)[1..] == a[1..] + "." + b;
      assert [a[0]] + a[1..] == a;
    }
  }

  ghost predicate Digits(s: string) {
    forall c :: c in s ==> '0' <= c <= '9'
  }

  /** What the derivations guarantee: the runtime is `digits.digits`, and a version starts `digits.`. */
  ghost predicate Derived(m: Metrics) {
    && (forall c :: c in m.pythonRuntime ==> '0' <= c <= '9' || c == '.')
    && Digits(Major(m.nextjsVersion)) && Digits(Major(m.reactVersion)) && Digits(Major(m.typescriptVersion))
  }

  lemma {:induction false} DecimalIsDigits(n: nat)
    ensures Digits(Decimal(n))
  {
    if n >= 10 {
      DecimalIsDigits(n / 10);
    }
  }

  lemma CountsAreDigits(m: Metrics)
    ensures Digits(Decimal(m.backendTests)) && Digits(Decimal(m.testFiles))
    ensures Digits(Decimal(m.vitestTests)) && Digits(Decimal(m.apiOperations))
  {
    DecimalIsDigits(m.backendTests);
    DecimalIsDigits(m.testFiles);
    DecimalIsDigits(m.vitestTests);
    DecimalIsDigits(m.apiOperations);
  }

  /** A line that can neither be mistaken for a marker nor break into two lines. */
  ghost predicate Inert(line: string) {
    MarkerOf(line) == Plain && OneLine(line)
  }

  lemma InertByFirst(line: string)
    requires OneLine(line) && line != [] && line[0] != '<'
    ensures Inert(line)
  {
    if MarkerOf(line) != Plain {
      MarkerLinesStartWithAngle(line);
    }
  }

  /** Pieces without line breaks, of which the first starts with something else than `<`. */
  ghost predicate Harmless(pieces: seq<string>) {
    && pieces != [] && pieces[0] != [] && pieces[0][0] != '<'
    && forall i :: 0 <= i < |pieces| ==> OneLine(pieces[i])
  }

  lemma {:induction false} ConcatOneLine(pieces: seq<string>)
    requires forall i :: 0 <= i < |pieces| ==> OneLine(pieces[i])
    ensures OneLine(Concat(pieces))
  {
    if pieces != [] {
      ConcatOneLine(pieces[1..]);
    }
  }

  lemma BadgeHarmless(alt: string, name: string, value: string, colour: string, query: string)
    requires OneLine(alt) && OneLine(name) && OneLine(value) && OneLine(colour) && OneLine(query)
    ensures Harmless(Badge(alt, name, value, colour, query))
  {}

  lemma BadgePiecesHarmless(slug: string, m: Metrics)
    requires Derived(m)
    ensures Harmless(BadgePieces(slug, m))
  {
    hide Badge, Harmless, Major, Decimal;
    CountsAreDigits(m);
    if slug == "badge-python-runtime" {
      BadgeHarmless("Python", "Python", m.pythonRuntime, "-3776AB", "?logo=python" + WHITE);
    } else if slug == "badge-nextjs" {
      BadgeHarmless("Next.js", "Next.js", Major(m.nextjsVersion), "-000000", "?logo=nextdotjs" + WHITE);
    } else if slug == "badge-react" {
      BadgeHarmless("React", "React", Major(m.reactVersion), "-61DAFB", "?logo=react" + "&logoColor=111111");
    } else if slug == "badge-typescript" {
      BadgeHarmless("TypeScript", "TypeScript", Major(m.typescriptVersion), "-3178C6", "?logo=typescript" + WHITE);
    } else if slug == "badge-tests" {
      BadgeHarmless("Tests", "Tests", Decimal(m.backendTests), "_collected-28A745", "?logo=pytest" + WHITE);
    } else {
      BadgeHarmless("API Operations", "API_Operations", Decimal(m.apiOperations), "-blue", "");
    }
    assert Harmless(BadgePieces(slug, m));
  }

  lemma HarmlessLine(first: string, rest: seq<string>)
    requires OneLine(first) && first != [] && first[0] != '<'
    requires forall i :: 0 <= i < |rest| ==> OneLine(rest[i])
    ensures Harmless([first] + rest)
  {}

  lemma TestLinePiecesHarmless(slug: string, m: Metrics)
    ensures Harmless(TestLinePieces(slug, m))
  {
    hide Harmless, Major, Decimal;
    CountsAreDigits(m);
    var pieces := TestLinePieces(slug, m);
    if slug == "tree-backend-tests" {
      HarmlessLine(pieces[0], pieces[1..]);
    } else if slug == "techstack-testing" {
      HarmlessLine(pieces[0], pieces[1..]);
    } else {
      HarmlessLine(pieces[0], pieces[1..]);
    }
    assert [pieces[0]] + pieces[1..] == pieces;
  }

  lemma StackLinePiecesHarmless(slug: string, m: Metrics)
    requires Derived(m)
    ensures Harmless(StackLinePieces(slug, m))
  {
    hide Harmless, Major, Decimal;
    var pieces := StackLinePieces(slug, m);
    if slug == "techstack-backend-runtime" {
      HarmlessLine(pieces[0], pieces[1..]);
    } else {
      HarmlessLine(pieces[0], pieces[1..]);
    }
    assert [pieces[0]] + pieces[1..] == pieces;
  }

  /** No rendered line is a marker or breaks. */
  lemma RenderInert(slug: string, m: Metrics)
    requires Derived(m)
    ensures Inert(Render(slug, m))
  {
    hide BadgePieces, TestLinePieces, StackLinePieces, Derived;
    BadgePiecesHarmless(slug, m);
    TestLinePiecesHarmless(slug, m);
    StackLinePiecesHarmless(slug, m);
    ConcatOneLine(Pieces(slug, m));
    InertByFirst(Render(slug, m));
  }
}
