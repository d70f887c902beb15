/** Backup ids as paths: the relation `same_backup` and the SQL LIKE filter placed in front of it
    (`backend/backup_evidence.py`). */
module BackupIds {
  import opened Wrappers

  // ── LIKE ────────────────────────────────────────────────────────────────

  /** PostgreSQL has a default escape character, the backslash; SQLite has none but ignores case. */
  datatype Dialect = Dialect(escape: Option<char>, fold: char -> char)

  /** `text LIKE pattern`. */
  predicate Like(d: Dialect, pattern: string, text: string)
    decreases |pattern|, |text|
  {
    if pattern == "" then text == ""
    else if d.escape == Some(pattern[0]) then
      |pattern| > 1 && text != "" && d.fold(pattern[1]) == d.fold(text[0]) && Like(d, pattern[2..], text[1..])
    else if pattern[0] == '%' then
      Like(d, pattern[1..], text) || (text != "" && Like(d, pattern, text[1..]))
    else
      && text != ""
      && (pattern[0] == '_' || d.fold(pattern[0]) == d.fold(text[0]))
      && Like(d, pattern[1..], text[1..])
  }

  ghost predicate Plain(d: Dialect, text: string) {
    forall i :: 0 <= i < |text| ==> d.escape != Some(text[i])
  }

  /** A text without the escape character matches itself, wildcards included. */
  lemma {:induction false} PlainMatchesItself(d: Dialect, text: string)
    requires Plain(d, text)
    ensures Like(d, text, text)
  {
    if text != "" {
      PlainMatchesItself(d, text[1..]);
      if text[0] == '%' {
        AnyMatches(d, text[1..], text[..1], text[1..]);
        assert text[..1] + text[1..] == text;
        assert "%" + text[1..] == text;
      }
    }
  }

  lemma {:induction false} AnyMatches(d: Dialect, rest: string, q: string, text: string)
    requires d.escape != Some('%') && Like(d, rest, text)
    ensures Like(d, "%" + rest, q + text)
  {
    assert ("%" + rest)[1..] == rest;
    if q == "" {
      assert q + text == text;
    } else {
      AnyMatches(d, rest, q[1..], text);
      assert (q + text)[1..] == q[1..] + text;
    }
  }

  /** A leading `%` also matches whatever stands in front of a match. */
  lemma {:induction false} AnyAbsorbs(d: Dialect, rest: string, q: string, text: string)
    requires d.escape != Some('%') && Like(d, "%" + rest, text)
    ensures Like(d, "%" + rest, q + text)
  {
    if q == "" {
      assert q + text == text;
    } else {
      AnyAbsorbs(d, rest, q[1..], text);
      assert (q + text)[1..] == q[1..] + text;
    }
  }

  // ── What patterns without inner wildcards mean ──────────────────────────

  ghost predicate Literal(d: Dialect, part: string) {
    Plain(d, part) && '%' !in part && '_' !in part
  }

  /** `part` stands in `text` from position `i` on, up to the case that the dialect ignores. */
  ghost predicate FoldsAt(d: Dialect, text: string, part: string, i: int) {
    0 <= i <= |text| - |part| && forall k :: 0 <= k < |part| ==> d.fold(part[k]) == d.fold(text[i + k])
  }

  lemma {:induction false} LiteralThen(d: Dialect, part: string, rest: string, text: string)
    requires Literal(d, part)
    ensures Like(d, part + rest, text) <==> FoldsAt(d, text, part, 0) && Like(d, rest, text[|part|..])
  {
    if part == "" {
      assert part + rest == rest;
    } else {
      assert part[0] in part && (part + rest)[1..] == part[1..] + rest;
      if text != "" {
        LiteralThen(d, part[1..], rest, text[1..]);
        assert |part| <= |text| ==> text[1..][|part[1..]|..] == text[|part|..];
        assert FoldsAt(d, text, part, 0) <==> d.fold(part[0]) == d.fold(text[0]) && FoldsAt(d, text[1..], part[1..], 0) by {
          assert forall k :: 0 <= k < |part| - 1 ==> part[1..][k] == part[k + 1];
          assert forall k :: 0 <= k < |text| - 1 ==> text[1..][k] == text[k + 1];
          if d.fold(part[0]) == d.fold(text[0]) && FoldsAt(d, text[1..], part[1..], 0) {
            forall k | 0 <= k < |part| ensures d.fold(part[k]) == d.fold(text[k]) {
              assert k > 0 ==> part[1..][k - 1] == part[k] && text[1..][k - 1] == text[k];
            }
          }
        }
      }
    }
  }

  /** A leading `%` skips any number of characters. */
  lemma {:induction false} AnySkips(d: Dialect, rest: string, text: string)
    requires d.escape != Some('%')
    ensures Like(d, "%" + rest, text) <==> exists i :: 0 <= i <= |text| && Like(d, rest, text[i..])
  {
    assert ("%" + rest)[1..] == rest && text[0..] == text;
    if text != "" {
      AnySkips(d, rest, text[1..]);
      if Like(d, "%" + rest, text[1..]) {
        var i :| 0 <= i <= |text[1..]| && Like(d, rest, text[1..][i..]);
        assert text[1..][i..] == text[i + 1..];
      }
      forall i | 0 < i <= |text| ensures text[i..] == text[1..][i - 1..] {}
    }
  }

  /** `LIKE '%part%'` holds exactly when the part occurs, ... */
  lemma LikeContainsExactly(d: Dialect, part: string, text: string)
    requires Literal(d, part) && d.escape != Some('%')
    ensures Like(d, "%" + part + "%", text) <==> exists i :: FoldsAt(d, text, part, i)
  {
    assert "%" + part + "%" == "%" + (part + "%");
    AnySkips(d, part + "%", text);
    forall i | 0 <= i <= |text| ensures Like(d, part + "%", text[i..]) <==> FoldsAt(d, text, part, i) {
      LiteralThen(d, part, "%", text[i..]);
      FoldsAtSuffix(d, text, part, i);
      if FoldsAt(d, text[i..], part, 0) {
        EverythingMatches(d, text[i..][|part|..]);
      }
    }
  }

  /** ... and `LIKE '%part'` when it stands at the end. */
  lemma LikeEndsExactly(d: Dialect, part: string, text: string)
    requires Literal(d, part) && d.escape != Some('%')
    ensures Like(d, "%" + part, text) <==> FoldsAt(d, text, part, |text| - |part|)
  {
    AnySkips(d, part, text);
    forall i | 0 <= i <= |text|
      ensures Like(d, part, text[i..]) <==> FoldsAt(d, text, part, i) && i == |text| - |part|
    {
      assert part + "" == part;
      LiteralThen(d, part, "", text[i..]);
      FoldsAtSuffix(d, text, part, i);
    }
  }

  lemma FoldsAtSuffix(d: Dialect, text: string, part: string, i: int)
    requires 0 <= i <= |text|
    ensures FoldsAt(d, text[i..], part, 0) <==> FoldsAt(d, text, part, i)
  {
    assert forall k :: 0 <= k < |text| - i ==> text[i..][k] == text[i + k];
  }

  lemma EverythingMatches(d: Dialect, text: string)
    requires d.escape != Some('%')
    ensures Like(d, "%", text)
  {
    assert "%" + "" == "%" && text[|text|..] == "";
    AnySkips(d, "", text);
  }

  // ── Patterns that end in an escape character ────────────────────────────

  /** The last character is an escape character with nothing to escape. */
  predicate EndsInEscape(d: Dialect, pattern: string) {
    if pattern == "" then false
    else if d.escape == Some(pattern[0]) then |pattern| == 1 || EndsInEscape(d, pattern[2..])
    else EndsInEscape(d, pattern[1..])
  }

  /** Matching `text` raises: PostgreSQL looks at such a pattern only as far as it matches, and raises when it gets to
      the character missing at its end. */
  predicate LikeRaises(d: Dialect, pattern: string, text: string)
    decreases |pattern| + |text|, 0
  {
    if pattern == "" || text == "" then false
    else if d.escape == Some(pattern[0]) then
      |pattern| == 1 || (d.fold(pattern[1]) == d.fold(text[0]) && LikeRaises(d, pattern[2..], text[1..]))
    else if pattern[0] == '%' then GapRaises(d, pattern[1..], text)
    else (pattern[0] == '_' || d.fold(pattern[0]) == d.fold(text[0])) && LikeRaises(d, pattern[1..], text[1..])
  }

  /** The same behind a `%`, which reads the wildcards that follow and the next character before it searches. */
  predicate GapRaises(d: Dialect, pattern: string, text: string)
    decreases |pattern| + |text|, 1
  {
    if pattern == "" then false
    else if d.escape == Some(pattern[0]) then
      |pattern| == 1 || (text != "" && (LikeRaises(d, pattern, text) || GapRaises(d, pattern, text[1..])))
    else if pattern[0] == '%' then GapRaises(d, pattern[1..], text)
    else if pattern[0] == '_' then text != "" && GapRaises(d, pattern[1..], text[1..])
    else text != "" && (LikeRaises(d, pattern, text) || GapRaises(d, pattern, text[1..]))
  }

  /** A pattern raises for some text exactly when it ends in an escape character; ... */
  lemma RaisingTextExactly(d: Dialect, pattern: string)
    ensures EndsInEscape(d, pattern) <==> exists text :: LikeRaises(d, pattern, text)
  {
    if EndsInEscape(d, pattern) {
      var some := RaisingText(d, pattern);
      assert exists text :: LikeRaises(d, pattern, text);
    } else if text :| LikeRaises(d, pattern, text) {
      OnlyEscapesRaise(d, pattern, text);
    }
  }

  /** ... and it then matches no text. */
  lemma {:induction false} MatchesEndComplete(d: Dialect, pattern: string, text: string)
    requires Like(d, pattern, text)
    ensures !EndsInEscape(d, pattern)
    decreases |pattern|, |text|
  {
    if pattern != "" {
      if d.escape == Some(pattern[0]) {
        MatchesEndComplete(d, pattern[2..], text[1..]);
      } else if pattern[0] == '%' {
        if Like(d, pattern[1..], text) {
          MatchesEndComplete(d, pattern[1..], text);
        } else {
          MatchesEndComplete(d, pattern, text[1..]);
        }
      } else {
        MatchesEndComplete(d, pattern[1..], text[1..]);
      }
    }
  }

  lemma {:induction false} OnlyEscapesRaise(d: Dialect, pattern: string, text: string)
    requires LikeRaises(d, pattern, text)
    ensures EndsInEscape(d, pattern)
    decreases |pattern| + |text|, 0
  {
    if d.escape == Some(pattern[0]) {
      if |pattern| > 1 {
        OnlyEscapesRaise(d, pattern[2..], text[1..]);
      }
    } else if pattern[0] == '%' {
      OnlyEscapesRaiseBehindGap(d, pattern[1..], text);
    } else {
      OnlyEscapesRaise(d, pattern[1..], text[1..]);
    }
  }

  lemma {:induction false} OnlyEscapesRaiseBehindGap(d: Dialect, pattern: string, text: string)
    requires GapRaises(d, pattern, text)
    ensures EndsInEscape(d, pattern)
    decreases |pattern| + |text|, 1
  {
    if d.escape == Some(pattern[0]) && |pattern| == 1 {
    } else if d.escape != Some(pattern[0]) && pattern[0] == '%' {
      OnlyEscapesRaiseBehindGap(d, pattern[1..], text);
    } else if d.escape != Some(pattern[0]) && pattern[0] == '_' {
      OnlyEscapesRaiseBehindGap(d, pattern[1..], text[1..]);
    } else if LikeRaises(d, pattern, text) {
      OnlyEscapesRaise(d, pattern, text);
    } else {
      OnlyEscapesRaiseBehindGap(d, pattern, text[1..]);
    }
  }

  lemma {:induction false} RaisingText(d: Dialect, pattern: string) returns (text: string)
    requires EndsInEscape(d, pattern)
    ensures text != "" && LikeRaises(d, pattern, text) && GapRaises(d, pattern, text)
  {
    if d.escape == Some(pattern[0]) {
      if |pattern| == 1 {
        text := "x";
      } else {
        var rest := RaisingText(d, pattern[2..]);
        text := [pattern[1]] + rest;
        assert text[1..] == rest;
      }
    } else {
      var rest := RaisingText(d, pattern[1..]);
      text := if pattern[0] == '%' then rest else [pattern[0]] + rest;
      assert pattern[0] != '%' ==> text[1..] == rest;
    }
  }

  // ── Paths ───────────────────────────────────────────────────────────────

  predicate EndsWith(s: string, t: string) {
    |t| <= |s| && s[|s| - |t|..] == t
  }

  /** `backup_id.rsplit("/", 1)[-1]`. */
  function LastComponent(id: string): string {
    if id == "" || id[|id| - 1] == '/' then "" else LastComponent(id[..|id| - 1]) + [id[|id| - 1]]
  }

  /** The name is what follows the last slash. */
  lemma {:induction false} LastComponentSplits(id: string) returns (p: string)
    ensures id == p + LastComponent(id) && '/' !in LastComponent(id)
    ensures p == "" || p[|p| - 1] == '/'
  {
    if id == "" || id[|id| - 1] == '/' {
      p := id;
    } else {
      p := LastComponentSplits(id[..|id| - 1]);
      assert id == id[..|id| - 1] + [id[|id| - 1]];
    }
  }

  lemma {:induction false} NameWithoutSlash(id: string)
    requires '/' !in id
    ensures LastComponent(id) == id
  {
    if id != "" {
      NameWithoutSlash(id[..|id| - 1]);
    }
  }

  lemma {:induction false} LastComponentOfSuffix(p: string, id: string)
    ensures LastComponent(p + "/" + id) == LastComponent(id)
  {
    var whole := p + "/" + id;
    if id == "" {
      assert whole[|whole| - 1] == '/';
    } else {
      assert whole[|whole| - 1] == id[|id| - 1];
      if id[|id| - 1] != '/' {
        LastComponentOfSuffix(p, id[..|id| - 1]);
        assert whole[..|whole| - 1] == p + "/" + id[..|id| - 1];
      }
    }
  }

  lemma Prefix(s: string, t: string) returns (p: string)
    requires EndsWith(s, t)
    ensures s == p + t
  {
    p := s[..|s| - |t|];
  }

  // ── The same backup ─────────────────────────────────────────────────────

  predicate SameBackup(recorded: string, observed: string) {
    && recorded != ""
    && (recorded == observed || EndsWith(recorded, "/" + observed) || EndsWith(observed, "/" + recorded))
  }

  lemma SameBackupReflexiveSymmetric(a: string, b: string)
    ensures SameBackup(a, a) <==> a != ""
    ensures a != "" && b != "" ==> (SameBackup(a, b) <==> SameBackup(b, a))
  {}

  /** The relation chains unless the middle id is shorter than both others ... */
  lemma SameBackupChains(a: string, b: string, c: string)
    requires SameBackup(a, b) && SameBackup(b, c) && c != ""
    requires |a| <= |b| || |c| <= |b|
    ensures SameBackup(a, c)
  {
    if |a| <= |b| && |c| <= |b| {
      if |a| < |c| {
        BothEnd(b, a, c);
      } else if |c| < |a| {
        BothEnd(b, c, a);
      } else {
        assert EndsWith(b, a) && EndsWith(b, c);
      }
    } else if |a| <= |b| {
      PathSuffixChains(a, b, c);
    } else {
      PathSuffixChains(c, b, a);
    }
  }

  /** `s` is `t`, or ends with `t` on a path boundary. */
  ghost predicate PathEnds(s: string, t: string) {
    s == t || EndsWith(s, "/" + t)
  }

  lemma PathSuffixChains(a: string, b: string, c: string)
    requires PathEnds(b, a) && PathEnds(c, b)
    ensures PathEnds(c, a)
  {
    if b != a && c != b {
      var p := Prefix(b, "/" + a);
      var q := Prefix(c, "/" + b);
      assert c == (q + "/" + p) + ("/" + a);
    }
  }

  lemma BothEnd(b: string, a: string, c: string)
    requires PathEnds(b, a) && PathEnds(b, c) && |a| < |c|
    ensures PathEnds(c, a)
  {
    var p := Prefix(b, "/" + a);
    assert EndsWith(b, c);
    var q := Prefix(b, c);
    assert c == b[|q|..];
    assert b[|b| - |a| - 1..] == "/" + a;
  }

  /** ... in which case it need not: two longer paths can share a last part. */
  lemma SameBackupDoesNotChain()
    ensures SameBackup("a/x", "x") && SameBackup("x", "b/x") && !SameBackup("a/x", "b/x")
  {
    assert "a/x"[1..] == "/" + "x" && "b/x"[1..] == "/" + "x";
    assert !EndsWith("a/x", "/" + "b/x") && !EndsWith("b/x", "/" + "a/x");
  }

  // ── The filter in front of the relation ─────────────────────────────────

  ghost predicate Lossless(d: Dialect, observed: string) {
    forall recorded :: SameBackup(recorded, observed) ==> Like(d, "%" + LastComponent(observed), recorded)
  }

  /** Ids of the same backup share their last component. */
  lemma SameBackupSameName(recorded: string, observed: string)
    requires SameBackup(recorded, observed)
    ensures LastComponent(recorded) == LastComponent(observed)
  {
    if EndsWith(recorded, "/" + observed) {
      var p := Prefix(recorded, "/" + observed);
      assert recorded == p + "/" + observed;
      LastComponentOfSuffix(p, observed);
    } else if EndsWith(observed, "/" + recorded) {
      var p := Prefix(observed, "/" + recorded);
      assert observed == p + "/" + recorded;
      LastComponentOfSuffix(p, recorded);
    }
  }

  /** The LIKE filter keeps every row that names the same backup exactly when the pattern matches the observed
      name itself. */
  lemma FilterLosslessExactly(d: Dialect, observed: string)
    requires d.escape != Some('%') && observed != ""
    ensures Lossless(d, observed) <==> Like(d, "%" + LastComponent(observed), LastComponent(observed))
  {
    var name := LastComponent(observed);
    if Like(d, "%" + name, name) {
      forall recorded | SameBackup(recorded, observed) ensures Like(d, "%" + name, recorded) {
        SameBackupSameName(recorded, observed);
        var p := LastComponentSplits(recorded);
        AnyAbsorbs(d, name, p, name);
      }
    }
    if Lossless(d, observed) {
      if name == "" {
        AnyMatches(d, "", "", "");
      } else {
        NameIsSameBackup(observed);
      }
    }
  }

  lemma NameIsSameBackup(observed: string)
    requires LastComponent(observed) != ""
    ensures SameBackup(LastComponent(observed), observed)
  {
    var name := LastComponent(observed);
    var p := LastComponentSplits(observed);
    if p == "" {
      assert observed == name;
    } else {
      assert observed[|observed| - |name| - 1..] == "/" + name;
    }
  }

  /** So it loses nothing for names without the escape character, and never where LIKE has none. */
  lemma FilterLosslessForPlainNames(d: Dialect, observed: string)
    requires d.escape != Some('%') && observed != "" && Plain(d, LastComponent(observed))
    ensures Lossless(d, observed)
  {
    var name := LastComponent(observed);
    PlainMatchesItself(d, name);
    AnyMatches(d, name, "", name);
    assert "" + name == name;
    FilterLosslessExactly(d, observed);
  }

  /** With the backslash as escape, the id `p/a\b` does not find its own row. */
  lemma FilterLosesEscapedNames(d: Dialect)
    requires d.escape == Some('\\') && d.fold('a') != d.fold('\\')
    ensures SameBackup("p/a\\b", "p/a\\b") && !Like(d, "%" + LastComponent("p/a\\b"), "p/a\\b")
  {
    calc {
      LastComponent("p/a\\b");
      { assert "p/a\\b"[..4] == "p/a\\" && "p/a\\"[..3] == "p/a" && "p/a"[..2] == "p/"; }
      "a\\b";
    }
    assert "%" + "a\\b" == "%a\\b" && "%a\\b"[1..] == "a\\b" && "a\\b"[1..] == "\\b" && "\\b"[2..] == "";
    assert "p/a\\b"[1..] == "/a\\b" && "/a\\b"[1..] == "a\\b";
  }
}
