/** Backup evidence: the document parser and the ingestion loop of `backend/backup_evidence.py`, on top of the
    append-only event table of `backend/backup_assurance.py`. */
module BackupEvidence {
  import opened BackupIds
  import opened Wrappers

  // ── JSON ────────────────────────────────────────────────────────────────

  datatype Json =
    | Null
    | Bool(b: bool)
    | Int(n: int)
    | Float(x: real)
    | Str(s: string)
    | Arr(items: seq<Json>)
    | Obj(fields: map<string, Json>)

  // ── The world around the module ─────────────────────────────────────────

  newtype Byte = b: int | 0 <= b < 256

  /** A call that gives a value, or gives none in a way its caller handles, or raises past its caller. */
  datatype Reading<+T> = Got(value: T) | Nothing | Raises

  /** A parsed time: microseconds since the start of year 1 on the local clock, and the offset of that clock. */
  datatype Moment = Moment(local: int, offset: Option<int>)

  /** What the module takes from the Python and SQL runtimes. `fromisoformat` includes the replacement of `Z`; `stores`
      says which characters the database takes in a text (PostgreSQL no NUL, no driver a lone surrogate),
      `enforcesWidths` whether it refuses texts longer than their column, and `alsoMatched` which rows a query plan
      matches with the LIKE pattern before it looks at their other columns. */
  datatype Host = Host(
    environment: string,
    decode: seq<Byte> -> Reading<Json>,
    fromisoformat: string -> Option<Moment>,
    isoformat: int -> string,
    isSpace: char -> bool,
    casefold: string -> string,
    lower: string -> string,
    dialect: Dialect,
    stores: char -> bool,
    enforcesWidths: bool,
    alsoMatched: (string, Event) -> bool)

  const MAX_DOCUMENT_BYTES := 8192
  const MINUTE := 60 * 1_000_000
  const FUTURE_TOLERANCE := 5 * MINUTE
  const MAX_EVIDENCE_AGE := 14 * 24 * 60 * MINUTE

  /** The end of year 9999, the last moment a `datetime` can hold. */
  const END_OF_TIME := 3_652_059 * 24 * 60 * MINUTE

  /** The largest value of a BIGINT column. */
  const MAX_BIGINT := 0x7FFF_FFFF_FFFF_FFFF

  const KEYS: set<string> := {
    "schema_version", "recorder", "observed_at", "environment", "scope",
    "backup_id", "completed_at", "size_bytes", "sha256", "gzip_ok", "provider" }

  predicate ValidScope(scope: string) {
    scope == "database" || scope == "volume"
  }

  // ── Parsing a document ──────────────────────────────────────────────────

  datatype Reason =
    | Oversized | MalformedJson | NotAnObject | UnknownKeys | MissingKeys | UnsupportedSchemaVersion
    | OtherEnvironment | UnknownScope | InvalidBackupId | InvalidSize | InvalidSha256
    | GzipResultRequired | GzipResultOnlyForDatabase | InvalidTimestamp | TimestampInFuture | TooOld
    | InvalidRecorderOrProvider

  datatype Evidence = Evidence(
    recorder: string, observedAt: int, scope: string, backupId: string, completedAt: int,
    sizeBytes: int, sha256: string, gzipOk: Option<bool>, provider: string)

  datatype Parsed = Accepted(doc: Evidence) | Rejected(reason: Reason) | Raised

  function StripLeft(isSpace: char -> bool, s: string): string {
    if s != "" && isSpace(s[0]) then StripLeft(isSpace, s[1..]) else s
  }

  function StripRight(isSpace: char -> bool, s: string): string {
    if s != "" && isSpace(s[|s| - 1]) then StripRight(isSpace, s[..|s| - 1]) else s
  }

  function Strip(isSpace: char -> bool, s: string): string {
    StripRight(isSpace, StripLeft(isSpace, s))
  }

  function ShortText(isSpace: char -> bool, v: Json, limit: nat): Option<string> {
    if v.Str? && 0 < |Strip(isSpace, v.s)| <= limit then Some(Strip(isSpace, v.s)) else None
  }

  /** `s.split("/")`. */
  function Components(s: string): (parts: seq<string>)
    ensures parts != []
  {
    if s == "" then [""]
    else if s[0] == '/' then [""] + Components(s[1..])
    else
      var rest := Components(s[1..]);
      [[s[0]] + rest[0]] + rest[1..]
  }

  lemma {:induction false} OneComponent(s: string)
    requires '/' !in s
    ensures Components(s) == [s]
  {
    if s != "" {
      OneComponent(s[1..]);
      assert [s[0]] + s[1..] == s;
    }
  }

  predicate SafePath(id: string) {
    id != "" && id[0] != '/' && ".." !in Components(id)
  }

  function JoinedPath(parts: seq<string>): string
    requires parts != []
  {
    if |parts| == 1 then parts[0] else parts[0] + "/" + JoinedPath(parts[1..])
  }

  /** The components are what stands between the slashes, in order. */
  lemma {:induction false} ComponentsJoin(s: string)
    ensures JoinedPath(Components(s)) == s && forall c :: c in Components(s) ==> '/' !in c
  {
    if s != "" {
      ComponentsJoin(s[1..]);
      var rest, parts := Components(s[1..]), Components(s);
      assert [s[0]] + s[1..] == s;
      if s[0] == '/' {
        assert parts[0] == "" && parts[1..] == rest;
        assert "" + "/" + JoinedPath(rest) == "/" + s[1..];
      } else {
        assert parts[0] == [s[0]] + rest[0] && parts[1..] == rest[1..];
        assert rest[0] in rest;
        assert forall c :: c in parts ==> c == parts[0] || c in rest;
        assert JoinedPath(parts) == [s[0]] + JoinedPath(rest);
      }
    }
  }

  predicate HexDigits(s: string) {
    forall i :: 0 <= i < |s| ==> '0' <= s[i] <= '9' || 'a' <= s[i] <= 'f'
  }

  /** A match of `^[0-9a-f]{64}$`, where `$` also matches in front of a final line feed. */
  predicate IsSha256(s: string) {
    |s| >= 64 && HexDigits(s[..64]) && (s[64..] == "" || s[64..] == "\n")
  }

  predicate SchemaVersionOne(v: Json) {
    v == Int(1) || v == Float(1.0)
  }

  /** `_timestamp`: a text that is no time with an offset is handled, but the conversion to UTC is outside the `try`
      and raises when the result lies before year 1 or after year 9999. */
  function Timestamp(h: Host, v: Json): Reading<int> {
    if !v.Str? then Nothing
    else
      match h.fromisoformat(v.s)
      case None => Nothing
      case Some(m) =>
        if m.offset.None? then Nothing
        else if 0 <= m.local - m.offset.value < END_OF_TIME then Got(m.local - m.offset.value)
        else Raises
  }

  function Parse(h: Host, now: int, raw: seq<Byte>): Parsed {
    if |raw| > MAX_DOCUMENT_BYTES then Rejected(Oversized)
    else
      match h.decode(raw)
      case Raises => Raised
      case Nothing => Rejected(MalformedJson)
      case Got(document) =>
        if !document.Obj? then Rejected(NotAnObject)
        else if document.fields.Keys - KEYS != {} then Rejected(UnknownKeys)
        else if KEYS - document.fields.Keys != {} then Rejected(MissingKeys)
        else ParseFields(h, now, document.fields)
  }

  function ParseFields(h: Host, now: int, fields: map<string, Json>): Parsed
    requires forall k :: k in KEYS ==> k in fields
  {
    var scope := fields["scope"];
    var backupId := ShortText(h.isSpace, fields["backup_id"], 200);
    var size, digest, gzip := fields["size_bytes"], fields["sha256"], fields["gzip_ok"];
    var completedAt := Timestamp(h, fields["completed_at"]);
    var observedAt := Timestamp(h, fields["observed_at"]);
    var recorder := ShortText(h.isSpace, fields["recorder"], 80);
    var provider := ShortText(h.isSpace, fields["provider"], 80);
    if !SchemaVersionOne(fields["schema_version"]) then Rejected(UnsupportedSchemaVersion)
    else if fields["environment"] != Str(h.environment) then Rejected(OtherEnvironment)
    else if !scope.Str? || !ValidScope(scope.s) then Rejected(UnknownScope)
    else if backupId.None? || !SafePath(backupId.value) then Rejected(InvalidBackupId)
    else if !size.Int? || size.n <= 0 then Rejected(InvalidSize)
    else if !digest.Str? || !IsSha256(digest.s) then Rejected(InvalidSha256)
    else if scope.s == "database" && !gzip.Bool? then Rejected(GzipResultRequired)
    else if scope.s != "database" && gzip != Null then Rejected(GzipResultOnlyForDatabase)
    else if completedAt.Raises? || observedAt.Raises? then Raised
    else if completedAt.Nothing? || observedAt.Nothing? then Rejected(InvalidTimestamp)
    else if completedAt.value > now + FUTURE_TOLERANCE || observedAt.value > now + FUTURE_TOLERANCE
      then Rejected(TimestampInFuture)
    else if completedAt.value < now - MAX_EVIDENCE_AGE then Rejected(TooOld)
    else if recorder.None? || provider.None? then Rejected(InvalidRecorderOrProvider)
    else
      Accepted(Evidence(recorder.value, observedAt.value, scope.s, backupId.value, completedAt.value,
                        size.n, digest.s, if gzip.Bool? then Some(gzip.b) else None, provider.value))
  }

  const DAY := 24 * 60 * 60 * 1_000_000

  ghost predicate Trimmed(isSpace: char -> bool, s: string, limit: nat) {
    0 < |s| <= limit && !isSpace(s[0]) && !isSpace(s[|s| - 1])
  }

  ghost predicate Digest(s: string) {
    |s| == 64 && HexDigits(s)
  }

  /** What an accepted document says, whatever its JSON looks like. */
  ghost predicate Acceptable(h: Host, now: int, doc: Evidence) {
    && Trimmed(h.isSpace, doc.recorder, 80) && Trimmed(h.isSpace, doc.provider, 80)
    && Trimmed(h.isSpace, doc.backupId, 200) && SafePath(doc.backupId)
    && ValidScope(doc.scope) && doc.sizeBytes > 0 && IsSha256(doc.sha256)
    && (doc.gzipOk.Some? <==> doc.scope == "database")
    && now - 14 * DAY <= doc.completedAt <= now + 5 * 60 * 1_000_000
    && doc.observedAt <= now + 5 * 60 * 1_000_000
  }

  lemma {:induction false} StripLeftLaws(isSpace: char -> bool, s: string)
    ensures var r := StripLeft(isSpace, s); |r| <= |s| && (r != "" ==> !isSpace(r[0]) && r[|r| - 1] == s[|s| - 1])
  {
    if s != "" && isSpace(s[0]) {
      StripLeftLaws(isSpace, s[1..]);
    }
  }

  lemma {:induction false} StripRightLaws(isSpace: char -> bool, s: string)
    ensures var r := StripRight(isSpace, s); |r| <= |s| && (r != "" ==> !isSpace(r[|r| - 1]) && r[0] == s[0])
  {
    if s != "" && isSpace(s[|s| - 1]) {
      StripRightLaws(isSpace, s[..|s| - 1]);
    }
  }

  ghost predicate Blank(isSpace: char -> bool, s: string) {
    forall i :: 0 <= i < |s| ==> isSpace(s[i])
  }

  /** Stripping takes white space off both ends and nothing else. */
  lemma StripExactly(isSpace: char -> bool, s: string) returns (a: string, b: string)
    ensures s == a + Strip(isSpace, s) + b && Blank(isSpace, a) && Blank(isSpace, b)
  {
    a := StrippedLeft(isSpace, s);
    b := StrippedRight(isSpace, StripLeft(isSpace, s));
  }

  lemma {:induction false} StrippedLeft(isSpace: char -> bool, s: string) returns (a: string)
    ensures s == a + StripLeft(isSpace, s) && Blank(isSpace, a)
  {
    if s != "" && isSpace(s[0]) {
      var rest := StrippedLeft(isSpace, s[1..]);
      a := [s[0]] + rest;
      var left := StripLeft(isSpace, s[1..]);
      assert StripLeft(isSpace, s) == left;
      hide StripLeft;
      assert s == [s[0]] + s[1..] == [s[0]] + (rest + left) == a + left;
    } else {
      a := "";
    }
  }

  lemma {:induction false} StrippedRight(isSpace: char -> bool, s: string) returns (b: string)
    ensures s == StripRight(isSpace, s) + b && Blank(isSpace, b)
  {
    if s != "" && isSpace(s[|s| - 1]) {
      var rest := StrippedRight(isSpace, s[..|s| - 1]);
      b := rest + [s[|s| - 1]];
      assert s == s[..|s| - 1] + [s[|s| - 1]];
    } else {
      b := "";
    }
  }

  lemma ShortTextIsTrimmed(isSpace: char -> bool, v: Json, limit: nat)
    ensures var t := ShortText(isSpace, v, limit); t.Some? ==> Trimmed(isSpace, t.value, limit)
    ensures v.Str? && Trimmed(isSpace, v.s, limit) ==> ShortText(isSpace, v, limit) == Some(v.s)
  {
    if v.Str? {
      StripLeftLaws(isSpace, v.s);
      StripRightLaws(isSpace, StripLeft(isSpace, v.s));
    }
  }

  /** The documents meant: acceptable ones whose digest is 64 hexadecimal digits and nothing else. */
  ghost predicate Valid(h: Host, now: int, doc: Evidence) {
    Acceptable(h, now, doc) && Digest(doc.sha256)
  }

  /** The parser accepts nothing that is not acceptable; what it accepts is valid except for one line feed that it lets
      pass at the end of a digest. */
  lemma AcceptedIsValid(h: Host, now: int, raw: seq<Byte>)
    requires Parse(h, now, raw).Accepted?
    ensures var doc := Parse(h, now, raw).doc;
            Acceptable(h, now, doc) && (Valid(h, now, doc) <==> !EndsWith(doc.sha256, "\n"))
  {
    var fields := h.decode(raw).value.fields;
    assert forall k :: k in KEYS ==> k in fields;
    hide SafePath, IsSha256, Digest, Timestamp, EndsWith, HexDigits, Strip;
    ShortTextIsTrimmed(h.isSpace, fields["backup_id"], 200);
    ShortTextIsTrimmed(h.isSpace, fields["recorder"], 80);
    ShortTextIsTrimmed(h.isSpace, fields["provider"], 80);
    DigestExactly(fields["sha256"].s);
  }

  lemma DigestExactly(s: string)
    requires IsSha256(s)
    ensures Digest(s) <==> !EndsWith(s, "\n")
  {
    if |s| == 64 {
      assert s[..64][63] == s[63] && s[63..][0] == s[63];
    } else {
      assert s[64..] == "\n";
    }
  }

  // ── The schema as a JSON document ───────────────────────────────────────

  ghost predicate TextWithin(h: Host, v: Json, limit: nat) {
    v.Str? && 0 < |Strip(h.isSpace, v.s)| <= limit
  }

  ghost predicate TimeWithin(h: Host, v: Json, from: int, to: int) {
    Timestamp(h, v).Got? && from <= Timestamp(h, v).value <= to
  }

  /** Exactly the keys of the schema, version 1, and each value of its kind. */
  ghost predicate Schema(h: Host, now: int, fields: map<string, Json>) {
    && fields.Keys == KEYS && fields["schema_version"] == Int(1) && fields["environment"] == Str(h.environment)
    && fields["scope"].Str? && ValidScope(fields["scope"].s)
    && TextWithin(h, fields["backup_id"], 200) && SafePath(Strip(h.isSpace, fields["backup_id"].s))
    && TextWithin(h, fields["recorder"], 80) && TextWithin(h, fields["provider"], 80)
    && fields["size_bytes"].Int? && fields["size_bytes"].n > 0
    && fields["sha256"].Str? && Digest(fields["sha256"].s)
    && (if fields["scope"].s == "database" then fields["gzip_ok"].Bool? else fields["gzip_ok"] == Null)
    && TimeWithin(h, fields["completed_at"], now - 14 * DAY, now + 5 * 60 * 1_000_000)
    && Timestamp(h, fields["observed_at"]).Got?
    && Timestamp(h, fields["observed_at"]).value <= now + 5 * 60 * 1_000_000
  }

  ghost predicate Decodes(h: Host, raw: seq<Byte>, fields: map<string, Json>) {
    |raw| <= 8192 && h.decode(raw) == Got(Obj(fields))
  }

  /** Every document of the schema is accepted, and an accepted document is one of the schema exactly when its digest
      does not end in a line feed and its version is the integer 1. */
  lemma SchemaExactly(h: Host, now: int, raw: seq<Byte>, fields: map<string, Json>)
    requires Decodes(h, raw, fields)
    ensures Schema(h, now, fields) ==> Parse(h, now, raw).Accepted?
    ensures Parse(h, now, raw).Accepted? ==>
      (Schema(h, now, fields) <==> fields["schema_version"] == Int(1) && !EndsWith(fields["sha256"].s, "\n"))
  {
    if Schema(h, now, fields) {
      SchemaIsAccepted(h, now, raw, fields);
    }
    if Parse(h, now, raw).Accepted? {
      AcceptedIsSchema(h, now, raw, fields);
    }
  }

  lemma SchemaIsAccepted(h: Host, now: int, raw: seq<Byte>, fields: map<string, Json>)
    requires Decodes(h, raw, fields) && Schema(h, now, fields)
    ensures Parse(h, now, raw).Accepted?
  {
    assert fields["sha256"].s[..64] == fields["sha256"].s;
    assert fields["sha256"].s[64..] == "";
  }

  lemma AcceptedIsSchema(h: Host, now: int, raw: seq<Byte>, fields: map<string, Json>)
    requires Decodes(h, raw, fields) && Parse(h, now, raw).Accepted?
    ensures fields.Keys == KEYS && fields["sha256"].Str?
    ensures Schema(h, now, fields) <==> fields["schema_version"] == Int(1) && !EndsWith(fields["sha256"].s, "\n")
  {
    assert forall k :: k in KEYS <==> k in fields;
    assert fields.Keys == KEYS;
    DigestExactly(fields["sha256"].s);
    hide SafePath, IsSha256, Digest, EndsWith, Strip;
  }

  /** Both exceptions occur: with a line feed behind its digest any document of the schema is still accepted, line feed
      included, ... */
  lemma AcceptsLineFeed(h: Host, now: int, fields: map<string, Json>, raw: seq<Byte>)
    requires Schema(h, now, fields) && Decodes(h, raw, fields["sha256" := Str(fields["sha256"].s + "\n")])
    ensures Parse(h, now, raw).Accepted? && Parse(h, now, raw).doc.sha256 == fields["sha256"].s + "\n"
    ensures !Schema(h, now, fields["sha256" := Str(fields["sha256"].s + "\n")])
  {
    var odd := fields["sha256" := Str(fields["sha256"].s + "\n")];
    assert odd.Keys == KEYS;
    assert odd["sha256"].s[..64] == fields["sha256"].s && odd["sha256"].s[64..] == "\n";
  }

  /** ... and so is one whose version is the number 1.0. */
  lemma AcceptsFloatVersion(h: Host, now: int, fields: map<string, Json>, raw: seq<Byte>)
    requires Schema(h, now, fields) && Decodes(h, raw, fields["schema_version" := Float(1.0)])
    ensures Parse(h, now, raw).Accepted? && !Schema(h, now, fields["schema_version" := Float(1.0)])
  {
    var odd := fields["schema_version" := Float(1.0)];
    assert odd.Keys == KEYS;
    assert fields["sha256"].s[..64] == fields["sha256"].s && fields["sha256"].s[64..] == "";
  }

  // ── Documents that raise ────────────────────────────────────────────────

  /** The checks before the time stamps pass. */
  ghost predicate ReachesTimes(h: Host, fields: map<string, Json>) {
    && fields.Keys == KEYS && SchemaVersionOne(fields["schema_version"]) && fields["environment"] == Str(h.environment)
    && fields["scope"].Str? && ValidScope(fields["scope"].s)
    && TextWithin(h, fields["backup_id"], 200) && SafePath(Strip(h.isSpace, fields["backup_id"].s))
    && fields["size_bytes"].Int? && fields["size_bytes"].n > 0
    && fields["sha256"].Str? && IsSha256(fields["sha256"].s)
    && (if fields["scope"].s == "database" then fields["gzip_ok"].Bool? else fields["gzip_ok"] == Null)
  }

  /** The parser is documented never to raise. It does, exactly when the decoder does, or when a document passes the
      checks before the time stamps and one of these cannot be converted to UTC. */
  lemma ParseRaisesExactly(h: Host, now: int, raw: seq<Byte>)
    ensures Parse(h, now, raw) == Raised
            <==> && |raw| <= 8192
                 && (h.decode(raw).Raises?
                     || (h.decode(raw).Got? && h.decode(raw).value.Obj?
                         && ReachesTimes(h, h.decode(raw).value.fields)
                         && (Timestamp(h, h.decode(raw).value.fields["completed_at"]).Raises?
                             || Timestamp(h, h.decode(raw).value.fields["observed_at"]).Raises?)))
  {
    if |raw| <= MAX_DOCUMENT_BYTES && h.decode(raw).Got? && h.decode(raw).value.Obj? {
      var fields := h.decode(raw).value.fields;
      if fields.Keys - KEYS == {} && KEYS - fields.Keys == {} {
        assert forall k :: k in KEYS <==> k in fields;
        assert fields.Keys == KEYS;
      }
    }
  }

  /** For one, the first midnight of year 1 on a clock that is ahead of UTC. */
  lemma YearOneRaises(h: Host, now: int, fields: map<string, Json>, raw: seq<Byte>)
    requires Schema(h, now, fields)
    requires Decodes(h, raw, fields["completed_at" := Str("0001-01-01T00:00:00+23:59")])
    requires h.fromisoformat("0001-01-01T00:00:00+23:59") == Some(Moment(0, Some(1439 * MINUTE)))
    ensures Parse(h, now, raw) == Raised
  {
    var odd := fields["completed_at" := Str("0001-01-01T00:00:00+23:59")];
    assert odd.Keys == KEYS;
    assert fields["sha256"].s[..64] == fields["sha256"].s && fields["sha256"].s[64..] == "";
    ParseRaisesExactly(h, now, raw);
  }

  // ── Reading back what was written ───────────────────────────────────────

  ghost predicate Reads(h: Host, v: Json, t: int) {
    Timestamp(h, v) == Got(t)
  }

  /** A JSON object with exactly the keys of the schema that spells out `doc`. */
  ghost predicate Describes(h: Host, fields: map<string, Json>, doc: Evidence) {
    && fields.Keys == KEYS
    && fields["schema_version"] == Int(1) && fields["environment"] == Str(h.environment)
    && fields["recorder"] == Str(doc.recorder) && fields["provider"] == Str(doc.provider)
    && fields["scope"] == Str(doc.scope) && fields["backup_id"] == Str(doc.backupId)
    && fields["size_bytes"] == Int(doc.sizeBytes) && fields["sha256"] == Str(doc.sha256)
    && fields["gzip_ok"] == (if doc.gzipOk.Some? then Bool(doc.gzipOk.value) else Null)
    && Reads(h, fields["completed_at"], doc.completedAt) && Reads(h, fields["observed_at"], doc.observedAt)
  }

  /** Every acceptable document, written out, is read back unchanged. */
  lemma ParseUndoesWrite(h: Host, now: int, doc: Evidence, raw: seq<Byte>, fields: map<string, Json>)
    requires Acceptable(h, now, doc) && Describes(h, fields, doc) && Decodes(h, raw, fields)
    ensures Parse(h, now, raw) == Accepted(doc)
  {
    ShortTextIsTrimmed(h.isSpace, Str(doc.backupId), 200);
    ShortTextIsTrimmed(h.isSpace, Str(doc.recorder), 80);
    ShortTextIsTrimmed(h.isSpace, Str(doc.provider), 80);
    hide ShortText, SafePath, IsSha256;
    assert Parse(h, now, raw) == ParseFields(h, now, fields);
  }

  // ── Recording an event ──────────────────────────────────────────────────

  datatype Event = Event(
    eventType: string, status: string, scope: Option<string>, environment: string, provider: string,
    backupId: Option<string>, startedAt: int, completedAt: Option<int>, sizeBytes: Option<int>,
    integrityRef: Option<string>, operator: string, evidence: Option<Json>)

  datatype RecordError = UnsupportedScope | UnsupportedEventType | UnsupportedStatus | SecretKey | NotStorable

  const SECRET_KEY_MARKERS: seq<string> :=
    ["secret", "password", "token", "credential", "database_url", "connection_string"]

  predicate StandsAt(s: string, part: string, i: nat) {
    i + |part| <= |s| && s[i..i + |part|] == part
  }

  predicate Contains(s: string, part: string) {
    exists i | 0 <= i <= |s| :: StandsAt(s, part, i)
  }

  predicate Marked(h: Host, key: string) {
    exists m | m in SECRET_KEY_MARKERS :: Contains(h.casefold(key), m)
  }

  predicate ContainsSecretKey(h: Host, v: Json) {
    match v
    case Obj(fields) => exists k | k in fields :: Marked(h, k) || ContainsSecretKey(h, fields[k])
    case Arr(items) => exists i | 0 <= i < |items| :: ContainsSecretKey(h, items[i])
    case _ => false
  }

  predicate ValidStatus(eventType: string, status: string) {
    if eventType == "backup" then status in {"completed", "failed"}
    else status in {"passed", "passed_with_risk", "failed"}
  }

  predicate Storable(h: Host, text: string) {
    forall i :: 0 <= i < |text| ==> h.stores(text[i])
  }

  predicate FitsColumn(h: Host, text: string, width: nat) {
    Storable(h, text) && (h.enforcesWidths ==> |text| <= width)
  }

  predicate FitsBigint(n: int) {
    -MAX_BIGINT - 1 <= n <= MAX_BIGINT
  }

  /** The database takes the row. `evidence` is stored as JSON in ASCII, which always fits. */
  predicate Insertable(h: Host, e: Event) {
    && FitsColumn(h, e.eventType, 30) && FitsColumn(h, e.status, 20) && FitsColumn(h, e.environment, 50)
    && FitsColumn(h, e.provider, 80) && FitsColumn(h, e.operator, 120)
    && FitsColumn(h, if e.scope.Some? then e.scope.value else "database", 20)
    && (e.backupId.Some? ==> FitsColumn(h, e.backupId.value, 200))
    && (e.integrityRef.Some? ==> FitsColumn(h, e.integrityRef.value, 200))
    && (e.sizeBytes.Some? ==> FitsBigint(e.sizeBytes.value))
  }

  /** The checks of `record_event`, in its order, and then those of the columns; `scope` defaults to the database. */
  function CheckEvent(h: Host, e: Event): Option<RecordError> {
    if e.scope.Some? && !ValidScope(e.scope.value) then Some(UnsupportedScope)
    else if e.eventType != "backup" && e.eventType != "restore_drill" then Some(UnsupportedEventType)
    else if !ValidStatus(e.eventType, e.status) then Some(UnsupportedStatus)
    else if e.evidence.Some? && ContainsSecretKey(h, e.evidence.value) then Some(SecretKey)
    else if !Insertable(h, e) then Some(NotStorable)
    else None
  }

  function Stored(e: Event): Event {
    if e.scope.None? then e.(scope := Some("database")) else e
  }

  class EventTable {
    var events: seq<Event>

    method RecordEvent(h: Host, e: Event) returns (error: Option<RecordError>)
      modifies this
      ensures error == CheckEvent(h, e)
      ensures events == if error.None? then old(events) + [Stored(e)] else old(events)
      ensures error.None? <==>
                && (e.scope == None || e.scope == Some("database") || e.scope == Some("volume"))
                && (|| (e.eventType == "backup" && e.status in {"completed", "failed"})
                    || (e.eventType == "restore_drill" && e.status in {"passed", "passed_with_risk", "failed"}))
                && (e.evidence.Some? ==> !ContainsSecretKey(h, e.evidence.value))
                && Insertable(h, e)
      ensures error.None? ==> events[|events| - 1] == e.(scope := Some(if e.scope == None then "database" else e.scope.value))
    {
      var scope := if e.scope.None? then "database" else e.scope.value;
      if !ValidScope(scope) {
        return Some(UnsupportedScope);
      }
      if e.eventType != "backup" && e.eventType != "restore_drill" {
        return Some(UnsupportedEventType);
      }
      if !ValidStatus(e.eventType, e.status) {
        return Some(UnsupportedStatus);
      }
      if e.evidence.Some? && ContainsSecretKey(h, e.evidence.value) {
        return Some(SecretKey);
      }
      if !Insertable(h, e) {
        return Some(NotStorable);
      }
      events := events + [e.(scope := Some(scope))];
      return None;
    }

    /** `ingest_backup_evidence` over the files of the directory, in their sorted order. There are no counts when some
        document raises; what was recorded before it stays, since each record is committed. */
    method IngestBackupEvidence(h: Host, now: int, files: seq<File>) returns (counts: Option<Counts>)
      requires KeepsLowerCase(h) && StoresAscii(h)
      modifies this
      ensures events == PassOver(h, now, old(events), files).events
      ensures counts == Reported(PassOver(h, now, old(events), files))
    {
      hide Parse, Found, LookupRaises, Fits, ReadBounded, CheckEvent, KeepsLowerCase, StoresAscii, EvidenceFields;
      var recorded, already, rejected := 0, 0, 0;
      ghost var start := events;
      for i := 0 to |files|
        invariant PassOver(h, now, start, files[..i]) == Pass(events, Counts(recorded, already, rejected), false)
      {
        assert files[..i + 1][..i] == files[..i];
        var file := files[i];
        if file.content.None? {
          rejected := rejected + 1;
          continue;
        }
        var parsed := Parse(h, now, ReadBounded(file.content.value));
        if parsed.Raised? {
          StopsHere(h, now, start, files, i);
          return None;
        }
        if parsed.Rejected? {
          rejected := rejected + 1;
          continue;
        }
        if LookupRaises(h, events, parsed.doc) {
          StopsHere(h, now, start, files, i);
          return None;
        }
        if Found(h, events, parsed.doc) {
          already := already + 1;
          continue;
        }
        RecordableExactly(h, now, file);
        var error := RecordEvent(h, EventOf(h, parsed.doc, file.name));
        if error.Some? {
          StopsHere(h, now, start, files, i);
          return None;
        }
        recorded := recorded + 1;
      }
      assert files[..|files|] == files;
      return Some(Counts(recorded, already, rejected));
    }
  }

  // ── Where a secret key can hide ─────────────────────────────────────────

  datatype Turn = Key(key: string) | Index(i: nat)

  /** The value reached by following `path` down from `v`. */
  function At(v: Json, path: seq<Turn>): Option<Json> {
    if path == [] then Some(v)
    else if path[0].Key? && v.Obj? && path[0].key in v.fields then At(v.fields[path[0].key], path[1..])
    else if path[0].Index? && v.Arr? && path[0].i < |v.items| then At(v.items[path[0].i], path[1..])
    else None
  }

  ghost predicate LeadsToMarkedKey(h: Host, v: Json, path: seq<Turn>) {
    At(v, path).Some? && At(v, path).value.Obj? && exists k :: k in At(v, path).value.fields && Marked(h, k)
  }

  /** The recursive search finds a marked key exactly when some path through the value leads to one. */
  lemma SecretKeyExactly(h: Host, v: Json)
    ensures ContainsSecretKey(h, v) <==> exists path :: LeadsToMarkedKey(h, v, path)
  {
    if ContainsSecretKey(h, v) {
      var path := FindSecretKey(h, v);
    }
    if path :| LeadsToMarkedKey(h, v, path) {
      SecretKeyIsFound(h, v, path);
    }
  }

  lemma {:induction false} FindSecretKey(h: Host, v: Json) returns (path: seq<Turn>)
    requires ContainsSecretKey(h, v)
    ensures LeadsToMarkedKey(h, v, path)
    decreases v
  {
    if v.Obj? {
      var k :| k in v.fields && (Marked(h, k) || ContainsSecretKey(h, v.fields[k]));
      if Marked(h, k) {
        path := [];
      } else {
        var rest := FindSecretKey(h, v.fields[k]);
        path := [Key(k)] + rest;
        assert path[1..] == rest;
      }
    } else {
      var i: nat :| i < |v.items| && ContainsSecretKey(h, v.items[i]);
      var rest := FindSecretKey(h, v.items[i]);
      path := [Index(i)] + rest;
      assert path[1..] == rest;
    }
  }

  lemma {:induction false} SecretKeyIsFound(h: Host, v: Json, path: seq<Turn>)
    requires LeadsToMarkedKey(h, v, path)
    ensures ContainsSecretKey(h, v)
    decreases |path|
  {
    if path != [] {
      if path[0].Key? {
        SecretKeyIsFound(h, v.fields[path[0].key], path[1..]);
      } else {
        SecretKeyIsFound(h, v.items[path[0].i], path[1..]);
      }
    }
  }

  // ── One file ────────────────────────────────────────────────────────────

  /** `content` is missing when the file cannot be read. */
  datatype File = File(name: string, content: Option<seq<Byte>>)

  datatype Fate = Recorded | AlreadyRecorded | Refused | Raising

  function ReadBounded(content: seq<Byte>): seq<Byte> {
    if |content| <= MAX_DOCUMENT_BYTES + 1 then content else content[..MAX_DOCUMENT_BYTES + 1]
  }

  predicate LegacyVolume(h: Host, e: Event) {
    || Like(h.dialect, "%volume%", h.lower(e.provider))
    || Like(h.dialect, "%.tar", h.lower(if e.backupId.Some? then e.backupId.value else ""))
  }

  /** `scope_filter`: rows written before the column existed are classified by what they say. */
  predicate InScope(h: Host, scope: string, e: Event) {
    if e.scope.Some? then e.scope.value == scope
    else if scope == "volume" then LegacyVolume(h, e)
    else !LegacyVolume(h, e)
  }

  /** A row without a scope is a volume's exactly when its provider says so or its backup id ends like an archive, and
      otherwise a database's; a row with a scope is of that one. */
  lemma ScopesExactly(h: Host, e: Event)
    requires h.dialect.escape != Some('%') && Literal(h.dialect, "volume") && Literal(h.dialect, ".tar")
    ensures var id := if e.backupId.Some? then e.backupId.value else "";
            InScope(h, "volume", e)
            <==> if e.scope.Some? then e.scope.value == "volume"
                 else || (exists i :: FoldsAt(h.dialect, h.lower(e.provider), "volume", i))
                      || FoldsAt(h.dialect, h.lower(id), ".tar", |h.lower(id)| - 4)
    ensures InScope(h, "database", e)
            <==> if e.scope.Some? then e.scope.value == "database" else !InScope(h, "volume", e)
  {
    var id := if e.backupId.Some? then e.backupId.value else "";
    assert "%" + "volume" + "%" == "%volume%" && "%" + ".tar" == "%.tar";
    LikeContainsExactly(h.dialect, "volume", h.lower(e.provider));
    LikeEndsExactly(h.dialect, ".tar", h.lower(id));
    hide Like, FoldsAt;
  }

  predicate Comparable(h: Host, scope: string, e: Event) {
    e.eventType == "backup" && e.environment == h.environment && InScope(h, scope, e) && e.backupId.Some?
  }

  /** `_already_recorded`: the rows the query returns, then the comparison. */
  predicate Found(h: Host, events: seq<Event>, doc: Evidence) {
    exists i | 0 <= i < |events| ::
      && Comparable(h, doc.scope, events[i])
      && Like(h.dialect, "%" + LastComponent(doc.backupId), events[i].backupId.value)
      && SameBackup(events[i].backupId.value, doc.backupId)
  }

  /** The texts of that query can be sent to the database. */
  predicate Askable(h: Host, doc: Evidence) {
    Storable(h, h.environment) && Storable(h, "%" + LastComponent(doc.backupId))
  }

  /** Matching the pattern with row `e` raises. */
  predicate RaisesOn(h: Host, doc: Evidence, e: Event) {
    && (Comparable(h, doc.scope, e) || h.alsoMatched(doc.scope, e))
    && e.backupId.Some? && LikeRaises(h.dialect, "%" + LastComponent(doc.backupId), e.backupId.value)
  }

  /** The query of `_already_recorded` raises. */
  predicate LookupRaises(h: Host, events: seq<Event>, doc: Evidence) {
    !Askable(h, doc) || exists i | 0 <= i < |events| :: RaisesOn(h, doc, events[i])
  }

  function EventOf(h: Host, doc: Evidence, name: string): Event {
    Event("backup", if doc.gzipOk == Some(false) then "failed" else "completed", Some(doc.scope), h.environment,
          doc.provider, Some(doc.backupId), doc.completedAt, Some(doc.completedAt), Some(doc.sizeBytes),
          Some("sha256:" + doc.sha256), "system:backup-recorder", Some(Obj(EvidenceFields(h, doc, name))))
  }

  function EvidenceFields(h: Host, doc: Evidence, name: string): map<string, Json> {
    map["method" := Str("sha256-stream+gzip-t"), "source" := Str("host-signal"), "recorder" := Str(doc.recorder),
        "observed_at" := Str(h.isoformat(doc.observedAt)),
        "gzip_ok" := if doc.gzipOk.Some? then Bool(doc.gzipOk.value) else Null, "document" := Str(name)]
  }

  function DocumentOf(h: Host, now: int, f: File): Option<Evidence> {
    if f.content.None? then None
    else
      var parsed := Parse(h, now, ReadBounded(f.content.value));
      if parsed.Accepted? then Some(parsed.doc) else None
  }

  predicate ParseRaises(h: Host, now: int, f: File) {
    f.content.Some? && Parse(h, now, ReadBounded(f.content.value)) == Raised
  }

  /** What the parser leaves open about the row of a document. */
  predicate Fits(h: Host, doc: Evidence) {
    && FitsColumn(h, h.environment, 50) && Storable(h, doc.provider) && Storable(h, doc.backupId)
    && FitsBigint(doc.sizeBytes)
  }

  function FateOf(h: Host, now: int, events: seq<Event>, f: File): Fate {
    if ParseRaises(h, now, f) then Raising
    else
      var doc := DocumentOf(h, now, f);
      if doc.None? then Refused
      else if LookupRaises(h, events, doc.value) then Raising
      else if Found(h, events, doc.value) then AlreadyRecorded
      else if !Fits(h, doc.value) then Raising
      else Recorded
  }

  datatype Counts = Counts(recorded: nat, already: nat, rejected: nat)

  /** How far a pass got: the table, the counts, and whether a document has raised. */
  datatype Pass = Pass(events: seq<Event>, counts: Counts, stopped: bool)

  function Reported(p: Pass): Option<Counts> {
    if p.stopped then None else Some(p.counts)
  }

  function Processed(p: Pass): nat {
    p.counts.recorded + p.counts.already + p.counts.rejected
  }

  function Next(h: Host, now: int, p: Pass, f: File): Pass {
    if p.stopped then p
    else
      match FateOf(h, now, p.events, f)
      case Recorded =>
        p.(events := p.events + [EventOf(h, DocumentOf(h, now, f).value, f.name)],
           counts := p.counts.(recorded := p.counts.recorded + 1))
      case AlreadyRecorded => p.(counts := p.counts.(already := p.counts.already + 1))
      case Refused => p.(counts := p.counts.(rejected := p.counts.rejected + 1))
      case Raising => p.(stopped := true)
  }

  function PassOver(h: Host, now: int, events: seq<Event>, files: seq<File>): Pass {
    if files == [] then Pass(events, Counts(0, 0, 0), false)
    else Next(h, now, PassOver(h, now, events, files[..|files| - 1]), files[|files| - 1])
  }

  // ── Which accepted documents can be recorded ────────────────────────────

  ghost predicate LowerCase(s: string) {
    forall i :: 0 <= i < |s| ==> 'a' <= s[i] <= 'z' || s[i] == '_'
  }

  /** Case folding leaves ASCII lower case alone. */
  ghost predicate KeepsLowerCase(h: Host) {
    forall s :: LowerCase(s) ==> h.casefold(s) == s
  }

  lemma LacksLetter(s: string, part: string, c: char)
    requires c in part && c !in s
    ensures !Contains(s, part)
  {
    var k :| 0 <= k < |part| && part[k] == c;
    forall i: nat | i + |part| <= |s| ensures !StandsAt(s, part, i) {
      assert s[i + k] in s && s[i..i + |part|][k] == s[i + k];
    }
  }

  /** A lower-case key is unmarked once it lacks one letter of each marker. */
  lemma Unmarked(h: Host, s: string, a: char, b: char, c: char)
    requires KeepsLowerCase(h) && LowerCase(s) && 'w' !in s && 'l' !in s
    requires (a == 's' || a == 't' || a == 'c') && (b == 'k' || b == 't') && (c == 'i' || c == 'c')
    requires a !in s && b !in s && c !in s
    ensures !Marked(h, s)
  {
    assert "secret"[0] == 's' && "secret"[2] == 'c' && "secret"[5] == 't';
    assert "password"[4] == 'w' && "token"[0] == 't' && "token"[2] == 'k';
    assert "credential"[9] == 'l' && "database_url"[11] == 'l';
    assert "connection_string"[0] == 'c' && "connection_string"[7] == 'i';
    LacksLetter(s, "secret", a);
    LacksLetter(s, "password", 'w');
    LacksLetter(s, "token", b);
    LacksLetter(s, "credential", 'l');
    LacksLetter(s, "database_url", 'l');
    LacksLetter(s, "connection_string", c);
  }

  ghost predicate EvidenceKey(k: string) {
    k == "method" || k == "source" || k == "recorder" || k == "observed_at" || k == "gzip_ok" || k == "document"
  }

  lemma EvidenceShape(h: Host, doc: Evidence, name: string, k: string)
    requires k in EvidenceFields(h, doc, name)
    ensures EvidenceKey(k) && !EvidenceFields(h, doc, name)[k].Obj? && !EvidenceFields(h, doc, name)[k].Arr?
  {}

  lemma MethodUnmarked(h: Host)
    requires KeepsLowerCase(h)
    ensures !Marked(h, "method")
  {
    Unmarked(h, "method", 's', 'k', 'i');
  }

  lemma SourceUnmarked(h: Host)
    requires KeepsLowerCase(h)
    ensures !Marked(h, "source")
  {
    Unmarked(h, "source", 't', 'k', 'i');
  }

  lemma RecorderUnmarked(h: Host)
    requires KeepsLowerCase(h)
    ensures !Marked(h, "recorder")
  {
    Unmarked(h, "recorder", 's', 'k', 'i');
  }

  lemma ObservedAtUnmarked(h: Host)
    requires KeepsLowerCase(h)
    ensures !Marked(h, "observed_at")
  {
    Unmarked(h, "observed_at", 'c', 'k', 'i');
  }

  lemma DocumentUnmarked(h: Host)
    requires KeepsLowerCase(h)
    ensures !Marked(h, "document")
  {
    Unmarked(h, "document", 's', 'k', 'i');
  }

  lemma GzipOkUnmarked(h: Host)
    requires KeepsLowerCase(h)
    ensures !Marked(h, "gzip_ok")
  {
    Unmarked(h, "gzip_ok", 's', 't', 'c');
  }

  lemma EvidenceIsUnmarked(h: Host, doc: Evidence, name: string)
    requires KeepsLowerCase(h)
    ensures !ContainsSecretKey(h, Obj(EvidenceFields(h, doc, name)))
  {
    hide Marked, EvidenceFields, KeepsLowerCase;
    MethodUnmarked(h);
    SourceUnmarked(h);
    RecorderUnmarked(h);
    ObservedAtUnmarked(h);
    GzipOkUnmarked(h);
    DocumentUnmarked(h);
    var fields := EvidenceFields(h, doc, name);
    forall k | k in fields ensures !Marked(h, k) && !ContainsSecretKey(h, fields[k]) {
      EvidenceShape(h, doc, name, k);
    }
    assert !ContainsSecretKey(h, Obj(fields));
  }

  /** Every database takes the ASCII characters, NUL aside. */
  ghost predicate StoresAscii(h: Host) {
    forall c: char :: 0 < c as int < 128 ==> h.stores(c)
  }

  predicate Ascii(s: string) {
    forall i :: 0 <= i < |s| ==> 0 < s[i] as int < 128
  }

  lemma AsciiFits(h: Host, s: string, width: nat)
    requires StoresAscii(h) && Ascii(s) && |s| <= width
    ensures FitsColumn(h, s, width)
  {}

  lemma ConstantsFit(h: Host)
    requires StoresAscii(h)
    ensures FitsColumn(h, "backup", 30) && FitsColumn(h, "failed", 20) && FitsColumn(h, "completed", 20)
    ensures FitsColumn(h, "database", 20) && FitsColumn(h, "volume", 20)
    ensures FitsColumn(h, "system:backup-recorder", 120)
  {
    hide FitsColumn;
    AsciiFits(h, "backup", 30);
    AsciiFits(h, "failed", 20);
    AsciiFits(h, "completed", 20);
    AsciiFits(h, "database", 20);
    AsciiFits(h, "volume", 20);
    AsciiFits(h, "system:backup-recorder", 120);
  }

  lemma DigestFits(h: Host, digest: string)
    requires StoresAscii(h) && IsSha256(digest)
    ensures FitsColumn(h, "sha256:" + digest, 200)
  {
    var text := "sha256:" + digest;
    forall i | 0 <= i < |text| ensures 0 < text[i] as int < 128 {
      if 7 <= i < 71 {
        assert text[i] == digest[..64][i - 7];
      } else if i == 71 {
        assert text[i] == digest[64..][0];
      }
    }
    AsciiFits(h, text, 200);
  }

  /** Of an accepted document `record_event` can find fault only with the characters of its ids, with a size beyond its
      column, and with the environment; every other check passes. */
  lemma RecordableExactly(h: Host, now: int, f: File)
    requires KeepsLowerCase(h) && StoresAscii(h) && DocumentOf(h, now, f).Some?
    ensures CheckEvent(h, EventOf(h, DocumentOf(h, now, f).value, f.name))
            == if Fits(h, DocumentOf(h, now, f).value) then None else Some(NotStorable)
  {
    var doc := DocumentOf(h, now, f).value;
    AcceptedIsValid(h, now, ReadBounded(f.content.value));
    EvidenceIsUnmarked(h, doc, f.name);
    ConstantsFit(h);
    DigestFits(h, doc.sha256);
    hide EvidenceFields, Storable, ContainsSecretKey, IsSha256, SafePath, KeepsLowerCase, StoresAscii;
    assert Insertable(h, EventOf(h, doc, f.name)) == Fits(h, doc);
  }

  // ── Passes that stop ────────────────────────────────────────────────────

  /** The pass gets as far as file `k` and that file raises. */
  ghost predicate StopsAt(h: Host, now: int, events: seq<Event>, files: seq<File>, k: nat) {
    && k < |files| && !PassOver(h, now, events, files[..k]).stopped
    && FateOf(h, now, PassOver(h, now, events, files[..k]).events, files[k]) == Raising
  }

  /** A pass is documented never to raise for a document. It stops exactly when some file raises when its turn comes;
      then exactly the files before the first such file have been processed. */
  lemma {:induction false} PassStopsExactly(h: Host, now: int, events: seq<Event>, files: seq<File>)
    ensures PassOver(h, now, events, files).stopped <==> exists k: nat :: StopsAt(h, now, events, files, k)
    ensures forall k: nat :: StopsAt(h, now, events, files, k) ==>
      && PassOver(h, now, events, files) == PassOver(h, now, events, files[..k]).(stopped := true)
      && Processed(PassOver(h, now, events, files)) == k
  {
    hide FateOf;
    if files != [] {
      var before := files[..|files| - 1];
      PassStopsExactly(h, now, events, before);
      CountsAddUp(h, now, events, before);
      assert files[..|before|] == before;
      forall k: nat | StopsAt(h, now, events, files, k)
        ensures PassOver(h, now, events, files) == PassOver(h, now, events, files[..k]).(stopped := true)
        ensures Processed(PassOver(h, now, events, files)) == k
      {
        if k < |before| {
          StopsAtBefore(h, now, events, files, k);
        }
      }
      if k: nat :| StopsAt(h, now, events, before, k) {
        StopsAtBefore(h, now, events, files, k);
      } else if PassOver(h, now, events, files).stopped {
        assert StopsAt(h, now, events, files, |before|);
      }
    }
  }

  lemma StopsAtBefore(h: Host, now: int, events: seq<Event>, files: seq<File>, k: nat)
    requires k < |files| - 1
    ensures files[..|files| - 1][..k] == files[..k]
    ensures StopsAt(h, now, events, files, k) == StopsAt(h, now, events, files[..|files| - 1], k)
  {}

  lemma StopsHere(h: Host, now: int, events: seq<Event>, files: seq<File>, k: nat)
    requires StopsAt(h, now, events, files, k)
    ensures PassOver(h, now, events, files) == PassOver(h, now, events, files[..k]).(stopped := true)
  {
    PassStopsExactly(h, now, events, files);
  }

  /** Raises on no table. */
  ghost predicate Harmless(h: Host, now: int, f: File) {
    && !ParseRaises(h, now, f)
    && (DocumentOf(h, now, f).Some? ==>
          && Fits(h, DocumentOf(h, now, f).value)
          && !EndsInEscape(h.dialect, "%" + LastComponent(DocumentOf(h, now, f).value.backupId)))
  }

  lemma FitsIsAskable(h: Host, doc: Evidence)
    requires StoresAscii(h) && Fits(h, doc)
    ensures Askable(h, doc)
  {
    var p := LastComponentSplits(doc.backupId);
    var name := LastComponent(doc.backupId);
    forall i | 0 <= i < |"%" + name| ensures h.stores(("%" + name)[i]) {
      if i > 0 {
        assert ("%" + name)[i] == doc.backupId[|p| + i - 1];
      }
    }
  }

  lemma NoEscapeNoRaise(h: Host, events: seq<Event>, doc: Evidence)
    requires Askable(h, doc) && !EndsInEscape(h.dialect, "%" + LastComponent(doc.backupId))
    ensures !LookupRaises(h, events, doc)
  {
    if i :| 0 <= i < |events| && RaisesOn(h, doc, events[i]) {
      OnlyEscapesRaise(h.dialect, "%" + LastComponent(doc.backupId), events[i].backupId.value);
    }
  }

  /** A file raises on no table exactly when the parser does not raise, the row of its document can be stored and the
      name in its backup id does not end in a free escape character. */
  lemma HarmlessExactly(h: Host, now: int, f: File)
    requires StoresAscii(h)
    ensures Harmless(h, now, f) <==> forall events :: FateOf(h, now, events, f) != Raising
  {
    if !ParseRaises(h, now, f) && DocumentOf(h, now, f).Some? {
      var doc := DocumentOf(h, now, f).value;
      var pattern := "%" + LastComponent(doc.backupId);
      var none: seq<Event> := [];
      assert !Found(h, none, doc);
      if !Fits(h, doc) {
        assert FateOf(h, now, none, f) == Raising;
      } else if EndsInEscape(h.dialect, pattern) {
        RaisingTextExactly(h.dialect, pattern);
        var text :| LikeRaises(h.dialect, pattern, text);
        var row := EventOf(h, doc, f.name).(backupId := Some(text));
        var events := [row];
        assert Comparable(h, doc.scope, events[0]);
        assert RaisesOn(h, doc, events[0]);
        assert FateOf(h, now, events, f) == Raising;
      } else {
        FitsIsAskable(h, doc);
        forall events ensures FateOf(h, now, events, f) != Raising {
          NoEscapeNoRaise(h, events, doc);
        }
      }
    } else {
      var none: seq<Event> := [];
      assert ParseRaises(h, now, f) ==> FateOf(h, now, none, f) == Raising;
    }
  }

  ghost predicate From(some: seq<File>, files: seq<File>) {
    forall f :: f in some ==> f in files
  }

  lemma {:induction false} HarmlessPassCompletes(h: Host, now: int, events: seq<Event>, files: seq<File>)
    requires StoresAscii(h) && forall f :: f in files ==> Harmless(h, now, f)
    ensures !PassOver(h, now, events, files).stopped
  {
    if files != [] {
      var before, last := files[..|files| - 1], files[|files| - 1];
      assert files == before + [last];
      assert forall g :: g in before ==> g in files;
      HarmlessPassCompletes(h, now, events, before);
      assert last in files;
      HarmlessExactly(h, now, last);
    }
  }

  /** Every pass over some of these files, whatever the table holds, completes exactly when each file is harmless. */
  lemma PassesCompleteExactly(h: Host, now: int, files: seq<File>)
    requires StoresAscii(h)
    ensures (forall events, some :: From(some, files) ==> !PassOver(h, now, events, some).stopped)
            <==> forall f :: f in files ==> Harmless(h, now, f)
  {
    if forall f :: f in files ==> Harmless(h, now, f) {
      forall events, some | From(some, files) ensures !PassOver(h, now, events, some).stopped {
        HarmlessPassCompletes(h, now, events, some);
      }
    } else {
      var f :| f in files && !Harmless(h, now, f);
      HarmlessExactly(h, now, f);
      var events :| FateOf(h, now, events, f) == Raising;
      SingleFile(h, now, events, f);
      assert From([f], files) && PassOver(h, now, events, [f]).stopped;
    }
  }

  /** A pass completes exactly when no file of the list raises in the parser and, when the turn of a document comes, the
      query about it does not raise and its row either can be stored or is there already. */
  lemma PassCompletesExactly(h: Host, now: int, events: seq<Event>, files: seq<File>)
    ensures !PassOver(h, now, events, files).stopped
            <==> && (forall k: nat :: k < |files| ==> !ParseRaises(h, now, files[k]))
                 && (forall k: nat :: k < |files| && DocumentOf(h, now, files[k]).Some? ==>
                       var doc, table := DocumentOf(h, now, files[k]).value, PassOver(h, now, events, files[..k]).events;
                       !LookupRaises(h, table, doc) && (Fits(h, doc) || Found(h, table, doc)))
  {
    PassStopsExactly(h, now, events, files);
    if PassOver(h, now, events, files).stopped {
      var k: nat :| StopsAt(h, now, events, files, k);
      assert ParseRaises(h, now, files[k]) || DocumentOf(h, now, files[k]).Some?;
    } else {
      forall k: nat | k < |files|
        ensures FateOf(h, now, PassOver(h, now, events, files[..k]).events, files[k]) != Raising
      {
        PrefixCompletes(h, now, events, files, k);
        assert !StopsAt(h, now, events, files, k);
      }
      hide PassOver;
      assert forall k: nat :: k < |files| ==> !ParseRaises(h, now, files[k]);
    }
  }

  lemma {:induction false} PrefixCompletes(h: Host, now: int, events: seq<Event>, files: seq<File>, k: nat)
    requires !PassOver(h, now, events, files).stopped && k <= |files|
    ensures !PassOver(h, now, events, files[..k]).stopped
  {
    if k < |files| {
      assert files[..|files| - 1][..k] == files[..k];
      PrefixCompletes(h, now, events, files[..|files| - 1], k);
    } else {
      assert files[..k] == files;
    }
  }

  /** No row of the same backup would be found, whatever the table holds. */
  ghost predicate NeverFound(h: Host, doc: Evidence) {
    forall id :: SameBackup(id, doc.backupId) ==> !Like(h.dialect, "%" + LastComponent(doc.backupId), id)
  }

  /** Raises on every table. */
  ghost predicate Blocking(h: Host, now: int, f: File) {
    || ParseRaises(h, now, f)
    || (DocumentOf(h, now, f).Some?
        && var doc := DocumentOf(h, now, f).value; !Askable(h, doc) || (!Fits(h, doc) && NeverFound(h, doc)))
  }

  lemma BlockingExactly(h: Host, now: int, f: File)
    ensures Blocking(h, now, f) <==> forall events :: FateOf(h, now, events, f) == Raising
  {
    if !ParseRaises(h, now, f) && DocumentOf(h, now, f).Some? && Askable(h, DocumentOf(h, now, f).value) {
      var doc := DocumentOf(h, now, f).value;
      var none: seq<Event> := [];
      assert !Found(h, none, doc) && !LookupRaises(h, none, doc);
      if Fits(h, doc) {
        assert FateOf(h, now, none, f) == Recorded;
      } else if NeverFound(h, doc) {
        forall events ensures FateOf(h, now, events, f) == Raising {
          assert !Found(h, events, doc);
        }
      } else {
        var id :| SameBackup(id, doc.backupId) && Like(h.dialect, "%" + LastComponent(doc.backupId), id);
        var events := [EventOf(h, doc, f.name).(backupId := Some(id))];
        assert Comparable(h, doc.scope, events[0]) && Found(h, events, doc);
        MatchesEndComplete(h.dialect, "%" + LastComponent(doc.backupId), id);
        NoEscapeNoRaise(h, events, doc);
        assert FateOf(h, now, events, f) != Raising;
      }
    } else {
      var none: seq<Event> := [];
      assert ParseRaises(h, now, f) || DocumentOf(h, now, f).Some? || FateOf(h, now, none, f) == Refused;
    }
  }

  /** Behind harmless files, a file that raises on every table blocks the list for good: on every pass, whatever the
      table holds by then, exactly the files before it are processed. */
  lemma RaisingFileBlocks(h: Host, now: int, events: seq<Event>, files: seq<File>, k: nat)
    requires StoresAscii(h) && k < |files| && Blocking(h, now, files[k])
    requires forall i :: 0 <= i < k ==> Harmless(h, now, files[i])
    ensures var p := PassOver(h, now, events, files[..k]);
            !p.stopped && PassOver(h, now, events, files) == p.(stopped := true) && Processed(p) == k
  {
    forall f | f in files[..k] ensures Harmless(h, now, f) {
      var i :| 0 <= i < k && files[..k][i] == f;
      assert files[i] == f;
    }
    HarmlessPassCompletes(h, now, events, files[..k]);
    BlockingExactly(h, now, files[k]);
    assert StopsAt(h, now, events, files, k);
    PassStopsExactly(h, now, events, files);
  }

  /** For one, a document dated to the first midnight of year 1 in front: no other file is ever looked at. */
  lemma YearOneBlocks(h: Host, now: int, events: seq<Event>, fields: map<string, Json>, raw: seq<Byte>, files: seq<File>)
    requires StoresAscii(h) && Schema(h, now, fields)
    requires Decodes(h, raw, fields["completed_at" := Str("0001-01-01T00:00:00+23:59")])
    requires h.fromisoformat("0001-01-01T00:00:00+23:59") == Some(Moment(0, Some(1439 * MINUTE)))
    requires files != [] && files[0].content == Some(raw)
    ensures PassOver(h, now, events, files) == Pass(events, Counts(0, 0, 0), true)
  {
    YearOneRaises(h, now, fields, raw);
    RaisingFileBlocks(h, now, events, files, 0);
  }

  /** A document of the schema whatever its backup id: `id` in its place is accepted if it is a trimmed safe path. */
  lemma RenamedIsAccepted(h: Host, now: int, fields: map<string, Json>, raw: seq<Byte>, id: string)
    requires Schema(h, now, fields) && Decodes(h, raw, fields["backup_id" := Str(id)])
    requires Trimmed(h.isSpace, id, 200) && SafePath(id)
    ensures Parse(h, now, raw).Accepted? && Parse(h, now, raw).doc.backupId == id
  {
    var other := fields["backup_id" := Str(id)];
    assert other.Keys == KEYS;
    assert fields["sha256"].s[..64] == fields["sha256"].s && fields["sha256"].s[64..] == "";
    ShortTextIsTrimmed(h.isSpace, Str(id), 200);
  }

  /** For another, a document of the schema with a NUL in its backup id, where the database takes none. */
  lemma NulBlocks(h: Host, now: int, events: seq<Event>, fields: map<string, Json>, raw: seq<Byte>, files: seq<File>)
    requires StoresAscii(h) && !h.stores('\0') && !h.isSpace('a') && !h.isSpace('b')
    requires Schema(h, now, fields) && Decodes(h, raw, fields["backup_id" := Str("a\0b")])
    requires files != [] && files[0].content == Some(raw)
    ensures PassOver(h, now, events, files) == Pass(events, Counts(0, 0, 0), true)
  {
    OneComponent("a\0b");
    RenamedIsAccepted(h, now, fields, raw, "a\0b");
    NameWithoutSlash("a\0b");
    hide Parse, SafePath, Schema;
    assert ("%" + "a\0b")[2] == '\0';
    assert !Askable(h, DocumentOf(h, now, files[0]).value);
    RaisingFileBlocks(h, now, events, files, 0);
  }

  /** A document whose own row makes the query raise blocks from its second pass on: the first pass records it, and
      every later one, over any list that it heads, stops at it. */
  lemma OwnRowBlocksLater(h: Host, now: int, f: File, files: seq<File>)
    requires StoresAscii(h) && DocumentOf(h, now, f).Some? && Fits(h, DocumentOf(h, now, f).value)
    requires RaisesOnItself(h, DocumentOf(h, now, f).value) && files != [] && files[0] == f
    ensures var once := PassOver(h, now, [], [f]);
            && once.counts == Counts(1, 0, 0) && !once.stopped
            && forall more :: once.events <= more ==> PassOver(h, now, more, files) == Pass(more, Counts(0, 0, 0), true)
  {
    var doc := DocumentOf(h, now, f).value;
    FitsIsAskable(h, doc);
    var none: seq<Event> := [];
    SingleFile(h, now, none, f);
    var row := EventOf(h, doc, f.name);
    assert !Found(h, none, doc) && PassOver(h, now, none, [f]).events == [row];
    forall more | [row] <= more ensures PassOver(h, now, more, files) == Pass(more, Counts(0, 0, 0), true) {
      assert more[0] == row && Comparable(h, doc.scope, more[0]);
      assert RaisesOn(h, doc, more[0]);
      assert files[..0] == [] && StopsAt(h, now, more, files, 0);
      PassStopsExactly(h, now, more, files);
    }
  }

  ghost predicate RaisesOnItself(h: Host, doc: Evidence) {
    LikeRaises(h.dialect, "%" + LastComponent(doc.backupId), doc.backupId)
  }

  /** So does a document of the schema, but for a backslash at the end of its backup id, where LIKE escapes with it. */
  lemma BackslashRaisesOnItself(h: Host, now: int, fields: map<string, Json>, raw: seq<Byte>)
    requires h.dialect.escape == Some('\\') && !h.isSpace('a') && !h.isSpace('\\')
    requires Schema(h, now, fields) && Decodes(h, raw, fields["backup_id" := Str("a\\")])
    ensures Parse(h, now, raw).Accepted? && RaisesOnItself(h, Parse(h, now, raw).doc)
  {
    OneComponent("a\\");
    RenamedIsAccepted(h, now, fields, raw, "a\\");
    NameWithoutSlash("a\\");
    hide Parse;
    BackslashRaises(h.dialect);
  }

  lemma BackslashRaises(d: Dialect)
    requires d.escape == Some('\\')
    ensures LikeRaises(d, "%" + "a\\", "a\\")
  {
    assert ("%" + "a\\")[1..] == "a\\" && "a\\"[1..] == "\\";
  }

  // ── Whole passes ────────────────────────────────────────────────────────

  /** The table only grows, by one row for each recorded file; every processed file has one fate, and all files are
      processed exactly when the pass did not stop. */
  lemma {:induction false} CountsAddUp(h: Host, now: int, events: seq<Event>, files: seq<File>)
    ensures var p := PassOver(h, now, events, files);
            && Processed(p) <= |files| && (Processed(p) == |files| <==> !p.stopped)
            && events <= p.events && |p.events| == |events| + p.counts.recorded
  {
    if files != [] {
      CountsAddUp(h, now, events, files[..|files| - 1]);
    }
  }

  /** The processed files without an accepted document. */
  ghost function RefusedFiles(h: Host, now: int, files: seq<File>, n: nat): set<int>
    requires n <= |files|
  {
    set i | 0 <= i < n && DocumentOf(h, now, files[i]).None?
  }

  /** Refused are exactly the processed files without an accepted document; the others were recorded, one new row each, or
      recorded already. */
  lemma {:induction false} CountsSayWhat(h: Host, now: int, events: seq<Event>, files: seq<File>)
    ensures var p := PassOver(h, now, events, files);
            && Processed(p) <= |files|
            && p.counts.rejected == |RefusedFiles(h, now, files, Processed(p))|
            && p.counts.recorded == |p.events| - |events|
  {
    hide *;
    CountsAddUp(h, now, events, files);
    if files == [] {
      NothingCounted(h, now, events, files);
    } else {
      var before, last := files[..|files| - 1], files[|files| - 1];
      var middle := PassOver(h, now, events, before);
      PassNext(h, now, events, files);
      CountsSayWhat(h, now, events, before);
      CountsAddUp(h, now, events, before);
      OneMoreProcessed(h, now, middle, last);
      RefusedOfPrefix(h, now, files, Processed(middle));
      if Processed(middle) < Processed(Next(h, now, middle, last)) {
        RefusedNext(h, now, files, Processed(middle));
      }
    }
    assert PassOver(h, now, events, files).counts.rejected
           == |RefusedFiles(h, now, files, Processed(PassOver(h, now, events, files)))|;
  }

  lemma PassNext(h: Host, now: int, events: seq<Event>, files: seq<File>)
    requires files != []
    ensures PassOver(h, now, events, files)
            == Next(h, now, PassOver(h, now, events, files[..|files| - 1]), files[|files| - 1])
  {}

  lemma NothingCounted(h: Host, now: int, events: seq<Event>, files: seq<File>)
    requires files == []
    ensures var p := PassOver(h, now, events, files);
            Processed(p) == 0 && p.counts.rejected == 0 && |RefusedFiles(h, now, files, 0)| == 0
  {
    NoneRefused(h, now, files);
  }

  lemma NoneRefused(h: Host, now: int, files: seq<File>)
    ensures |RefusedFiles(h, now, files, 0)| == 0
  {
    assert forall i :: i !in RefusedFiles(h, now, files, 0);
    assert RefusedFiles(h, now, files, 0) == {};
  }

  lemma RefusedOfPrefix(h: Host, now: int, files: seq<File>, n: nat)
    requires files != [] && n < |files|
    ensures RefusedFiles(h, now, files[..|files| - 1], n) == RefusedFiles(h, now, files, n)
  {
    hide DocumentOf;
    var a, b := RefusedFiles(h, now, files[..|files| - 1], n), RefusedFiles(h, now, files, n);
    assert forall i :: i in a <==> i in b;
    assert a == b;
  }

  lemma RefusedNext(h: Host, now: int, files: seq<File>, n: nat)
    requires n < |files|
    ensures |RefusedFiles(h, now, files, n + 1)|
            == |RefusedFiles(h, now, files, n)| + (if DocumentOf(h, now, files[n]).None? then 1 else 0)
  {
    hide DocumentOf;
    var fewer, more := RefusedFiles(h, now, files, n), RefusedFiles(h, now, files, n + 1);
    assert forall i :: i in fewer <==> i in more && i != n;
    assert fewer == more - {n};
    assert n in more <==> DocumentOf(h, now, files[n]).None?;
  }

  lemma OneMoreProcessed(h: Host, now: int, p: Pass, f: File)
    ensures var q := Next(h, now, p, f);
            && Processed(p) <= Processed(q) <= Processed(p) + 1
            && (p.stopped ==> q == p)
            && q.counts.rejected == p.counts.rejected
                 + (if Processed(q) > Processed(p) && DocumentOf(h, now, f).None? then 1 else 0)
  {}

  /** `_already_recorded` without the LIKE filter: the relation over all rows of the environment and scope. */
  ghost predicate SomeRowIsSame(h: Host, events: seq<Event>, doc: Evidence) {
    exists i :: 0 <= i < |events| && Comparable(h, doc.scope, events[i])
                && SameBackup(events[i].backupId.value, doc.backupId)
  }

  /** The filter agrees with the relation on every table exactly when it is lossless for the observed id. */
  lemma FilterAgreesExactly(h: Host, doc: Evidence)
    requires h.dialect.escape != Some('%') && doc.backupId != ""
    ensures (forall events :: Found(h, events, doc) == SomeRowIsSame(h, events, doc))
            <==> Lossless(h.dialect, doc.backupId)
  {
    if Lossless(h.dialect, doc.backupId) {
      forall events ensures Found(h, events, doc) == SomeRowIsSame(h, events, doc) {
        FilterAgrees(h, events, doc);
      }
    } else {
      var recorded :| SameBackup(recorded, doc.backupId)
                      && !Like(h.dialect, "%" + LastComponent(doc.backupId), recorded);
      var row := EventOf(h, doc, "").(backupId := Some(recorded));
      var events := [row];
      assert Comparable(h, doc.scope, events[0]) && SomeRowIsSame(h, events, doc);
      assert !Found(h, events, doc);
    }
  }

  lemma FilterAgrees(h: Host, events: seq<Event>, doc: Evidence)
    requires Lossless(h.dialect, doc.backupId)
    ensures Found(h, events, doc) == SomeRowIsSame(h, events, doc)
  {
    if SomeRowIsSame(h, events, doc) {
      var i :| 0 <= i < |events| && Comparable(h, doc.scope, events[i])
               && SameBackup(events[i].backupId.value, doc.backupId);
      assert Like(h.dialect, "%" + LastComponent(doc.backupId), events[i].backupId.value);
    }
  }

  lemma FoundStays(h: Host, events: seq<Event>, more: seq<Event>, doc: Evidence)
    requires events <= more && Found(h, events, doc)
    ensures Found(h, more, doc)
  {
    var i :| && 0 <= i < |events| && Comparable(h, doc.scope, events[i])
             && Like(h.dialect, "%" + LastComponent(doc.backupId), events[i].backupId.value)
             && SameBackup(events[i].backupId.value, doc.backupId);
    assert more[i] == events[i];
  }

  /** The filter finds the row that a document itself writes. */
  ghost predicate FindsOwnRow(h: Host, doc: Evidence) {
    Like(h.dialect, "%" + LastComponent(doc.backupId), doc.backupId)
  }

  ghost predicate AllFindOwnRow(h: Host, now: int, files: seq<File>) {
    forall f :: f in files && DocumentOf(h, now, f).Some? ==> FindsOwnRow(h, DocumentOf(h, now, f).value)
  }

  lemma OwnRowIsFound(h: Host, now: int, p: Pass, f: File)
    requires !p.stopped && !Next(h, now, p, f).stopped && DocumentOf(h, now, f).Some?
    requires FindsOwnRow(h, DocumentOf(h, now, f).value)
    ensures Found(h, Next(h, now, p, f).events, DocumentOf(h, now, f).value)
  {
    var doc := DocumentOf(h, now, f).value;
    AcceptedIsValid(h, now, ReadBounded(f.content.value));
    if !Found(h, p.events, doc) {
      var more := p.events + [EventOf(h, doc, f.name)];
      assert more[|p.events|] == EventOf(h, doc, f.name);
      assert Comparable(h, doc.scope, more[|p.events|]);
    }
  }

  /** After a pass every accepted document among the processed files is found in the table. */
  lemma {:induction false} PassCovers(h: Host, now: int, events: seq<Event>, files: seq<File>, i: nat)
    requires AllFindOwnRow(h, now, files) && i < Processed(PassOver(h, now, events, files)) <= |files|
    requires DocumentOf(h, now, files[i]).Some?
    ensures Found(h, PassOver(h, now, events, files).events, DocumentOf(h, now, files[i]).value)
  {
    hide DocumentOf, Found, EventOf, FindsOwnRow;
    var before, last := files[..|files| - 1], files[|files| - 1];
    assert files == before + [last];
    CountsAddUp(h, now, events, before);
    var middle := PassOver(h, now, events, before);
    if i < Processed(middle) {
      assert forall g :: g in before ==> g in files;
      PassCovers(h, now, events, before, i);
      assert middle.events <= Next(h, now, middle, last).events;
      FoundStays(h, middle.events, Next(h, now, middle, last).events, DocumentOf(h, now, files[i]).value);
    } else {
      assert files[i] == last && last in files;
      OwnRowIsFound(h, now, middle, last);
    }
  }

  /** What a second pass needs: the first `n` files have nothing to record, and the next one, if any, raises. */
  ghost predicate Settled(h: Host, now: int, table: seq<Event>, files: seq<File>, n: nat) {
    && n <= |files|
    && (forall i :: 0 <= i < n ==>
          FateOf(h, now, table, files[i]) == AlreadyRecorded || FateOf(h, now, table, files[i]) == Refused)
    && (n < |files| ==> FateOf(h, now, table, files[n]) == Raising)
  }

  lemma PassSettles(h: Host, now: int, events: seq<Event>, files: seq<File>)
    requires AllFindOwnRow(h, now, files)
    ensures var p := PassOver(h, now, events, files); Settled(h, now, p.events, files, Processed(p))
  {
    var p := PassOver(h, now, events, files);
    CountsAddUp(h, now, events, files);
    PassStopsExactly(h, now, events, files);
    forall i | 0 <= i < Processed(p)
      ensures FateOf(h, now, p.events, files[i]) == AlreadyRecorded || FateOf(h, now, p.events, files[i]) == Refused
    {
      if DocumentOf(h, now, files[i]).Some? {
        PassCovers(h, now, events, files, i);
        var doc := DocumentOf(h, now, files[i]).value;
        ProcessedDoesNotRaise(h, now, events, files, i);
        MatchesEndComplete(h.dialect, "%" + LastComponent(doc.backupId), doc.backupId);
        NoEscapeNoRaise(h, p.events, doc);
      }
      ProcessedDoesNotRaise(h, now, events, files, i);
    }
    if p.stopped {
      var k: nat :| StopsAt(h, now, events, files, k);
      assert Processed(p) == k;
    }
  }

  lemma {:induction false} ProcessedDoesNotRaise(h: Host, now: int, events: seq<Event>, files: seq<File>, i: nat)
    requires i < Processed(PassOver(h, now, events, files)) <= |files|
    ensures !ParseRaises(h, now, files[i])
    ensures DocumentOf(h, now, files[i]).Some? ==> Askable(h, DocumentOf(h, now, files[i]).value)
  {
    hide FateOf, EventOf, Askable, ParseRaises, DocumentOf, Next;
    var before, last := files[..|files| - 1], files[|files| - 1];
    CountsAddUp(h, now, events, before);
    CountsAddUp(h, now, events, files);
    if i < Processed(PassOver(h, now, events, before)) {
      ProcessedDoesNotRaise(h, now, events, before, i);
    } else {
      ProcessingDoesNotRaise(h, now, PassOver(h, now, events, before), last);
      assert files[i] == last;
    }
  }

  lemma ProcessingDoesNotRaise(h: Host, now: int, p: Pass, f: File)
    requires Processed(Next(h, now, p, f)) > Processed(p)
    ensures !p.stopped && !ParseRaises(h, now, f)
    ensures DocumentOf(h, now, f).Some? ==> Askable(h, DocumentOf(h, now, f).value)
  {}

  lemma {:induction false} SettledPass(h: Host, now: int, table: seq<Event>, files: seq<File>, n: nat, m: nat)
    requires Settled(h, now, table, files, n) && m <= |files|
    ensures var p := PassOver(h, now, table, files[..m]);
            && p.events == table && p.counts.recorded == 0 && Processed(p) == (if m <= n then m else n)
            && p.stopped == (m > n)
  {
    hide FateOf, EventOf, DocumentOf;
    if m > 0 {
      SettledPass(h, now, table, files, n, m - 1);
      assert files[..m][..m - 1] == files[..m - 1];
    }
  }

  /** A second pass over the same files at the same time records nothing and gets exactly as far as the first. */
  lemma SecondPassRecordsNothing(h: Host, now: int, events: seq<Event>, files: seq<File>)
    requires AllFindOwnRow(h, now, files)
    ensures var once := PassOver(h, now, events, files);
            var twice := PassOver(h, now, once.events, files);
            && twice.events == once.events && twice.counts.recorded == 0
            && Processed(twice) == Processed(once) && twice.stopped == once.stopped
  {
    var once := PassOver(h, now, events, files);
    PassSettles(h, now, events, files);
    CountsAddUp(h, now, events, files);
    SettledPass(h, now, once.events, files, Processed(once), |files|);
    assert files[..|files|] == files;
  }

  /** Two passes over `files` leave the table that one leaves. */
  ghost predicate AddsNothingTwice(h: Host, now: int, events: seq<Event>, files: seq<File>) {
    var once := PassOver(h, now, events, files).events;
    PassOver(h, now, once, files).events == once
  }

  ghost predicate RaisesUpTo(h: Host, now: int, events: seq<Event>, files: seq<File>, k: nat)
    requires k < |files|
  {
    exists m: nat :: m <= k && FateOf(h, now, events, files[m]) == Raising
  }

  /** Whether a second pass adds a row can be read off the table the first one leaves: it adds none exactly when every
      document the first pass recorded is found there, or stands behind a file that raises on it. */
  lemma SecondPassOnTableExactly(h: Host, now: int, events: seq<Event>, files: seq<File>)
    ensures AddsNothingTwice(h, now, events, files)
            <==> forall k: nat :: RecordsAt(h, now, events, files, k) ==>
                   || Found(h, PassOver(h, now, events, files).events, DocumentOf(h, now, files[k]).value)
                   || RaisesUpTo(h, now, PassOver(h, now, events, files).events, files, k)
  {
    var once := PassOver(h, now, events, files).events;
    AddsNothingExactly(h, now, once, files);
    forall k: nat | k < |files| && !RaisesUpTo(h, now, once, files, k)
      ensures FateOf(h, now, once, files[k]) == Recorded
              <==> RecordsAt(h, now, events, files, k) && !Found(h, once, DocumentOf(h, now, files[k]).value)
    {
      RecordedAgain(h, now, events, files, k);
    }
  }

  lemma {:induction false} AddsNothingExactly(h: Host, now: int, table: seq<Event>, files: seq<File>)
    ensures PassOver(h, now, table, files).events == table
            <==> forall k: nat :: k < |files| && FateOf(h, now, table, files[k]) == Recorded ==>
                   RaisesUpTo(h, now, table, files, k)
    ensures PassOver(h, now, table, files).events == table ==>
              (PassOver(h, now, table, files).stopped
               <==> exists m: nat :: m < |files| && FateOf(h, now, table, files[m]) == Raising)
  {
    hide FateOf, EventOf, DocumentOf;
    if files != [] {
      var before, last := files[..|files| - 1], files[|files| - 1];
      AddsNothingExactly(h, now, table, before);
      CountsAddUp(h, now, table, before);
      CountsAddUp(h, now, table, files);
      var n := |before|;
      assert forall k: nat :: k < n ==> before[k] == files[k];
      assert forall k: nat :: k < n ==> RaisesUpTo(h, now, table, before, k) == RaisesUpTo(h, now, table, files, k);
      assert files[n] == last;
    }
  }

  /** On the table a pass leaves, a file in front of every raising one would be recorded again exactly if it was
      recorded and is not found. */
  lemma RecordedAgain(h: Host, now: int, events: seq<Event>, files: seq<File>, k: nat)
    requires k < |files| && !RaisesUpTo(h, now, PassOver(h, now, events, files).events, files, k)
    ensures FateOf(h, now, PassOver(h, now, events, files).events, files[k]) == Recorded
            <==> && RecordsAt(h, now, events, files, k)
                 && !Found(h, PassOver(h, now, events, files).events, DocumentOf(h, now, files[k]).value)
  {
    var once := PassOver(h, now, events, files).events;
    assert FateOf(h, now, once, files[k]) != Raising;
    FirstPassReaches(h, now, events, files, k);
    var at := PassOver(h, now, events, files[..k]).events;
    assert !StopsAt(h, now, events, files, k);
    if FateOf(h, now, at, files[k]) == AlreadyRecorded {
      PassGrows(h, now, events, files, k);
      FoundStays(h, at, once, DocumentOf(h, now, files[k]).value);
    }
  }

  lemma FirstPassReaches(h: Host, now: int, events: seq<Event>, files: seq<File>, k: nat)
    requires k < |files| && !RaisesUpTo(h, now, PassOver(h, now, events, files).events, files, k)
    ensures !PassOver(h, now, events, files[..k]).stopped && !StopsAt(h, now, events, files, k)
  {
    PassStopsExactly(h, now, events, files);
    if m: nat :| m <= k && StopsAt(h, now, events, files, m) {
      assert false;
    }
    PassStopsExactly(h, now, events, files[..k]);
    if m: nat :| StopsAt(h, now, events, files[..k], m) {
      assert files[..k][..m] == files[..m] && files[..k][m] == files[m];
      assert StopsAt(h, now, events, files, m);
    }
  }

  lemma {:induction false} PassGrows(h: Host, now: int, events: seq<Event>, files: seq<File>, k: nat)
    requires k <= |files|
    ensures PassOver(h, now, events, files[..k]).events <= PassOver(h, now, events, files).events
  {
    hide FateOf, EventOf, DocumentOf;
    if k < |files| {
      PassGrows(h, now, events, files[..|files| - 1], k);
      assert files[..|files| - 1][..k] == files[..k];
    } else {
      assert files[..k] == files;
    }
  }

  /** The row a document itself writes is found by the filter, or makes the query raise, or is never written. */
  ghost predicate Settles(h: Host, now: int, f: File) {
    DocumentOf(h, now, f).Some? && Fits(h, DocumentOf(h, now, f).value) ==>
      var doc := DocumentOf(h, now, f).value;
      FindsOwnRow(h, doc) || RaisesOnItself(h, doc)
  }

  /** No list made of these files, on no table, gets anything from a second pass exactly when each of them settles. */
  lemma SecondPassExactly(h: Host, now: int, files: seq<File>)
    requires StoresAscii(h)
    ensures (forall events, some :: From(some, files) ==> AddsNothingTwice(h, now, events, some))
            <==> forall f :: f in files ==> Settles(h, now, f)
  {
    if forall f :: f in files ==> Settles(h, now, f) {
      forall events, some | From(some, files) ensures AddsNothingTwice(h, now, events, some) {
        SettlingFilesAddNothing(h, now, events, some);
      }
    } else {
      var f :| f in files && !Settles(h, now, f);
      assert From([f], files);
      RecordedTwice(h, now, f);
    }
  }

  lemma SettlingFilesAddNothing(h: Host, now: int, events: seq<Event>, files: seq<File>)
    requires forall f :: f in files ==> Settles(h, now, f)
    ensures AddsNothingTwice(h, now, events, files)
  {
    var once := PassOver(h, now, events, files).events;
    forall k: nat | RecordsAt(h, now, events, files, k)
      ensures Found(h, once, DocumentOf(h, now, files[k]).value) || RaisesUpTo(h, now, once, files, k)
    {
      var doc := DocumentOf(h, now, files[k]).value;
      var at := RowOf(h, now, events, files, k);
      assert files[k] in files && Comparable(h, doc.scope, once[at]);
      if FindsOwnRow(h, doc) {
        AcceptedIsValid(h, now, ReadBounded(files[k].content.value));
        assert Found(h, once, doc);
      } else {
        assert RaisesOn(h, doc, once[at]);
        assert FateOf(h, now, once, files[k]) == Raising;
      }
    }
    SecondPassOnTableExactly(h, now, events, files);
  }

  lemma RecordedTwice(h: Host, now: int, f: File)
    requires StoresAscii(h) && !Settles(h, now, f)
    ensures !AddsNothingTwice(h, now, [], [f])
  {
    var doc := DocumentOf(h, now, f).value;
    var row := EventOf(h, doc, f.name);
    var none: seq<Event> := [];
    FitsIsAskable(h, doc);
    SingleFile(h, now, none, f);
    assert !Found(h, none, doc) && PassOver(h, now, none, [f]).events == [row];
    SingleFile(h, now, [row], f);
    assert !Found(h, [row], doc) && !RaisesOn(h, doc, row);
    assert PassOver(h, now, [row], [f]).events == [row, row];
  }

  lemma SingleFile(h: Host, now: int, events: seq<Event>, f: File)
    ensures PassOver(h, now, events, [f]) == Next(h, now, Pass(events, Counts(0, 0, 0), false), f)
  {
    assert [f][..0] == [];
    assert PassOver(h, now, events, []) == Pass(events, Counts(0, 0, 0), false);
  }

  /** Row `j` names a backup that row `i`, if of the same environment and scope, does not name. */
  ghost predicate NamesAnother(h: Host, rows: seq<Event>, i: nat, j: nat)
    requires i < |rows| && j < |rows|
  {
    && rows[j].scope.Some? && rows[j].backupId.Some?
    && (Comparable(h, rows[j].scope.value, rows[i]) ==>
          !SameBackup(rows[i].backupId.value, rows[j].backupId.value))
  }

  ghost predicate AllLossless(h: Host, now: int, files: seq<File>) {
    forall f :: f in files && DocumentOf(h, now, f).Some? ==>
      Lossless(h.dialect, DocumentOf(h, now, f).value.backupId)
  }

  /** No pass adds a row for a backup that an earlier row of its environment and scope already names. */
  lemma {:induction false} NoBackupTwice(h: Host, now: int, events: seq<Event>, files: seq<File>, i: nat, j: nat)
    requires i < j < |PassOver(h, now, events, files).events| && |events| <= j && AllLossless(h, now, files)
    ensures NamesAnother(h, PassOver(h, now, events, files).events, i, j)
  {
    hide Next, NamesAnother, DocumentOf, Lossless;
    var before, last := files[..|files| - 1], files[|files| - 1];
    assert files == before + [last] && last in files;
    var p := PassOver(h, now, events, before);
    NextGrows(h, now, p, last);
    if j < |p.events| {
      assert AllLossless(h, now, before) by {
        assert forall g :: g in before ==> g in files;
      }
      NoBackupTwice(h, now, events, before, i, j);
      RowsStayApart(h, p.events, Next(h, now, p, last).events, i, j);
    } else {
      NewRowIsNew(h, now, p, last, i);
    }
  }

  lemma RowsStayApart(h: Host, rows: seq<Event>, more: seq<Event>, i: nat, j: nat)
    requires rows <= more && i < |rows| && j < |rows| && NamesAnother(h, rows, i, j)
    ensures NamesAnother(h, more, i, j)
  {
    assert more[i] == rows[i] && more[j] == rows[j];
  }

  lemma NextGrows(h: Host, now: int, p: Pass, f: File)
    ensures p.events <= Next(h, now, p, f).events && |Next(h, now, p, f).events| <= |p.events| + 1
    ensures |Next(h, now, p, f).events| > |p.events| ==> DocumentOf(h, now, f).Some?
  {}

  lemma NewRowIsNew(h: Host, now: int, p: Pass, f: File, i: nat)
    requires i < |p.events| < |Next(h, now, p, f).events|
    requires DocumentOf(h, now, f).Some? && Lossless(h.dialect, DocumentOf(h, now, f).value.backupId)
    ensures NamesAnother(h, Next(h, now, p, f).events, i, |p.events|)
  {
    FilterAgrees(h, p.events, DocumentOf(h, now, f).value);
  }

  // ── The newest completed backup ─────────────────────────────────────────

  predicate CompletedIn(h: Host, scope: string, e: Event) {
    && e.eventType == "backup" && e.status == "completed" && e.environment == h.environment
    && InScope(h, scope, e) && e.completedAt.Some?
  }

  /** Ordered by completion time, then by id, which grows with the position in the append-only table. */
  predicate NotNewer(events: seq<Event>, i: nat, j: nat)
    requires i < |events| && j < |events| && events[i].completedAt.Some? && events[j].completedAt.Some?
  {
    var a, b := events[i].completedAt.value, events[j].completedAt.value;
    a < b || (a == b && i <= j)
  }

  ghost predicate IsLatest(h: Host, scope: string, events: seq<Event>, i: nat) {
    && i < |events| && CompletedIn(h, scope, events[i])
    && forall j: nat :: j < |events| && CompletedIn(h, scope, events[j]) ==> NotNewer(events, j, i)
  }

  method LatestCompletedBackup(h: Host, events: seq<Event>, scope: string) returns (latest: Option<nat>)
    ensures latest.Some? ==> IsLatest(h, scope, events, latest.value)
    ensures latest.None? <==> forall i: nat :: i < |events| ==> !CompletedIn(h, scope, events[i])
  {
    latest := None;
    for k := 0 to |events|
      invariant latest.Some? ==> latest.value < k && CompletedIn(h, scope, events[latest.value])
      invariant latest.Some? ==>
        forall j: nat :: j < k && CompletedIn(h, scope, events[j]) ==> NotNewer(events, j, latest.value)
      invariant latest.None? <==> forall i: nat :: i < k ==> !CompletedIn(h, scope, events[i])
    {
      if CompletedIn(h, scope, events[k]) && (latest.None? || NotNewer(events, latest.value, k)) {
        latest := Some(k);
      }
    }
  }

  /** Only a dump that passed its gzip test can refresh the database: failed dumps and volume archives leave its
      newest completed backup what it was. */
  lemma {:induction false} OnlyGoodDumpsCount(h: Host, now: int, events: seq<Event>, files: seq<File>, i: nat)
    requires forall f :: f in files && DocumentOf(h, now, f).Some? ==>
               DocumentOf(h, now, f).value.scope != "database" || DocumentOf(h, now, f).value.gzipOk == Some(false)
    ensures IsLatest(h, "database", events, i) <==> IsLatest(h, "database", PassOver(h, now, events, files).events, i)
  {
    if files != [] {
      var before, last := files[..|files| - 1], files[|files| - 1];
      assert files == before + [last];
      assert forall g :: g in before ==> g in files;
      OnlyGoodDumpsCount(h, now, events, before, i);
      assert last in files;
      var p := PassOver(h, now, events, before);
      var middle := p.events;
      if !p.stopped && FateOf(h, now, middle, last) == Recorded {
        var row := EventOf(h, DocumentOf(h, now, last).value, last.name);
        assert !CompletedIn(h, "database", row);
        UncountedRow(h, middle, row, i);
      }
    }
  }

  lemma UncountedRow(h: Host, events: seq<Event>, row: Event, i: nat)
    requires !CompletedIn(h, "database", row)
    ensures IsLatest(h, "database", events, i) <==> IsLatest(h, "database", events + [row], i)
  {
    var more := events + [row];
    assert forall j: nat :: j < |events| ==> more[j] == events[j];
    if i < |events| && CompletedIn(h, "database", events[i]) {
      forall j: nat | j < |events| && CompletedIn(h, "database", events[j])
        ensures NotNewer(events, j, i) == NotNewer(more, j, i)
      {}
    }
  }

  /** What recording a document leaves in the table, from its JSON to the row. */
  lemma RecordedRowExactly(h: Host, now: int, p: Pass, f: File, fields: map<string, Json>)
    requires !p.stopped && FateOf(h, now, p.events, f) == Recorded && Decodes(h, ReadBounded(f.content.value), fields)
    ensures fields.Keys == KEYS && fields["backup_id"].Str? && fields["provider"].Str? && fields["recorder"].Str?
    ensures fields["size_bytes"].Int? && fields["sha256"].Str? && fields["scope"].Str?
    ensures Timestamp(h, fields["completed_at"]).Got? && Timestamp(h, fields["observed_at"]).Got?
    ensures var after, at := Next(h, now, p, f).events, Timestamp(h, fields["completed_at"]).value;
            && |after| == |p.events| + 1 && after[..|p.events|] == p.events
            && var row := after[|p.events|];
            && row.eventType == "backup" && row.status == (if fields["gzip_ok"] == Bool(false) then "failed" else "completed")
            && row.scope == Some(fields["scope"].s) && row.environment == h.environment
            && row.provider == Strip(h.isSpace, fields["provider"].s)
            && row.backupId == Some(Strip(h.isSpace, fields["backup_id"].s))
            && row.startedAt == at && row.completedAt == Some(at) && row.sizeBytes == Some(fields["size_bytes"].n)
            && row.integrityRef == Some("sha256:" + fields["sha256"].s) && row.operator == "system:backup-recorder"
            && row.evidence == Some(Obj(map[
                 "method" := Str("sha256-stream+gzip-t"), "source" := Str("host-signal"),
                 "recorder" := Str(Strip(h.isSpace, fields["recorder"].s)),
                 "observed_at" := Str(h.isoformat(Timestamp(h, fields["observed_at"]).value)),
                 "gzip_ok" := fields["gzip_ok"], "document" := Str(f.name)]))
  {
    assert Parse(h, now, ReadBounded(f.content.value)).Accepted?;
    assert forall k :: k in KEYS <==> k in fields;
    assert fields.Keys == KEYS;
    var doc := DocumentOf(h, now, f).value;
    assert ParseFields(h, now, fields) == Accepted(doc);
    hide Found, LookupRaises, Fits, SafePath, IsSha256, Strip;
    assert fields["gzip_ok"] == if doc.gzipOk.Some? then Bool(doc.gzipOk.value) else Null;
  }

  /** File `k` is reached and recorded. */
  ghost predicate RecordsAt(h: Host, now: int, events: seq<Event>, files: seq<File>, k: nat) {
    && k < |files| && !PassOver(h, now, events, files[..k]).stopped
    && FateOf(h, now, PassOver(h, now, events, files[..k]).events, files[k]) == Recorded
  }

  /** A recorded document whose dump passed, or which is a volume, is counted: nothing older is reported after it. */
  lemma RecordedCounts(h: Host, now: int, events: seq<Event>, files: seq<File>, k: nat, latest: nat)
    requires RecordsAt(h, now, events, files, k) && DocumentOf(h, now, files[k]).value.gzipOk != Some(false)
    requires IsLatest(h, DocumentOf(h, now, files[k]).value.scope, PassOver(h, now, events, files).events, latest)
    ensures PassOver(h, now, events, files).events[latest].completedAt.value
            >= DocumentOf(h, now, files[k]).value.completedAt
  {
    var doc, table := DocumentOf(h, now, files[k]).value, PassOver(h, now, events, files).events;
    var at := RowOf(h, now, events, files, k);
    assert CompletedIn(h, doc.scope, table[at]);
  }

  lemma {:induction false} RowOf(h: Host, now: int, events: seq<Event>, files: seq<File>, k: nat) returns (at: nat)
    requires RecordsAt(h, now, events, files, k)
    ensures at < |PassOver(h, now, events, files).events|
    ensures PassOver(h, now, events, files).events[at] == EventOf(h, DocumentOf(h, now, files[k]).value, files[k].name)
  {
    hide DocumentOf, EventOf, Found;
    var before := files[..|files| - 1];
    if k == |before| {
      assert files[..k] == before;
      at := |PassOver(h, now, events, before).events|;
    } else {
      assert before[..k] == files[..k] && before[k] == files[k];
      at := RowOf(h, now, events, before, k);
    }
  }
}
