/** `normalize` of the dark-web worker: what of a raw report crosses the boundary. */
module Normalizer {
  import opened Outcomes
  import opened Strings

  datatype Json = Null | Bool(b: bool) | Number(n: real) | Str(s: string) | List(items: seq<Json>)
                | Object(fields: map<string, Json>)

  /** What `float` makes of a value: neither a number nor the text of one, too large an integer, or a
      number, where NaN counts as 0. */
  datatype Float = NoNumber | TooLarge | Float(value: real)

  /** Python's string methods and its URL parser.  `octets` is None where encoding raises; `hostname`
      is "" where there is none. */
  datatype Env = Env(squeeze: string -> string, strip: string -> string, upper: string -> string,
                     lower: string -> string, casefold: string -> string, rstripDots: string -> string,
                     octets: string -> Option<nat>, isDigit: char -> bool, float: Json -> Float, str: Json -> string,
                     hostname: string -> Outcome<string>)

  const MAX_FINDINGS := 250
  const MAX_RELATIONSHIPS := 500

  // --- Text ---

  function Get(fields: map<string, Json>, name: string): Json {
    if name in fields then fields[name] else Null
  }

  predicate Contains(s: string, part: string) {
    exists i :: 0 <= i <= |s| - |part| && StandsAt(s, part, i)
  }

  predicate StandsAt(s: string, part: string, i: nat)
    requires i + |part| <= |s|
  {
    s[i..i + |part|] == part
  }

  predicate EndsWith(s: string, part: string) {
    |part| <= |s| && s[|s| - |part|..] == part
  }

  function Replace(s: string, a: char, b: char): string {
    seq(|s|, i requires 0 <= i < |s| => if s[i] == a then b else s[i])
  }

  /** `split(c, 1)[0]` */
  function Before(s: string, c: char): string {
    if |s| == 0 || s[0] == c then [] else [s[0]] + Before(s[1..], c)
  }

  predicate IsControl(c: char) { c as int < 32 || c as int == 127 }

  predicate IsAlphanumeric(c: char) { 'A' <= c <= 'Z' || 'a' <= c <= 'z' || '0' <= c <= '9' }

  /** `_bounded_text`; it raises for a string that cannot be encoded. */
  function BoundedText(env: Env, value: Json, maximum: nat): Outcome<Option<string>> {
    if !value.Str? then Ok(None)
    else
      var clean := env.squeeze(value.s);
      if clean == "" then Ok(None)
      else
        match env.octets(clean)
        case None => Throws
        case Some(n) =>
          Ok(if n > maximum || (exists i :: 0 <= i < |clean| && IsControl(clean[i])) then None else Some(clean))
  }

  predicate IsDate(env: Env, s: string) {
    && |s| in {4, 7, 10}
    && forall i :: 0 <= i < |s| ==> if i == 4 || i == 7 then s[i] == '-' else env.isDigit(s[i])
  }

  /** `_valid_date` */
  function ValidDate(env: Env, value: Json): Outcome<Option<string>> {
    match BoundedText(env, value, 10)
    case Throws => Throws
    case Ok(None) => Ok(None)
    case Ok(Some(clean)) => Ok(if IsDate(env, clean) then Some(clean) else None)
  }

  /** `_confidence`, which does not catch the exception for an integer that is too large. */
  function Confidence(env: Env, value: Json): (r: Outcome<real>)
    ensures r.Ok? ==> 0.0 <= r.value <= 1.0
  {
    match env.float(value)
    case NoNumber => Ok(0.0)
    case TooLarge => Throws
    case Float(x) => Ok(if x < 0.0 then 0.0 else if x > 1.0 then 1.0 else x)
  }

  predicate IsSourceName(s: string) {
    && 1 <= |s| <= 80 && IsAlphanumeric(s[0])
    && forall i :: 1 <= i < |s| ==> IsAlphanumeric(s[i]) || s[i] in {'.', '_', '+', ' ', '-'}
  }

  predicate IsRelationshipType(s: string) {
    && 1 <= |s| <= 64 && IsAlphanumeric(s[0])
    && forall i :: 1 <= i < |s| ==> IsAlphanumeric(s[i]) || s[i] in {'.', '_', ' ', '-'}
  }

  /** The name before the first comma, or the host of it when it is a URL. */
  function NamedSource(env: Env, source: string): Outcome<string> {
    var candidate := env.strip(Before(source, ','));
    if Contains(candidate, "://") then env.hostname(candidate) else Ok(candidate)
  }

  function LinkedSource(env: Env, fields: map<string, Json>): Outcome<string> {
    match BoundedText(env, Get(fields, "source_url"), 2048)
    case Throws => Throws
    case Ok(None) => Ok("voidaccess")
    case Ok(Some(url)) =>
      match env.hostname(url)
      case Throws => Throws
      case Ok(host) => Ok(if host != "" then Slice(host, 80) else "voidaccess")
  }

  /** `_source_name` */
  function SourceName(env: Env, fields: map<string, Json>): Outcome<string> {
    match BoundedText(env, Get(fields, "corroborating_sources"), 80)
    case Throws => Throws
    case Ok(None) => LinkedSource(env, fields)
    case Ok(Some(source)) =>
      match NamedSource(env, source)
      case Throws => Throws
      case Ok(candidate) => if IsSourceName(candidate) then Ok(candidate) else LinkedSource(env, fields)
  }

  // --- Types ---

  const SENSITIVE := ["TOKEN", "SECRET", "PASSWORD", "PRIVATE_KEY", "_KEY", "API_KEY", "ACCESS_KEY", "SEED_PHRASE",
                      "STEALER_LOG", "COMBO_LIST", "SESSION_ID", "CREDENTIAL"]

  const WALLETS := {"CRYPTO_WALLET", "BITCOIN_ADDRESS", "BTC_ADDRESS", "ETHEREUM_ADDRESS", "ETH_ADDRESS",
                    "MONERO_ADDRESS", "XMR_ADDRESS", "LITECOIN_ADDRESS", "ZCASH_ADDRESS", "DOGECOIN_ADDRESS",
                    "XRP_ADDRESS", "SOLANA_ADDRESS", "TRON_ADDRESS", "BITCOIN_CASH_ADDRESS", "DASH_ADDRESS"}

  predicate IsNormalizedType(t: string) {
    t in {"email", "domain", "onion_service", "ip", "phone", "username", "messaging_handle", "crypto_wallet",
          "file_hash", "vulnerability", "malware", "threat_actor", "organization", "date", "technique",
          "credential_exposure", "network_indicator"}
  }

  /** `TYPE_MAP`, "" for a type that is not in it. */
  function MappedType(t: string): string {
    match t
    case "EMAIL" => "email"
    case "EMAIL_ADDRESS" => "email"
    case "DOMAIN" => "domain"
    case "ENS_DOMAIN" => "domain"
    case "IP_ADDRESS" => "ip"
    case "IPV6_ADDRESS" => "ip"
    case "PHONE" => "phone"
    case "PHONE_NUMBER" => "phone"
    case "THREAT_ACTOR_HANDLE" => "threat_actor"
    case "RANSOMWARE_GROUP" => "threat_actor"
    case "MALWARE" => "malware"
    case "MALWARE_FAMILY" => "malware"
    case "ORGANIZATION_NAME" => "organization"
    case "DATE" => "date"
    case "CVE" => "vulnerability"
    case "CVE_NUMBER" => "vulnerability"
    case "EXPLOIT_DB_ID" => "vulnerability"
    case "MITRE_TACTIC" => "technique"
    case "MITRE_TECHNIQUE" => "technique"
    case "YARA_RULE" => "technique"
    case "NUCLEI_TEMPLATE" => "technique"
    case "MAC_ADDRESS" => "network_indicator"
    case "IPFS_CID" => "file_hash"
    case "FILE_HASH_MD5" => "file_hash"
    case "FILE_HASH_SHA1" => "file_hash"
    case "FILE_HASH_SHA256" => "file_hash"
    case "TELEGRAM_HANDLE" => "messaging_handle"
    case "DISCORD_HANDLE" => "messaging_handle"
    case "XMPP_JID" => "messaging_handle"
    case "TOX_ID" => "messaging_handle"
    case "MATRIX_HANDLE" => "messaging_handle"
    case "WIRE_HANDLE" => "messaging_handle"
    case "ICQ_NUMBER" => "messaging_handle"
    case "WICKR_ID" => "messaging_handle"
    case _ => ""
  }

  predicate IsSensitive(upperType: string) {
    exists i :: 0 <= i < |SENSITIVE| && Contains(upperType, SENSITIVE[i])
  }

  function SecretLabel(env: Env, upperType: string): string {
    Slice(Replace(env.lower(upperType), '_', ' '), 48) + " detected"
  }

  /** The host of an address of a URL type, as an onion service or a domain. */
  function HostEntity(env: Env, value: string): Outcome<Option<(string, string)>> {
    match env.hostname(if Contains(value, "://") then value else "http://" + value)
    case Throws => Throws
    case Ok(name) =>
      var host := env.rstripDots(env.lower(name));
      if host == "" then Ok(None)
      else
        match env.octets(host)
        case None => Throws
        case Some(n) =>
          Ok(if n > 253 then None else Some((if EndsWith(host, ".onion") then "onion_service" else "domain", host)))
  }

  /** `_normalized_entity` */
  function NormalizedEntity(env: Env, entityType: string, value: string): Outcome<Option<(string, string)>> {
    var upperType := env.upper(env.strip(entityType));
    if IsSensitive(upperType) then Ok(Some(("credential_exposure", SecretLabel(env, upperType))))
    else if upperType in {"ONION_URL", "PASTE_URL", "URL"} then HostEntity(env, value)
    else if upperType in WALLETS then Ok(Some(("crypto_wallet", value)))
    else if IsNormalizedType(MappedType(upperType)) then Ok(Some((MappedType(upperType), value)))
    else Ok(None)
  }

  // --- Findings ---

  datatype Finding = Finding(kind: string, value: string, source: string, confidence: real, firstSeen: Option<string>,
                             lastSeen: Option<string>)

  datatype Relationship = Relationship(source: string, target: string, kind: string, confidence: real)

  /** What the first half of the loop body finds out about an entity: its type, value and source. */
  datatype Candidate = Candidate(kind: string, value: string, source: string)

  function CandidateOf(env: Env, fields: map<string, Json>): Outcome<Option<Candidate>> {
    match BoundedText(env, Get(fields, "entity_type"), 64)
    case Throws => Throws
    case Ok(entityType) =>
      match BoundedText(env, Get(fields, "value"), 512)
      case Throws => Throws
      case Ok(value) =>
        match SourceName(env, fields)
        case Throws => Throws
        case Ok(source) =>
          if entityType == None || value == None || source == "" then Ok(None)
          else
            match NormalizedEntity(env, entityType.value, value.value)
            case Throws => Throws
            case Ok(None) => Ok(None)
            case Ok(Some((kind, normal))) => Ok(Some(Candidate(kind, normal, source)))
  }

  type Key = (string, string, string)

  function KeyOf(env: Env, kind: string, value: string, source: string): Key {
    (kind, env.casefold(value), env.casefold(source))
  }

  /** What the loop keeps. */
  datatype State = State(findings: seq<Finding>, idToValue: map<string, string>, seen: set<Key>)

  function FindingOf(env: Env, fields: map<string, Json>, c: Candidate): Outcome<Finding> {
    match Confidence(env, Get(fields, "confidence"))
    case Throws => Throws
    case Ok(confidence) =>
      match ValidDate(env, Get(fields, "first_seen"))
      case Throws => Throws
      case Ok(first) =>
        match ValidDate(env, Get(fields, "last_seen"))
        case Throws => Throws
        case Ok(last) => Ok(Finding(c.kind, c.value, c.source, confidence, first, last))
  }

  /** The second half of the loop body. */
  function Record(env: Env, fields: map<string, Json>, c: Candidate, st: State): Outcome<State> {
    var key := KeyOf(env, c.kind, c.value, c.source);
    if key in st.seen then Ok(st)
    else
      match FindingOf(env, fields, c)
      case Throws => Throws
      case Ok(finding) =>
        match BoundedText(env, Get(fields, "id"), 80)
        case Throws => Throws
        case Ok(id) =>
          Ok(State(st.findings + [finding], if id == None then st.idToValue else st.idToValue[id.value := c.value],
                   st.seen + {key}))
  }

  /** One round of the loop. */
  function Step(env: Env, entity: Json, st: State): Outcome<State> {
    if !entity.Object? then Ok(st)
    else
      match CandidateOf(env, entity.fields)
      case Throws => Throws
      case Ok(None) => Ok(st)
      case Ok(Some(c)) => Record(env, entity.fields, c, st)
  }

  /** The rounds over the remaining entities, up to 250 findings. */
  function Scan(env: Env, entities: seq<Json>, st: State): Outcome<State> {
    if |entities| == 0 || |st.findings| >= MAX_FINDINGS then Ok(st)
    else
      match Step(env, entities[0], st)
      case Throws => Throws
      case Ok(next) => Scan(env, entities[1..], next)
  }

  function RelationshipOf(env: Env, ids: map<string, string>, row: Json): Outcome<Option<Relationship>> {
    if !row.Object? then Ok(None)
    else
      var a, b := env.str(GetOr(row.fields, "entity_a_id")), env.str(GetOr(row.fields, "entity_b_id"));
      match BoundedText(env, Get(row.fields, "relationship_type"), 64)
      case Throws => Throws
      case Ok(kind) =>
        if a !in ids || b !in ids || ids[a] == "" || ids[b] == "" || kind == None || !IsRelationshipType(kind.value)
        then Ok(None)
        else
          match Confidence(env, Get(row.fields, "confidence"))
          case Throws => Throws
          case Ok(confidence) => Ok(Some(Relationship(ids[a], ids[b], kind.value, confidence)))
  }

  /** `get(name, "")` */
  function GetOr(fields: map<string, Json>, name: string): Json {
    if name in fields then fields[name] else Str("")
  }

  function ScanRows(env: Env, ids: map<string, string>, rows: seq<Json>,
                    found: seq<Relationship>): Outcome<seq<Relationship>> {
    if |rows| == 0 || |found| >= MAX_RELATIONSHIPS then Ok(found)
    else
      match RelationshipOf(env, ids, rows[0])
      case Throws => Throws
      case Ok(None) => ScanRows(env, ids, rows[1..], found)
      case Ok(Some(r)) => ScanRows(env, ids, rows[1..], found + [r])
  }

  // --- Sources ---

  /** Python's order of strings. */
  predicate Less(s: string, t: string) {
    if |t| == 0 then false
    else if |s| == 0 then true
    else if s[0] != t[0] then s[0] < t[0]
    else Less(s[1..], t[1..])
  }

  /** A name put in its place among sorted names, once. */
  function Insert(names: seq<string>, name: string): seq<string> {
    if |names| == 0 then [name]
    else if names[0] == name then names
    else if Less(name, names[0]) then [name] + names
    else [names[0]] + Insert(names[1..], name)
  }

  /** `sorted({finding["source"] for finding in findings})` */
  function SortedSources(findings: seq<Finding>): seq<string> {
    if |findings| == 0 then [] else Insert(SortedSources(findings[..|findings| - 1]), findings[|findings| - 1].source)
  }

  datatype Report = Report(findings: seq<Finding>, relationships: seq<Relationship>, sources: seq<string>)

  function FirstItems(value: Json, n: nat): seq<Json> {
    if !value.List? then [] else if |value.items| <= n then value.items else value.items[..n]
  }

  /** `normalize` on the fields of a raw report */
  function Normalized(env: Env, raw: map<string, Json>): Outcome<Report> {
    match Scan(env, FirstItems(Get(raw, "entities"), 2000), State([], map[], {}))
    case Throws => Throws
    case Ok(st) =>
      match ScanRows(env, st.idToValue, FirstItems(Get(raw, "relationships"), 2000), [])
      case Throws => Throws
      case Ok(rows) =>
        var sources := SortedSources(st.findings);
        Ok(Report(st.findings, rows, if |sources| <= 64 then sources else sources[..64]))
  }

  /** `normalize` */
  method Normalize(env: Env, raw: map<string, Json>) returns (r: Outcome<Report>)
    ensures r == Normalized(env, raw)
  {
    hide CandidateOf, FindingOf, BoundedText, RelationshipOf, SortedSources;
    var entities := FirstItems(Get(raw, "entities"), 2000);
    var st := State([], map[], {});
    assert entities[0..] == entities;
    var i := 0;
    while i < |entities|
      invariant i <= |entities| && |st.findings| < MAX_FINDINGS
      invariant Scan(env, entities, State([], map[], {})) == Scan(env, entities[i..], st)
    {
      var entity := entities[i];
      ScanNext(env, entities, i, st);
      i := i + 1;
      if !entity.Object? { continue; }
      var candidate := CandidateOf(env, entity.fields);
      if candidate.Throws? { return Throws; }
      if candidate.value.None? { continue; }
      var c := candidate.value.value;
      var key := KeyOf(env, c.kind, c.value, c.source);
      if key in st.seen { continue; }
      var finding := FindingOf(env, entity.fields, c);
      if finding.Throws? { return Throws; }
      var id := BoundedText(env, Get(entity.fields, "id"), 80);
      if id.Throws? { return Throws; }
      st := State(st.findings + [finding.value],
                  if id.value == None then st.idToValue else st.idToValue[id.value.value := c.value], st.seen + {key});
      if |st.findings| >= MAX_FINDINGS { break; }
    }
    var rows := FirstItems(Get(raw, "relationships"), 2000);
    var relationships := NormalizeRows(env, st.idToValue, rows);
    if relationships.Throws? { return Throws; }
    var sources := SortedSources(st.findings);
    return Ok(Report(st.findings, relationships.value, if |sources| <= 64 then sources else sources[..64]));
  }

  lemma ScanNext(env: Env, entities: seq<Json>, i: nat, st: State)
    requires i < |entities| && |st.findings| < MAX_FINDINGS
    ensures Scan(env, entities[i..], st)
         == match Step(env, entities[i], st) {
              case Throws => Throws
              case Ok(next) => Scan(env, entities[i + 1..], next)
            }
  {
    assert entities[i..][0] == entities[i] && entities[i..][1..] == entities[i + 1..];
  }

  /** The loop over the relationships. */
  method NormalizeRows(env: Env, ids: map<string, string>, rows: seq<Json>) returns (r: Outcome<seq<Relationship>>)
    ensures r == ScanRows(env, ids, rows, [])
  {
    hide RelationshipOf;
    var found: seq<Relationship> := [];
    assert rows[0..] == rows;
    var i := 0;
    while i < |rows|
      invariant i <= |rows| && |found| < MAX_RELATIONSHIPS
      invariant ScanRows(env, ids, rows, []) == ScanRows(env, ids, rows[i..], found)
    {
      assert rows[i..][0] == rows[i] && rows[i..][1..] == rows[i + 1..];
      var relationship := RelationshipOf(env, ids, rows[i]);
      i := i + 1;
      if relationship.Throws? { return Throws; }
      if relationship.value.None? { continue; }
      found := found + [relationship.value.value];
      if |found| >= MAX_RELATIONSHIPS { break; }
    }
    return Ok(found);
  }

  // --- Closure ---

  function KeyOfFinding(env: Env, f: Finding): Key { KeyOf(env, f.kind, f.value, f.source) }

  ghost predicate IsFinding(f: Finding) {
    IsNormalizedType(f.kind) && f.source != "" && 0.0 <= f.confidence <= 1.0
  }

  /** The findings have distinct keys, which are the ones seen, and ids stand for their values. */
  ghost predicate IsState(env: Env, st: State) {
    && |st.findings| <= MAX_FINDINGS
    && (forall i :: 0 <= i < |st.findings| ==>
      IsFinding(st.findings[i]) && KeyOfFinding(env, st.findings[i]) in st.seen)
    && DistinctKeys(env, st.findings)
    && (forall id :: id in st.idToValue ==> IsValue(st.findings, st.idToValue[id]))
  }

  ghost predicate IsValue(findings: seq<Finding>, value: string) {
    exists i :: 0 <= i < |findings| && findings[i].value == value
  }

  lemma CandidateIsNormalized(env: Env, fields: map<string, Json>)
    ensures var c := CandidateOf(env, fields); c.Ok? && c.value.Some? ==>
      IsNormalizedType(c.value.value.kind) && c.value.value.source != ""
  {
    hide BoundedText, SourceName, IsSensitive, MappedType, HostEntity, SecretLabel, Contains;
    var entityType := BoundedText(env, Get(fields, "entity_type"), 64);
    var value := BoundedText(env, Get(fields, "value"), 512);
    if entityType.Ok? && entityType.value.Some? && value.Ok? && value.value.Some? {
      EntityIsNormalized(env, entityType.value.value, value.value.value);
    }
  }

  lemma HostIsNormalized(env: Env, value: string)
    ensures var r := HostEntity(env, value); r.Ok? && r.value.Some? ==> IsNormalizedType(r.value.value.0)
  {
    hide Contains, EndsWith;
  }

  lemma EntityIsNormalized(env: Env, entityType: string, value: string)
    ensures var r := NormalizedEntity(env, entityType, value);
            r.Ok? && r.value.Some? ==> IsNormalizedType(r.value.value.0)
  {
    hide IsSensitive, MappedType, HostEntity, SecretLabel;
    HostIsNormalized(env, value);
  }

  lemma FindingIs(env: Env, fields: map<string, Json>, c: Candidate)
    ensures var f := FindingOf(env, fields, c); f.Ok? ==>
      f.value.kind == c.kind && f.value.value == c.value && f.value.source == c.source &&
        0.0 <= f.value.confidence <= 1.0
  {
    hide ValidDate, Get, Confidence;
    ConfidenceIs(env, Get(fields, "confidence"));
  }

  lemma ConfidenceIs(env: Env, value: Json)
    ensures var r := Confidence(env, value); r.Ok? ==> 0.0 <= r.value <= 1.0
  {
  }

  lemma AddFinding(env: Env, st: State, f: Finding, id: Option<string>)
    requires IsState(env, st) && |st.findings| < MAX_FINDINGS && IsFinding(f) && KeyOfFinding(env, f) !in st.seen
    ensures IsState(env, State(st.findings + [f],
                               if id == None then st.idToValue else st.idToValue[id.value := f.value],
                               st.seen + {KeyOfFinding(env, f)}))
  {
    hide IsFinding, KeyOfFinding;
    var findings := st.findings + [f];
    assert findings[|st.findings|].value == f.value;
    forall value | IsValue(st.findings, value) ensures IsValue(findings, value) {
      var i :| 0 <= i < |st.findings| && st.findings[i].value == value;
      assert findings[i].value == value;
    }
  }

  lemma StepKeepsState(env: Env, entity: Json, st: State)
    requires IsState(env, st) && |st.findings| < MAX_FINDINGS
    ensures var r := Step(env, entity, st); r.Ok? ==> IsState(env, r.value)
  {
    hide IsState, CandidateOf, FindingOf, BoundedText, IsNormalizedType;
    if entity.Object? {
      var c := CandidateOf(env, entity.fields);
      CandidateIsNormalized(env, entity.fields);
      if c.Ok? && c.value.Some? {
        var f := FindingOf(env, entity.fields, c.value.value);
        FindingIs(env, entity.fields, c.value.value);
        var id := BoundedText(env, Get(entity.fields, "id"), 80);
        var key := KeyOf(env, c.value.value.kind, c.value.value.value, c.value.value.source);
        if key !in st.seen && f.Ok? && id.Ok? { AddFinding(env, st, f.value, id.value); }
      }
    }
  }

  lemma {:induction false} ScanKeepsState(env: Env, entities: seq<Json>, st: State)
    requires IsState(env, st)
    ensures var r := Scan(env, entities, st); r.Ok? ==> IsState(env, r.value)
  {
    hide IsState, Step;
    if |entities| == 0 || |st.findings| >= MAX_FINDINGS {
    } else {
      StepKeepsState(env, entities[0], st);
      var next := Step(env, entities[0], st);
      if next.Ok? { ScanKeepsState(env, entities[1..], next.value); }
    }
  }

  /** A relationship joins the values of two ids and has a well-formed type. */
  ghost predicate IsRelationship(findings: seq<Finding>, r: Relationship) {
    IsValue(findings, r.source) && IsValue(findings, r.target) && IsRelationshipType(r.kind) &&
      0.0 <= r.confidence <= 1.0
  }

  lemma RelationshipIs(env: Env, findings: seq<Finding>, ids: map<string, string>, row: Json)
    requires forall id :: id in ids ==> IsValue(findings, ids[id])
    ensures var r := RelationshipOf(env, ids, row); r.Ok? && r.value.Some? ==> IsRelationship(findings, r.value.value)
  {
    hide IsValue, BoundedText, IsRelationshipType, Confidence;
    if row.Object? { ConfidenceIs(env, Get(row.fields, "confidence")); }
  }

  lemma {:induction false} RowsAreRelationships(env: Env, findings: seq<Finding>, ids: map<string, string>,
                                                rows: seq<Json>, found: seq<Relationship>)
    requires forall id :: id in ids ==> IsValue(findings, ids[id])
    requires |found| <= MAX_RELATIONSHIPS && forall i :: 0 <= i < |found| ==> IsRelationship(findings, found[i])
    ensures var r := ScanRows(env, ids, rows, found); r.Ok? ==>
      |r.value| <= MAX_RELATIONSHIPS && forall i :: 0 <= i < |r.value| ==> IsRelationship(findings, r.value[i])
  {
    hide IsValue, IsRelationship, RelationshipOf;
    if |rows| == 0 || |found| >= MAX_RELATIONSHIPS {
    } else {
      RelationshipIs(env, findings, ids, rows[0]);
      match RelationshipOf(env, ids, rows[0])
      case Throws =>
      case Ok(None) => RowsAreRelationships(env, findings, ids, rows[1..], found);
      case Ok(Some(r)) => RowsAreRelationships(env, findings, ids, rows[1..], found + [r]);
    }
  }

  // --- Sorting ---

  ghost predicate Sorted(names: seq<string>) {
    forall i, j :: 0 <= i < j < |names| ==> Less(names[i], names[j])
  }

  lemma {:induction false} LessIsStrict(s: string, t: string)
    ensures s == t ==> !Less(s, t)
    ensures s != t ==> Less(s, t) || Less(t, s)
  {
    if |s| == 0 || |t| == 0 || s[0] != t[0] {
    } else {
      LessIsStrict(s[1..], t[1..]);
      assert s == [s[0]] + s[1..] && t == [t[0]] + t[1..];
    }
  }

  lemma {:induction false} LessIsTransitive(s: string, t: string, u: string)
    requires Less(s, t) && Less(t, u)
    ensures Less(s, u)
  {
    if |s| == 0 || !(s[0] == t[0] == u[0]) {
    } else {
      LessIsTransitive(s[1..], t[1..], u[1..]);
    }
  }

  lemma {:induction false} InsertIsSorted(names: seq<string>, name: string)
    requires Sorted(names)
    ensures Sorted(Insert(names, name))
    ensures forall x :: x in Insert(names, name) <==> x in names || x == name
  {
    hide Less;
    if |names| == 0 || names[0] == name {
    } else {
      var rest := names[1..];
      assert names == [names[0]] + rest;
      LessIsStrict(names[0], name);
      if Less(name, names[0]) {
        forall i | 1 <= i < |names| ensures Less(name, names[i]) { LessIsTransitive(name, names[0], names[i]); }
      } else {
        InsertIsSorted(rest, name);
        var more := Insert(rest, name);
        forall i | 0 <= i < |more| ensures Less(names[0], more[i]) {
          assert more[i] in more;
          if more[i] != name {
            var j :| 0 <= j < |rest| && rest[j] == more[i];
            assert names[j + 1] == more[i];
          }
        }
      }
    }
  }

  lemma {:induction false} SourcesAreSorted(findings: seq<Finding>)
    ensures Sorted(SortedSources(findings))
    ensures forall x :: x in SortedSources(findings) <==> exists i :: 0 <= i < |findings| && findings[i].source == x
  {
    hide Sorted, Insert;
    if |findings| > 0 {
      var front, last := findings[..|findings| - 1], findings[|findings| - 1];
      SourcesAreSorted(front);
      InsertIsSorted(SortedSources(front), last.source);
      forall x ensures x in SortedSources(findings) <==> exists i :: 0 <= i < |findings| && findings[i].source == x {
        if x in SortedSources(front) {
          var i :| 0 <= i < |front| && front[i].source == x;
          assert findings[i].source == x;
        }
        if i :| 0 <= i < |findings| && findings[i].source == x {
          assert i < |front| ==> front[i].source == x;
        }
        assert findings[|findings| - 1].source == last.source;
      }
    } else {
      NoSources();
    }
  }

  lemma NoSources()
    ensures Sorted([])
  {
  }

  /** The sources are the first 64 at most, in order and once each, of those of the findings. */
  ghost predicate AreSources(findings: seq<Finding>, sources: seq<string>) {
    && |sources| <= 64 && Sorted(sources)
    && (forall x :: x in sources ==> exists i :: 0 <= i < |findings| && findings[i].source == x)
    && (forall i :: 0 <= i < |findings| ==>
          findings[i].source in sources || (|sources| == 64 && Less(sources[63], findings[i].source)))
  }

  lemma FirstSources(findings: seq<Finding>)
    ensures var all := SortedSources(findings); AreSources(findings, if |all| <= 64 then all else all[..64])
  {
    hide SortedSources, Less;
    SourcesAreSorted(findings);
    var all := SortedSources(findings);
    forall i | 0 <= i < |findings| ensures findings[i].source in all {
      var x := findings[i].source;
    }
    if |all| <= 64 {
      assert AreSources(findings, all);
    } else {
      var first := all[..64];
      forall i | 0 <= i < |findings| ensures findings[i].source in first || Less(first[63], findings[i].source) {
        var j :| 0 <= j < |all| && all[j] == findings[i].source;
        if j < 64 { assert first[j] == all[j]; }
      }
      assert forall x :: x in first ==> x in all;
      assert AreSources(findings, first);
    }
  }

  ghost predicate DistinctKeys(env: Env, findings: seq<Finding>) {
    forall i, j :: 0 <= i < j < |findings| ==> KeyOfFinding(env, findings[i]) != KeyOfFinding(env, findings[j])
  }

  ghost predicate IsClosed(env: Env, r: Report) {
    && |r.findings| <= 250 && DistinctKeys(env, r.findings)
    && (forall i :: 0 <= i < |r.findings| ==> IsFinding(r.findings[i]))
    && |r.relationships| <= 500
    && (forall i :: 0 <= i < |r.relationships| ==> IsRelationship(r.findings, r.relationships[i]))
    && AreSources(r.findings, r.sources)
  }

  /** Whatever the raw report, what is returned is bounded, and refers to nothing but its own findings. */
  lemma Closure(env: Env, raw: map<string, Json>)
    ensures var r := Normalized(env, raw); r.Ok? ==> IsClosed(env, r.value)
  {
    hide Scan, ScanRows, IsRelationship, IsFinding, KeyOfFinding, IsValue, AreSources, SortedSources;
    var start := State([], map[], {});
    var st := Scan(env, FirstItems(Get(raw, "entities"), 2000), start);
    ScanKeepsState(env, FirstItems(Get(raw, "entities"), 2000), start);
    if st.Ok? {
      RowsAreRelationships(env, st.value.findings, st.value.idToValue, FirstItems(Get(raw, "relationships"), 2000), []);
      FirstSources(st.value.findings);
    }
  }

  // --- Erasure ---

  ghost predicate IsSecret(env: Env, fields: map<string, Json>) {
    var t := BoundedText(env, Get(fields, "entity_type"), 64);
    t.Ok? && t.value.Some? && IsSensitive(env.upper(env.strip(t.value.value)))
  }

  /** How the worker takes the value of an entity: it raises, it is no value, or it is one. */
  function Status(env: Env, fields: map<string, Json>): Outcome<bool> {
    match BoundedText(env, Get(fields, "value"), 512)
    case Throws => Throws
    case Ok(v) => Ok(v.Some?)
  }

  /** Two entities that are the same but for the value of a secret, which is valid in both or in neither. */
  ghost predicate SameButSecret(env: Env, a: Json, b: Json) {
    a == b
    || (a.Object? && b.Object? && IsSecret(env, a.fields) && Status(env, a.fields) == Status(env, b.fields)
        && a.fields - {"value"} == b.fields - {"value"})
  }

  lemma SameFields(a: map<string, Json>, b: map<string, Json>, name: string)
    requires a - {"value"} == b - {"value"} && name != "value"
    ensures Get(a, name) == Get(b, name)
  {
    assert name in a <==> name in a - {"value"};
    assert name in b <==> name in b - {"value"};
    if name in a { assert (a - {"value"})[name] == (b - {"value"})[name]; }
  }

  lemma SameSource(env: Env, a: map<string, Json>, b: map<string, Json>)
    requires a - {"value"} == b - {"value"}
    ensures SourceName(env, a) == SourceName(env, b)
  {
    hide BoundedText, NamedSource, Get, IsSourceName;
    SameFields(a, b, "corroborating_sources");
    SameFields(a, b, "source_url");
  }

  /** The candidate of a secret does not depend on its value. */
  lemma SameCandidate(env: Env, a: map<string, Json>, b: map<string, Json>)
    requires IsSecret(env, a) && Status(env, a) == Status(env, b) && a - {"value"} == b - {"value"}
    ensures CandidateOf(env, a) == CandidateOf(env, b)
  {
    hide BoundedText, SourceName, Get, IsSensitive, HostEntity, MappedType, SecretLabel;
    SameFields(a, b, "entity_type");
    SameSource(env, a, b);
  }

  lemma SameStep(env: Env, a: Json, b: Json, st: State)
    requires SameButSecret(env, a, b)
    ensures Step(env, a, st) == Step(env, b, st)
  {
    hide BoundedText, CandidateOf, IsSecret, Status, Get, Confidence, ValidDate, KeyOf;
    if a != b {
      SameCandidate(env, a.fields, b.fields);
      SameFields(a.fields, b.fields, "confidence");
      SameFields(a.fields, b.fields, "first_seen");
      SameFields(a.fields, b.fields, "last_seen");
      SameFields(a.fields, b.fields, "id");
    }
  }

  lemma {:induction false} SameScan(env: Env, a: seq<Json>, b: seq<Json>, st: State)
    requires |a| == |b| && forall i :: 0 <= i < |a| ==> SameButSecret(env, a[i], b[i])
    ensures Scan(env, a, st) == Scan(env, b, st)
  {
    hide SameButSecret, Step;
    if |a| == 0 || |st.findings| >= MAX_FINDINGS {
    } else {
      SameStep(env, a[0], b[0], st);
      var next := Step(env, a[0], st);
      if next.Ok? { SameScan(env, a[1..], b[1..], next.value); }
    }
  }

  /** Two raw reports that differ in the values of secrets only. */
  ghost predicate SameButSecrets(env: Env, a: map<string, Json>, b: map<string, Json>) {
    && a - {"entities"} == b - {"entities"}
    && var x, y := FirstItems(Get(a, "entities"), 2000), FirstItems(Get(b, "entities"), 2000);
       |x| == |y| && forall i :: 0 <= i < |x| ==> SameButSecret(env, x[i], y[i])
  }

  /** Such reports are normalized alike: no output depends on the value of a secret, except on whether
      it is a valid one. */
  lemma SecretsAreErased(env: Env, a: map<string, Json>, b: map<string, Json>)
    requires SameButSecrets(env, a, b)
    ensures Normalized(env, a) == Normalized(env, b)
  {
    hide Scan, ScanRows, SameButSecret, SortedSources, FirstItems;
    SameScan(env, FirstItems(Get(a, "entities"), 2000), FirstItems(Get(b, "entities"), 2000), State([], map[], {}));
    assert "relationships" in a <==> "relationships" in a - {"entities"};
    assert "relationships" in b <==> "relationships" in b - {"entities"};
    if "relationships" in a { assert (a - {"entities"})["relationships"] == (b - {"entities"})["relationships"]; }
  }

  /** What a secret becomes: a label made of its type alone. */
  lemma SecretBecomesLabel(env: Env, fields: map<string, Json>)
    requires IsSecret(env, fields)
    ensures var c := CandidateOf(env, fields); c.Ok? && c.value.Some? ==>
      c.value.value.kind == "credential_exposure" && c.value.value.value == LabelOf(env, fields)
  {
    hide BoundedText, SourceName, Get, IsSensitive, HostEntity, MappedType, SecretLabel;
  }

  ghost function LabelOf(env: Env, fields: map<string, Json>): string
    requires IsSecret(env, fields)
  {
    SecretLabel(env, env.upper(env.strip(BoundedText(env, Get(fields, "entity_type"), 64).value.value)))
  }

  /** The finding was made of the entity: with its value, or, of a secret, with its label alone. */
  ghost predicate StemsFrom(env: Env, f: Finding, entity: Json) {
    && entity.Object?
    && (var c := CandidateOf(env, entity.fields);
        c.Ok? && c.value.Some? && f.kind == c.value.value.kind && f.value == c.value.value.value
        && f.source == c.value.value.source)
    && (IsSecret(env, entity.fields) ==> f.kind == "credential_exposure" && f.value == LabelOf(env, entity.fields))
  }

  lemma StepStems(env: Env, entity: Json, st: State)
    ensures var r := Step(env, entity, st); r.Ok? ==>
      && st.findings <= r.value.findings && |r.value.findings| <= |st.findings| + 1
      && (|r.value.findings| > |st.findings| ==> StemsFrom(env, r.value.findings[|st.findings|], entity))
  {
    hide CandidateOf, FindingOf, BoundedText, KeyOf, IsSecret, LabelOf;
    if entity.Object? {
      var c := CandidateOf(env, entity.fields);
      if c.Ok? && c.value.Some? {
        FindingIs(env, entity.fields, c.value.value);
        if IsSecret(env, entity.fields) { SecretBecomesLabel(env, entity.fields); }
      }
    }
  }

  lemma {:induction false} ScanStems(env: Env, entities: seq<Json>, st: State)
    ensures var r := Scan(env, entities, st); r.Ok? ==>
      && st.findings <= r.value.findings
      && forall i :: |st.findings| <= i < |r.value.findings| ==>
           exists m :: 0 <= m < |entities| && StemsFrom(env, r.value.findings[i], entities[m])
  {
    hide Step, StemsFrom;
    if |entities| == 0 || |st.findings| >= MAX_FINDINGS {
    } else {
      StepStems(env, entities[0], st);
      var next, r := Step(env, entities[0], st), Scan(env, entities, st);
      if next.Ok? {
        ScanStems(env, entities[1..], next.value);
        if r.Ok? {
          forall i | |st.findings| <= i < |r.value.findings|
            ensures exists m :: 0 <= m < |entities| && StemsFrom(env, r.value.findings[i], entities[m])
          {
            if i >= |next.value.findings| {
              var m :| 0 <= m < |entities[1..]| && StemsFrom(env, r.value.findings[i], entities[1..][m]);
              assert entities[1..][m] == entities[m + 1];
            } else {
              assert StemsFrom(env, r.value.findings[i], entities[0]);
            }
          }
        }
      }
    }
  }

  /** Every finding of a report stems from an entity of it; of a secret nothing but the label of its
      type gets into the value. */
  lemma Provenance(env: Env, raw: map<string, Json>, i: nat)
    requires Normalized(env, raw).Ok? && i < |Normalized(env, raw).value.findings|
    ensures exists m :: 0 <= m < |FirstItems(Get(raw, "entities"), 2000)| &&
              StemsFrom(env, Normalized(env, raw).value.findings[i], FirstItems(Get(raw, "entities"), 2000)[m])
  {
    hide Scan, ScanRows, SortedSources, StemsFrom, FirstItems, Get;
    var entities := FirstItems(Get(raw, "entities"), 2000);
    var st := Scan(env, entities, State([], map[], {}));
    ScanStems(env, entities, State([], map[], {}));
    assert Normalized(env, raw).value.findings == st.value.findings;
    var m :| 0 <= m < |entities| && StemsFrom(env, st.value.findings[i], entities[m]);
  }

  /** That a secret is valid does show: it is a candidate exactly then. */
  lemma ValidityShows(env: Env, fields: map<string, Json>)
    requires IsSecret(env, fields) && CandidateOf(env, fields).Ok?
    ensures CandidateOf(env, fields).value.Some? <==> Status(env, fields) == Ok(true)
  {
    hide BoundedText, Get, IsSensitive, HostEntity, MappedType, SecretLabel, NamedSource;
    SourceIsNamed(env, fields);
  }

  lemma SourceIsNamed(env: Env, fields: map<string, Json>)
    ensures SourceName(env, fields).Ok? ==> SourceName(env, fields).value != ""
  {
    hide BoundedText, Get, NamedSource;
  }

  // --- Validity is all that shows ---

  lemma StatusIsOk(env: Env, fields: map<string, Json>)
    requires CandidateOf(env, fields).Ok?
    ensures Status(env, fields).Ok?
  {
    hide BoundedText, SourceName, NormalizedEntity, Get;
  }

  /** The key under which a secret is found. */
  function SecretKey(env: Env, fields: map<string, Json>): Key
    requires IsSecret(env, fields)
  {
    var entityType := BoundedText(env, Get(fields, "entity_type"), 64).value.value;
    var source := SourceName(env, fields);
    KeyOf(env, "credential_exposure", SecretLabel(env, env.upper(env.strip(entityType))),
          if source.Ok? then source.value else "")
  }

  lemma SecretHasKey(env: Env, fields: map<string, Json>)
    requires IsSecret(env, fields)
    ensures var c := CandidateOf(env, fields); c.Ok? && c.value.Some? ==>
      KeyOf(env, c.value.value.kind, c.value.value.value, c.value.value.source) == SecretKey(env, fields)
  {
    hide BoundedText, SourceName, Get, IsSensitive, HostEntity, MappedType, SecretLabel, KeyOf;
  }

  lemma SameKey(env: Env, a: map<string, Json>, b: map<string, Json>)
    requires IsSecret(env, a) && a - {"value"} == b - {"value"}
    ensures IsSecret(env, b) && SecretKey(env, a) == SecretKey(env, b)
  {
    hide BoundedText, SourceName, Get, IsSensitive, SecretLabel, KeyOf;
    SameFields(a, b, "entity_type");
    SameSource(env, a, b);
  }

  /** No entity of the list is a candidate with the given key. */
  ghost predicate Lacks(env: Env, entities: seq<Json>, key: Key) {
    forall i :: 0 <= i < |entities| ==> IsNotKeyed(env, entities[i], key)
  }

  predicate IsNotKeyed(env: Env, entity: Json, key: Key) {
    entity.Object? ==>
      var c := CandidateOf(env, entity.fields);
      c.Ok? && c.value.Some? ==> KeyOf(env, c.value.value.kind, c.value.value.value, c.value.value.source) != key
  }

  ghost predicate HasKey(env: Env, findings: seq<Finding>, key: Key) {
    exists i :: 0 <= i < |findings| && KeyOfFinding(env, findings[i]) == key
  }

  /** The first entities lead to a state from which the rest go on. */
  lemma {:induction false} ScanSplit(env: Env, entities: seq<Json>, m: nat, st: State)
    requires m <= |entities|
    requires var r := Scan(env, entities[..m], st); r.Ok? && |r.value.findings| < MAX_FINDINGS
    ensures Scan(env, entities, st) == Scan(env, entities[m..], Scan(env, entities[..m], st).value)
  {
    hide Step;
    if m > 0 && |st.findings| < MAX_FINDINGS {
      assert entities[..m][0] == entities[0] && entities[..m][1..] == entities[1..][..m - 1];
      assert entities[1..][m - 1..] == entities[m..];
      ScanSplit(env, entities[1..], m - 1, Step(env, entities[0], st).value);
    } else {
      assert entities[0..] == entities;
    }
  }

  lemma StepGrows(env: Env, entity: Json, st: State)
    ensures var r := Step(env, entity, st); r.Ok? ==> st.findings <= r.value.findings
  {
    hide CandidateOf, FindingOf, BoundedText, KeyOf;
  }

  lemma {:induction false} ScanGrows(env: Env, entities: seq<Json>, st: State)
    ensures var r := Scan(env, entities, st); r.Ok? ==> st.findings <= r.value.findings
  {
    hide Step;
    if |entities| == 0 || |st.findings| >= MAX_FINDINGS {
    } else {
      StepGrows(env, entities[0], st);
      var next := Step(env, entities[0], st);
      if next.Ok? { ScanGrows(env, entities[1..], next.value); }
    }
  }

  lemma StepAvoids(env: Env, entity: Json, st: State, key: Key)
    requires IsNotKeyed(env, entity, key) && !HasKey(env, st.findings, key)
    ensures var r := Step(env, entity, st); r.Ok? ==> !HasKey(env, r.value.findings, key)
  {
    hide CandidateOf, FindingOf, BoundedText, KeyOf;
    if entity.Object? {
      var c := CandidateOf(env, entity.fields);
      if c.Ok? && c.value.Some? { FindingIs(env, entity.fields, c.value.value); }
    }
  }

  lemma {:induction false} ScanAvoids(env: Env, entities: seq<Json>, st: State, key: Key)
    requires Lacks(env, entities, key) && !HasKey(env, st.findings, key)
    ensures var r := Scan(env, entities, st); r.Ok? ==> !HasKey(env, r.value.findings, key)
  {
    hide Step, HasKey, IsNotKeyed;
    if |entities| == 0 || |st.findings| >= MAX_FINDINGS {
    } else {
      StepAvoids(env, entities[0], st, key);
      var next := Step(env, entities[0], st);
      if next.Ok? { ScanAvoids(env, entities[1..], next.value, key); }
    }
  }

  lemma NewKey(env: Env, st: State, key: Key)
    requires IsState(env, st) && key !in st.seen
    ensures !HasKey(env, st.findings, key)
  {
    hide IsFinding, KeyOfFinding, DistinctKeys, IsValue;
  }

  lemma HasKeyStays(env: Env, few: seq<Finding>, many: seq<Finding>, key: Key)
    requires HasKey(env, few, key) && few <= many
    ensures HasKey(env, many, key)
  {
    hide KeyOfFinding;
    var i :| 0 <= i < |few| && KeyOfFinding(env, few[i]) == key;
    assert many[i] == few[i];
  }

  lemma SecretStep(env: Env, fields: map<string, Json>, st: State)
    requires IsSecret(env, fields) && SecretKey(env, fields) !in st.seen && Step(env, Object(fields), st).Ok?
    ensures Status(env, fields).Ok?
    ensures Status(env, fields).value ==>
            HasKey(env, Step(env, Object(fields), st).value.findings, SecretKey(env, fields))
    ensures !Status(env, fields).value ==> Step(env, Object(fields), st) == Ok(st)
  {
    hide CandidateOf, FindingOf, BoundedText, KeyOf, IsSecret, Status, SecretKey;
    StatusIsOk(env, fields);
    ValidityShows(env, fields);
    SecretHasKey(env, fields);
    if Status(env, fields).value {
      var c := CandidateOf(env, fields).value.value;
      FindingIs(env, fields, c);
      var findings := Step(env, Object(fields), st).value.findings;
      assert KeyOfFinding(env, findings[|st.findings|]) == SecretKey(env, fields);
    }
  }

  /** The state in which the loop comes to the m-th entity of a report. */
  function Reached(env: Env, entities: seq<Json>, m: nat): Outcome<State>
    requires m <= |entities|
  {
    Scan(env, entities[..m], State([], map[], {}))
  }

  /** The m-th entity is a secret that the loop comes to, of a new key that does not come up again. */
  ghost predicate IsTelling(env: Env, entities: seq<Json>, m: nat) {
    && m < |entities| && entities[m].Object? && IsSecret(env, entities[m].fields)
    && var st := Reached(env, entities, m);
       && st.Ok? && |st.value.findings| < MAX_FINDINGS
       && SecretKey(env, entities[m].fields) !in st.value.seen
       && Lacks(env, entities[m + 1..], SecretKey(env, entities[m].fields))
  }

  /** The key of such a secret is found exactly when its value is valid. */
  lemma KeyTells(env: Env, entities: seq<Json>, m: nat)
    requires IsTelling(env, entities, m) && Scan(env, entities, State([], map[], {})).Ok?
    ensures Status(env, entities[m].fields).Ok?
    ensures HasKey(env, Scan(env, entities, State([], map[], {})).value.findings, SecretKey(env, entities[m].fields))
            <==> Status(env, entities[m].fields).value
  {
    hide Step, IsSecret, SecretKey, Status, HasKey, Lacks, IsState;
    var start, fields := State([], map[], {}), entities[m].fields;
    var st := Reached(env, entities, m).value;
    ScanSplit(env, entities, m, start);
    assert entities[m..][0] == entities[m] && entities[m..][1..] == entities[m + 1..];
    EmptyState(env);
    ScanKeepsState(env, entities[..m], start);
    NewKey(env, st, SecretKey(env, fields));
    SecretStep(env, fields, st);
    var next := Step(env, entities[m], st).value;
    ScanGrows(env, entities[m + 1..], next);
    if Status(env, fields).value {
      HasKeyStays(env, next.findings, Scan(env, entities, start).value.findings, SecretKey(env, fields));
    } else {
      ScanAvoids(env, entities[m + 1..], next, SecretKey(env, fields));
    }
  }

  lemma EmptyState(env: Env)
    ensures IsState(env, State([], map[], {}))
  {
  }

  lemma FindingsOf(env: Env, raw: map<string, Json>)
    requires Normalized(env, raw).Ok?
    ensures var st := Scan(env, FirstItems(Get(raw, "entities"), 2000), State([], map[], {}));
            st.Ok? && st.value.findings == Normalized(env, raw).value.findings
  {
    hide Scan, ScanRows, SortedSources, Get;
  }

  /** So the condition is exact: when the value of one secret changes within an otherwise arbitrary
      report, and its key comes up there only, the outputs are equal if and only if both values are
      valid or neither is. */
  lemma ErasedExactly(env: Env, a: map<string, Json>, b: map<string, Json>, m: nat)
    requires a - {"entities"} == b - {"entities"}
    requires var x, y := FirstItems(Get(a, "entities"), 2000), FirstItems(Get(b, "entities"), 2000);
             && |x| == |y| && IsTelling(env, x, m) && y[m].Object?
             && x[m].fields - {"value"} == y[m].fields - {"value"}
             && forall i :: 0 <= i < |x| && i != m ==> x[i] == y[i]
    requires Normalized(env, a).Ok? && Normalized(env, b).Ok?
    ensures var x, y := FirstItems(Get(a, "entities"), 2000), FirstItems(Get(b, "entities"), 2000);
            Normalized(env, a) == Normalized(env, b) <==> Status(env, x[m].fields) == Status(env, y[m].fields)
  {
    hide Normalized, Scan, IsSecret, SecretKey, Status, HasKey, Lacks, FirstItems, Get;
    var x, y := FirstItems(Get(a, "entities"), 2000), FirstItems(Get(b, "entities"), 2000);
    var key := SecretKey(env, x[m].fields);
    SameKey(env, x[m].fields, y[m].fields);
    assert x[..m] == y[..m] && x[m + 1..] == y[m + 1..];
    FindingsOf(env, a);
    FindingsOf(env, b);
    KeyTells(env, x, m);
    KeyTells(env, y, m);
    var va, vb := Status(env, x[m].fields).value, Status(env, y[m].fields).value;
    assert Status(env, x[m].fields) == Ok(va) && Status(env, y[m].fields) == Ok(vb);
    if va == vb { SecretsAreErased(env, a, b); }
  }

  /** The same secret twice: the second one makes up for the first, whether that is valid or not. */
  lemma RepeatedSecretHides(env: Env, a: map<string, Json>, b: map<string, Json>, st: State)
    requires IsSecret(env, a) && Step(env, Object(a), st).Ok? && Status(env, a) == Ok(true)
    requires IsSecret(env, b) && Status(env, b) == Ok(false) && a - {"value"} == b - {"value"}
    requires Step(env, Object(b), st).Ok?
    requires |st.findings| + 1 < MAX_FINDINGS
    ensures Scan(env, [Object(a), Object(a)], st) == Scan(env, [Object(b), Object(a)], st)
  {
    hide CandidateOf, FindingOf, BoundedText, KeyOf, IsSecret, Status;
    ValidityShows(env, a);
    ValidityShows(env, b);
    var first := Step(env, Object(a), st).value;
    assert Step(env, Object(b), st) == Ok(st);
    assert Step(env, Object(a), first) == Ok(first);
    assert [Object(a), Object(a)][1..] == [Object(a)] && [Object(b), Object(a)][1..] == [Object(a)] &&
           [Object(a)][1..] == [];
  }
}
