/** What a normalized report contains, stated from the raw report: which entities become findings, with
    which contents, and which rows become relationships, in which order. */
module ReportMeaning {
  import opened Outcomes
  import opened Strings
  import opened Normalizer

  // --- Fields ---

  /** t is the text of a field: squeezed, not empty, within the limit and without control characters. */
  predicate IsText(env: Env, v: Json, maximum: nat, t: string) {
    && v.Str? && t == env.squeeze(v.s) && t != ""
    && env.octets(t).Some? && env.octets(t).value <= maximum
    && forall c :: c in t ==> 32 <= c as int != 127
  }

  lemma TextIff(env: Env, v: Json, maximum: nat, t: string)
    ensures BoundedText(env, v, maximum) == Ok(Some(t)) <==> IsText(env, v, maximum, t)
  {
    if v.Str? {
      var clean := env.squeeze(v.s);
      assert forall i :: 0 <= i < |clean| ==> clean[i] in clean;
      assert (exists i :: 0 <= i < |clean| && IsControl(clean[i])) <==>
             !(forall c :: c in clean ==> 32 <= c as int != 127);
    }
  }

  function Apart(x: real, y: real): real { if x < y then y - x else x - y }

  /** c is the number of the field moved into the range from 0 to 1, and 0 for what is no number. */
  ghost predicate IsConfidence(env: Env, v: Json, c: real) {
    match env.float(v)
    case NoNumber => c == 0.0
    case TooLarge => false
    case Float(x) => 0.0 <= c <= 1.0 && forall y :: 0.0 <= y <= 1.0 ==> Apart(c, x) <= Apart(y, x)
  }

  lemma ConfidenceIff(env: Env, v: Json, c: real)
    ensures Confidence(env, v) == Ok(c) <==> IsConfidence(env, v, c)
  {
    match env.float(v)
    case NoNumber =>
    case TooLarge =>
    case Float(x) =>
      var near := if x < 0.0 then 0.0 else if x > 1.0 then 1.0 else x;
      if IsConfidence(env, v, c) { assert Apart(c, x) <= Apart(near, x); }
  }

  predicate Digits(env: Env, s: string, n: nat) {
    |s| == n && forall c :: c in s ==> env.isDigit(c)
  }

  /** A year, or a year and a month, or all three, joined by hyphens. */
  ghost predicate IsDateText(env: Env, t: string) {
    exists y, m, d :: IsDateOf(env, t, y, m, d)
  }

  predicate IsDateOf(env: Env, t: string, y: string, m: string, d: string) {
    && Digits(env, y, 4)
    && (t == y || (Digits(env, m, 2) && (t == y + "-" + m || (Digits(env, d, 2) && t == y + "-" + m + "-" + d))))
  }

  lemma DateIff(env: Env, t: string)
    ensures IsDate(env, t) <==> IsDateText(env, t)
  {
    if IsDate(env, t) {
      DigitsAt(env, t, 0, 4);
      if |t| == 4 {
        assert t == t[0..4];
        assert IsDateOf(env, t, t[0..4], "", "");
      } else if |t| == 7 {
        DigitsAt(env, t, 5, 2);
        assert t == t[0..4] + "-" + t[5..7];
        assert IsDateOf(env, t, t[0..4], t[5..7], "");
      } else {
        DigitsAt(env, t, 5, 2);
        DigitsAt(env, t, 8, 2);
        assert t == t[0..4] + "-" + t[5..7] + "-" + t[8..10];
        assert IsDateOf(env, t, t[0..4], t[5..7], t[8..10]);
      }
    }
    if y, m, d :| IsDateOf(env, t, y, m, d) {
      DateParts(env, t, y, m, d);
    }
  }

  lemma DigitsAt(env: Env, t: string, i: nat, n: nat)
    requires IsDate(env, t) && i + n <= |t| && (i + n <= 4 || (5 <= i && i + n <= 7) || 8 <= i)
    ensures Digits(env, t[i..i + n], n)
  {
    forall c | c in t[i..i + n] ensures env.isDigit(c) {
      var k :| 0 <= k < n && t[i..i + n][k] == c;
      assert t[i + k] == c;
    }
  }

  lemma DateParts(env: Env, t: string, y: string, m: string, d: string)
    requires IsDateOf(env, t, y, m, d)
    ensures IsDate(env, t)
  {
    assert forall i :: 0 <= i < |y| ==> y[i] in y;
    assert forall i :: 0 <= i < |m| ==> m[i] in m;
    assert forall i :: 0 <= i < |d| ==> d[i] in d;
  }

  /** The date of a field, which is left out where it is none. */
  ghost predicate IsDated(env: Env, v: Json, date: Option<string>) {
    match date
    case Some(t) => IsText(env, v, 10, t) && IsDateText(env, t)
    case None => forall t :: IsText(env, v, 10, t) ==> !IsDateText(env, t)
  }

  lemma DatedIff(env: Env, v: Json, date: Option<string>)
    requires ValidDate(env, v) == Ok(date)
    ensures IsDated(env, v, date)
  {
    hide BoundedText, IsText, IsDate, IsDateText;
    forall t ensures BoundedText(env, v, 10) == Ok(Some(t)) <==> IsText(env, v, 10, t) { TextIff(env, v, 10, t); }
    forall t ensures IsDate(env, t) <==> IsDateText(env, t) { DateIff(env, t); }
  }

  // --- Types ---

  /** The types of the worker that have a kind of their own in the platform. */
  function TypesOf(kind: string): set<string> {
    match kind
    case "email" => {"EMAIL", "EMAIL_ADDRESS"}
    case "domain" => {"DOMAIN", "ENS_DOMAIN"}
    case "ip" => {"IP_ADDRESS", "IPV6_ADDRESS"}
    case "phone" => {"PHONE", "PHONE_NUMBER"}
    case "threat_actor" => {"THREAT_ACTOR_HANDLE", "RANSOMWARE_GROUP"}
    case "malware" => {"MALWARE", "MALWARE_FAMILY"}
    case "organization" => {"ORGANIZATION_NAME"}
    case "date" => {"DATE"}
    case "vulnerability" => {"CVE", "CVE_NUMBER", "EXPLOIT_DB_ID"}
    case "technique" => {"MITRE_TACTIC", "MITRE_TECHNIQUE", "YARA_RULE", "NUCLEI_TEMPLATE"}
    case "network_indicator" => {"MAC_ADDRESS"}
    case "file_hash" => {"IPFS_CID", "FILE_HASH_MD5", "FILE_HASH_SHA1", "FILE_HASH_SHA256"}
    case "messaging_handle" => {"TELEGRAM_HANDLE", "DISCORD_HANDLE", "XMPP_JID", "TOX_ID", "MATRIX_HANDLE",
                                "WIRE_HANDLE", "ICQ_NUMBER", "WICKR_ID"}
    case _ => {}
  }

  lemma TypeIsMapped(t: string)
    ensures MappedType(t) != "" ==> t in TypesOf(MappedType(t))
  {
    if t in {"EMAIL", "EMAIL_ADDRESS", "DOMAIN", "ENS_DOMAIN", "IP_ADDRESS", "IPV6_ADDRESS", "PHONE",
             "PHONE_NUMBER", "THREAT_ACTOR_HANDLE", "RANSOMWARE_GROUP", "MALWARE", "MALWARE_FAMILY",
             "ORGANIZATION_NAME", "DATE", "CVE", "CVE_NUMBER", "EXPLOIT_DB_ID"} {
    }
  }

  lemma MappedFirst(t: string, kind: string)
    requires kind in {"email", "domain", "ip", "phone", "threat_actor"} && t in TypesOf(kind)
    ensures MappedType(t) == kind
  {
  }

  lemma MappedSecond(t: string, kind: string)
    requires kind in {"malware", "organization", "date", "vulnerability", "technique"} && t in TypesOf(kind)
    ensures MappedType(t) == kind
  {
  }

  lemma MappedThird(t: string, kind: string)
    requires kind in {"network_indicator", "file_hash"} && t in TypesOf(kind)
    ensures MappedType(t) == kind
  {
  }

  lemma MappedFourth(t: string)
    requires t in TypesOf("messaging_handle")
    ensures MappedType(t) == "messaging_handle"
  {
  }

  lemma HasKind(t: string, kind: string)
    requires t in TypesOf(kind)
    ensures kind in {"email", "domain", "ip", "phone", "threat_actor", "malware", "organization", "date",
                     "vulnerability", "technique", "network_indicator", "file_hash", "messaging_handle"}
    ensures IsNormalizedType(kind)
  {
  }

  /** The table read the other way round. */
  lemma MappedIff(t: string, kind: string)
    requires kind != ""
    ensures MappedType(t) == kind <==> t in TypesOf(kind)
  {
    hide MappedType, TypesOf;
    TypeIsMapped(t);
    if t in TypesOf(kind) {
      HasKind(t, kind);
      if kind in {"email", "domain", "ip", "phone", "threat_actor"} {
        MappedFirst(t, kind);
      } else if kind in {"malware", "organization", "date", "vulnerability", "technique"} {
        MappedSecond(t, kind);
      } else if kind in {"network_indicator", "file_hash"} {
        MappedThird(t, kind);
      } else {
        MappedFourth(t);
      }
    }
  }

  // --- Entities ---

  /** The part stands somewhere in s. */
  ghost predicate Occurs(part: string, s: string) {
    exists a, b :: s == a + part + b
  }

  lemma ContainsIff(s: string, part: string)
    ensures Contains(s, part) <==> Occurs(part, s)
  {
    if Contains(s, part) {
      var i :| 0 <= i <= |s| - |part| && StandsAt(s, part, i);
      assert s == s[..i] + part + s[i + |part|..];
    }
    if a, b :| s == a + part + b { assert StandsAt(s, part, |a|); }
  }

  /** The markers of types that name a secret. */
  const MARKERS := {"TOKEN", "SECRET", "PASSWORD", "PRIVATE_KEY", "_KEY", "API_KEY", "ACCESS_KEY", "SEED_PHRASE",
                    "STEALER_LOG", "COMBO_LIST", "SESSION_ID", "CREDENTIAL"}

  ghost predicate IsMarked(u: string) { exists m :: m in MARKERS && Occurs(m, u) }

  lemma SensitiveIff(u: string)
    ensures IsSensitive(u) <==> IsMarked(u)
  {
    hide Contains, Occurs;
    forall m ensures Contains(u, m) <==> Occurs(m, u) { ContainsIff(u, m); }
    if IsSensitive(u) {
      var i :| 0 <= i < |SENSITIVE| && Contains(u, SENSITIVE[i]);
      assert SENSITIVE[i] in MARKERS;
    }
    if IsMarked(u) {
      var m :| m in MARKERS && Occurs(m, u);
      MarkerListed(m);
    }
  }

  lemma MarkerListed(m: string)
    requires m in MARKERS
    ensures m in SENSITIVE
  {
  }

  /** The label of a type in lower case: at most 48 characters, with spaces for underscores. */
  ghost predicate IsLabel(tag: string, lower: string) {
    exists l :: IsSpaced(l, lower) && tag == l + " detected"
  }

  predicate IsSpaced(l: string, lower: string) {
    && |l| == (if |lower| <= 48 then |lower| else 48)
    && forall i :: 0 <= i < |l| ==> l[i] == if lower[i] == '_' then ' ' else lower[i]
  }

  lemma LabelIff(env: Env, u: string, tag: string)
    ensures tag == SecretLabel(env, u) <==> IsLabel(tag, env.lower(u))
  {
    var l := Slice(Replace(env.lower(u), '_', ' '), 48);
    assert IsSpaced(l, env.lower(u));
    if x :| IsSpaced(x, env.lower(u)) && tag == x + " detected" { assert x == l; }
  }

  /** The host of an address. */
  ghost predicate IsHost(env: Env, v: string, kind: string, host: string) {
    var name := env.hostname(if Occurs("://", v) then v else "http://" + v);
    && name.Ok? && host == env.rstripDots(env.lower(name.value)) && host != ""
    && env.octets(host).Some? && env.octets(host).value <= 253
    && kind == if IsOnion(host) then "onion_service" else "domain"
  }

  ghost predicate IsOnion(host: string) { exists a :: host == a + ".onion" }

  lemma OnionIff(host: string)
    ensures EndsWith(host, ".onion") <==> IsOnion(host)
  {
    if EndsWith(host, ".onion") { assert host == host[..|host| - |".onion"|] + ".onion"; }
  }

  /** A wallet, or the address of one of fourteen kinds. */
  predicate IsWallet(u: string) {
    u in {"CRYPTO_WALLET", "BTC_ADDRESS", "BITCOIN_ADDRESS", "BITCOIN_CASH_ADDRESS", "ETH_ADDRESS",
          "ETHEREUM_ADDRESS", "XMR_ADDRESS", "MONERO_ADDRESS", "DASH_ADDRESS", "DOGECOIN_ADDRESS",
          "LITECOIN_ADDRESS", "SOLANA_ADDRESS", "TRON_ADDRESS", "XRP_ADDRESS", "ZCASH_ADDRESS"}
  }

  lemma WalletIff(u: string)
    ensures u in WALLETS <==> IsWallet(u)
  {
  }

  /** An entity of type t with the value v is reported as `value` of that kind. */
  ghost predicate Names(env: Env, t: string, v: string, kind: string, value: string) {
    var u := env.upper(env.strip(t));
    if IsMarked(u) then kind == "credential_exposure" && IsLabel(value, env.lower(u))
    else if u in {"ONION_URL", "PASTE_URL", "URL"} then IsHost(env, v, kind, value)
    else value == v && if IsWallet(u) then kind == "crypto_wallet" else u in TypesOf(kind)
  }

  lemma HostIff(env: Env, v: string, kind: string, host: string)
    ensures HostEntity(env, v) == Ok(Some((kind, host))) <==> IsHost(env, v, kind, host)
  {
    hide Contains, EndsWith, Occurs;
    ContainsIff(v, "://");
    var name := env.hostname(if Contains(v, "://") then v else "http://" + v);
    if name.Ok? { OnionIff(env.rstripDots(env.lower(name.value))); }
  }

  lemma NamesIff(env: Env, t: string, v: string, kind: string, value: string)
    ensures NormalizedEntity(env, t, v) == Ok(Some((kind, value))) <==> Names(env, t, v, kind, value)
  {
    hide IsSensitive, SecretLabel, IsLabel, MappedType, TypesOf, IsNormalizedType, HostEntity, IsHost, IsMarked,
         IsWallet;
    var u := env.upper(env.strip(t));
    SensitiveIff(u);
    WalletIff(u);
    LabelIff(env, u, value);
    HostIff(env, v, kind, value);
    if u in TypesOf(kind) { HasKind(u, kind); }
    NoKind();
    if kind != "" { MappedIff(u, kind); }
    EmptyKind();
  }

  lemma NoKind()
    ensures TypesOf("") == {}
  {
  }

  lemma EmptyKind()
    ensures !IsNormalizedType("")
  {
  }

  /** The fields of an entity name a candidate. */
  ghost predicate IsCandidate(env: Env, fields: map<string, Json>, c: Candidate) {
    && c.source != "" && SourceName(env, fields) == Ok(c.source)
    && exists t, v :: && IsText(env, Get(fields, "entity_type"), 64, t) && IsText(env, Get(fields, "value"), 512, v)
                      && Names(env, t, v, c.kind, c.value)
  }

  lemma CandidateIff(env: Env, fields: map<string, Json>, c: Candidate)
    requires CandidateOf(env, fields).Ok?
    ensures CandidateOf(env, fields) == Ok(Some(c)) <==> IsCandidate(env, fields, c)
  {
    hide BoundedText, SourceName, NormalizedEntity, Names, Get, IsText;
    forall t ensures BoundedText(env, Get(fields, "entity_type"), 64) == Ok(Some(t)) <==>
                     IsText(env, Get(fields, "entity_type"), 64, t)
    {
      TextIff(env, Get(fields, "entity_type"), 64, t);
    }
    forall v ensures BoundedText(env, Get(fields, "value"), 512) == Ok(Some(v)) <==>
                     IsText(env, Get(fields, "value"), 512, v)
    {
      TextIff(env, Get(fields, "value"), 512, v);
    }
    forall t, v, kind, value
      ensures NormalizedEntity(env, t, v) == Ok(Some((kind, value))) <==> Names(env, t, v, kind, value)
    {
      NamesIff(env, t, v, kind, value);
    }
  }

  /** The text up to the first comma. */
  ghost predicate IsHead(head: string, s: string) {
    ',' !in head && (s == head || exists tail :: s == head + "," + tail)
  }

  lemma {:induction false} BeforeIsHead(s: string)
    ensures IsHead(Before(s, ','), s)
  {
    if |s| == 0 {
    } else if s[0] == ',' {
      assert s == [] + "," + s[1..];
    } else {
      BeforeIsHead(s[1..]);
      var head := Before(s[1..], ',');
      assert s == [s[0]] + s[1..];
      if tail :| s[1..] == head + "," + tail { assert s == [s[0]] + head + "," + tail; }
    }
  }

  const NAME_MARKS := "._+ -"

  predicate IsName(s: string) {
    1 <= |s| <= 80 && IsAlphanumeric(s[0]) && forall c :: c in s ==> IsAlphanumeric(c) || c in NAME_MARKS
  }

  lemma NameIff(s: string)
    ensures IsSourceName(s) <==> IsName(s)
  {
    assert forall c :: c in NAME_MARKS <==> c in {'.', '_', '+', ' ', '-'};
    assert forall i :: 0 <= i < |s| ==> s[i] in s;
  }

  /** The name at the head of the sources, or the host where that is an address. */
  ghost predicate IsNamed(env: Env, s: string, source: string) {
    && IsName(source)
    && exists head :: IsHead(head, s) &&
         if Occurs("://", env.strip(head)) then env.hostname(env.strip(head)) == Ok(source)
           else source == env.strip(head)
  }

  lemma NamedIff(env: Env, s: string, source: string)
    requires NamedSource(env, s) == Ok(source) && IsSourceName(source)
    ensures IsNamed(env, s, source)
  {
    hide Before, Contains, Occurs, IsHead, IsSourceName, IsName;
    BeforeIsHead(s);
    NameIff(source);
    ContainsIff(env.strip(Before(s, ',')), "://");
  }

  ghost predicate IsLinked(env: Env, url: string, source: string) {
    && env.hostname(url).Ok? && env.hostname(url).value != ""
    && source <= env.hostname(url).value
    && |source| == if |env.hostname(url).value| <= 80 then |env.hostname(url).value| else 80
  }

  /** Where a finding is said to come from: the name before the first comma or the host of it, then the
      host of the link, then the worker itself. */
  lemma SourceIs(env: Env, fields: map<string, Json>, source: string)
    requires SourceName(env, fields) == Ok(source)
    ensures
      || (exists s :: IsText(env, Get(fields, "corroborating_sources"), 80, s) && IsNamed(env, s, source))
      || (exists u :: IsText(env, Get(fields, "source_url"), 2048, u) && IsLinked(env, u, source))
      || source == "voidaccess"
  {
    hide NamedSource, IsSourceName, Get, IsText, IsNamed, BoundedText;
    var sources := BoundedText(env, Get(fields, "corroborating_sources"), 80);
    var url := BoundedText(env, Get(fields, "source_url"), 2048);
    if sources.Ok? && sources.value.Some? {
      TextIff(env, Get(fields, "corroborating_sources"), 80, sources.value.value);
      var named := NamedSource(env, sources.value.value);
      if named.Ok? && IsSourceName(named.value) { NamedIff(env, sources.value.value, named.value); }
    }
    if url.Ok? && url.value.Some? { TextIff(env, Get(fields, "source_url"), 2048, url.value.value); }
  }

  /** A finding as the fields of its entity have it. */
  ghost predicate Describes(env: Env, fields: map<string, Json>, f: Finding) {
    && IsCandidate(env, fields, Candidate(f.kind, f.value, f.source))
    && IsConfidence(env, Get(fields, "confidence"), f.confidence)
    && IsDated(env, Get(fields, "first_seen"), f.firstSeen) && IsDated(env, Get(fields, "last_seen"), f.lastSeen)
  }

  lemma FindingDescribes(env: Env, fields: map<string, Json>, c: Candidate)
    requires CandidateOf(env, fields) == Ok(Some(c)) && FindingOf(env, fields, c).Ok?
    ensures Describes(env, fields, FindingOf(env, fields, c).value)
    ensures var f := FindingOf(env, fields, c).value; f.kind == c.kind && f.value == c.value && f.source == c.source
  {
    hide CandidateOf, Confidence, ValidDate, Get, IsCandidate, IsConfidence, IsDated;
    var f := FindingOf(env, fields, c).value;
    CandidateIff(env, fields, c);
    ConfidenceIff(env, Get(fields, "confidence"), f.confidence);
    DatedIff(env, Get(fields, "first_seen"), f.firstSeen);
    DatedIff(env, Get(fields, "last_seen"), f.lastSeen);
  }

  // --- One entity after the other ---

  lemma ReachedNext(env: Env, entities: seq<Json>, m: nat)
    requires m < |entities| && Reached(env, entities, m + 1).Ok?
    ensures Reached(env, entities, m).Ok?
    ensures var st := Reached(env, entities, m).value;
            Reached(env, entities, m + 1) ==
            if |st.findings| >= MAX_FINDINGS then Ok(st) else Step(env, entities[m], st)
  {
    hide Step;
    ScanNextLast(env, entities[..m + 1], State([], map[], {}));
    assert entities[..m + 1][..m] == entities[..m];
  }

  lemma {:induction false} ScanNextLast(env: Env, entities: seq<Json>, st: State)
    requires |entities| > 0 && Scan(env, entities, st).Ok?
    ensures var r := Scan(env, entities[..|entities| - 1], st);
            && r.Ok?
            && Scan(env, entities, st) == if |r.value.findings| >= MAX_FINDINGS then r
                                          else Step(env, entities[|entities| - 1], r.value)
  {
    hide Step;
    if |st.findings| >= MAX_FINDINGS {
    } else if |entities| == 1 {
      var next := Step(env, entities[0], st);
      assert entities[1..] == [] && entities[..0] == [];
      assert Scan(env, [], next.value) == next;
    } else {
      var next := Step(env, entities[0], st).value;
      ScanNextLast(env, entities[1..], next);
      assert entities[1..][..|entities| - 2] == entities[..|entities| - 1][1..];
    }
  }

  /** Entity m is the one that f was recorded for. */
  ghost predicate Records(env: Env, entities: seq<Json>, m: int, f: Finding) {
    && 0 <= m < |entities| && Reached(env, entities, m + 1).Ok? && Reached(env, entities, m).Ok?
    && Reached(env, entities, m + 1).value.findings == Reached(env, entities, m).value.findings + [f]
  }

  ghost predicate SeenAre(env: Env, st: State) {
    forall key :: key in st.seen <==> HasKey(env, st.findings, key)
  }

  lemma HasKeyNext(env: Env, findings: seq<Finding>, f: Finding, key: Key)
    ensures HasKey(env, findings + [f], key) <==> HasKey(env, findings, key) || KeyOfFinding(env, f) == key
  {
    hide KeyOfFinding;
    var more := findings + [f];
    if HasKey(env, findings, key) {
      var i :| 0 <= i < |findings| && KeyOfFinding(env, findings[i]) == key;
      assert more[i] == findings[i];
    }
    assert more[|findings|] == f;
  }

  ghost predicate IsNewKey(env: Env, st: State, c: Candidate) {
    !HasKey(env, st.findings, KeyOf(env, c.kind, c.value, c.source))
  }

  /** What one round does: it records a finding exactly for an object that names a candidate with a new
      key. */
  lemma StepIs(env: Env, entity: Json, st: State)
    requires SeenAre(env, st) && Step(env, entity, st).Ok?
    ensures var r := Step(env, entity, st).value;
            && SeenAre(env, r)
            && (r.findings == st.findings ==> r == st)
            && (r.findings != st.findings ==>
                  && |r.findings| == |st.findings| + 1 && entity.Object? && st.findings <= r.findings
                  && var f := r.findings[|st.findings|];
                     && Describes(env, entity.fields, f) && !HasKey(env, st.findings, KeyOfFinding(env, f))
                     && IsBinding(env, Get(entity.fields, "id"), f.value, st.idToValue, r.idToValue))
    ensures entity.Object? ==>
      forall c :: IsCandidate(env, entity.fields, c) && IsNewKey(env, st, c) ==>
        var r := Step(env, entity, st).value;
        && |r.findings| == |st.findings| + 1
        && var f := r.findings[|st.findings|]; f.kind == c.kind && f.value == c.value && f.source == c.source
  {
    hide CandidateOf, FindingOf, BoundedText, HasKey, Describes, IsCandidate, KeyOf, IsText;
    if entity.Object? {
      var c := CandidateOf(env, entity.fields);
      forall d ensures c == Ok(Some(d)) <==> IsCandidate(env, entity.fields, d) { CandidateIff(env, entity.fields, d); }
      if c.Ok? && c.value.Some? {
        var key := KeyOf(env, c.value.value.kind, c.value.value.value, c.value.value.source);
        if key !in st.seen {
          FindingDescribes(env, entity.fields, c.value.value);
          var f := FindingOf(env, entity.fields, c.value.value).value;
          forall k ensures HasKey(env, st.findings + [f], k) <==> HasKey(env, st.findings, k) || key == k {
            HasKeyNext(env, st.findings, f, k);
          }
          forall t ensures BoundedText(env, Get(entity.fields, "id"), 80) == Ok(Some(t)) <==>
                           IsText(env, Get(entity.fields, "id"), 80, t)
          {
            TextIff(env, Get(entity.fields, "id"), 80, t);
          }
        }
      }
    }
  }

  /** The id of an entity stands for the value, and all others stand for what they did. */
  ghost predicate IsBinding(env: Env, id: Json, value: string, before: map<string, string>,
                            after: map<string, string>)
  {
    forall t :: if IsText(env, id, 80, t) then t in after && after[t] == value
                else (t in after <==> t in before) && (t in before ==> after[t] == before[t])
  }

  lemma {:induction false} SeenHolds(env: Env, entities: seq<Json>, m: nat)
    requires m <= |entities| && Reached(env, entities, m).Ok?
    ensures SeenAre(env, Reached(env, entities, m).value)
  {
    hide Step, HasKey, Describes, IsCandidate, IsBinding;
    if m == 0 {
      NothingReached(env, entities);
    } else {
      ReachedNext(env, entities, m - 1);
      SeenHolds(env, entities, m - 1);
      var st := Reached(env, entities, m - 1).value;
      if |st.findings| < MAX_FINDINGS { StepIs(env, entities[m - 1], st); }
    }
  }

  lemma NothingReached(env: Env, entities: seq<Json>)
    ensures Reached(env, entities, 0) == Ok(State([], map[], {})) && SeenAre(env, State([], map[], {}))
  {
    assert entities[..0] == [];
  }

  /** What is reached is reached for good. */
  lemma {:induction false} ReachedBefore(env: Env, entities: seq<Json>, m: nat, n: nat)
    requires m <= n <= |entities| && Reached(env, entities, n).Ok?
    ensures Reached(env, entities, m).Ok?
    ensures Reached(env, entities, m).value.findings <= Reached(env, entities, n).value.findings
    decreases n
  {
    hide Step, Reached;
    if m == n {
    } else {
      ReachedNext(env, entities, n - 1);
      ReachedBefore(env, entities, m, n - 1);
      StepGrows(env, entities[n - 1], Reached(env, entities, n - 1).value);
    }
  }

  /** Only the first 2000 entities and rows are looked at. */
  lemma FirstItemsAre(v: Json)
    ensures v.List? ==>
      && FirstItems(v, 2000) <= v.items
      && |FirstItems(v, 2000)| == if |v.items| < 2000 then |v.items| else 2000
    ensures !v.List? ==> FirstItems(v, 2000) == []
  {
  }

  lemma AllReached(env: Env, raw: map<string, Json>)
    requires Normalized(env, raw).Ok?
    ensures var entities := FirstItems(Get(raw, "entities"), 2000);
            && Reached(env, entities, |entities|).Ok?
            && Reached(env, entities, |entities|).value.findings == Normalized(env, raw).value.findings
            && ScanRows(env, Reached(env, entities, |entities|).value.idToValue,
                        FirstItems(Get(raw, "relationships"), 2000), [])
               == Ok(Normalized(env, raw).value.relationships)
  {
    hide Scan, ScanRows, SortedSources, Get;
    var entities := FirstItems(Get(raw, "entities"), 2000);
    assert entities[..|entities|] == entities;
  }

  /** Kind, value and source are those of a finding, but for the case of the letters. */
  predicate Repeats(env: Env, findings: seq<Finding>, c: Candidate) {
    exists i :: 0 <= i < |findings| && findings[i].kind == c.kind
                && env.casefold(findings[i].value) == env.casefold(c.value)
                && env.casefold(findings[i].source) == env.casefold(c.source)
  }

  lemma RepeatsIff(env: Env, findings: seq<Finding>, c: Candidate)
    ensures HasKey(env, findings, KeyOf(env, c.kind, c.value, c.source)) <==> Repeats(env, findings, c)
  {
  }

  /** Completeness: an entity that names a candidate and is reached before 250 findings and that
      repeats none of them is reported, as its fields have it, right behind the findings
      before it. */
  lemma EntityReported(env: Env, raw: map<string, Json>, m: nat, c: Candidate)
    requires Normalized(env, raw).Ok?
    requires var entities := FirstItems(Get(raw, "entities"), 2000);
             && m < |entities| && entities[m].Object? && IsCandidate(env, entities[m].fields, c)
             && Reached(env, entities, m).Ok?
             && |Reached(env, entities, m).value.findings| < 250
             && !Repeats(env, Reached(env, entities, m).value.findings, c)
    ensures var entities, findings := FirstItems(Get(raw, "entities"), 2000), Normalized(env, raw).value.findings;
            var n := |Reached(env, entities, m).value.findings|;
            && n < |findings| && findings[..n] == Reached(env, entities, m).value.findings
            && findings[n].kind == c.kind && findings[n].value == c.value && findings[n].source == c.source
            && Describes(env, entities[m].fields, findings[n])
  {
    hide Step, HasKey, Repeats, Describes, IsCandidate, IsBinding, Normalized, ScanRows, KeyOf, Reached, FirstItems;
    var entities := FirstItems(Get(raw, "entities"), 2000);
    RepeatsIff(env, Reached(env, entities, m).value.findings, c);
    var st := Reached(env, entities, m).value;
    AllReached(env, raw);
    ReachedBefore(env, entities, m + 1, |entities|);
    ReachedNext(env, entities, m);
    SeenHolds(env, entities, m);
    StepIs(env, entities[m], st);
  }

  // --- What an id stands for ---

  /** An id stands for the value of the last of the first n entities with that id for which a finding
      was recorded. */
  ghost predicate StandsFor(env: Env, entities: seq<Json>, n: nat, id: string, value: string) {
    exists m, f :: 0 <= m < n && Records(env, entities, m, f) && HasId(env, entities[m], id) && f.value == value
                   && Unnamed(env, entities, m, n, id)
  }

  ghost predicate HasId(env: Env, entity: Json, id: string) {
    entity.Object? && IsText(env, Get(entity.fields, "id"), 80, id)
  }

  /** No finding was recorded for an entity of that id behind m. */
  ghost predicate Unnamed(env: Env, entities: seq<Json>, m: int, n: nat, id: string) {
    forall k, g :: m < k < n && Records(env, entities, k, g) ==> !HasId(env, entities[k], id)
  }

  /** One entity more. */
  lemma StandsNext(env: Env, entities: seq<Json>, n: nat, id: string, value: string)
    requires n < |entities|
    ensures StandsFor(env, entities, n + 1, id, value) <==>
      if exists f :: Records(env, entities, n, f) && HasId(env, entities[n], id)
      then exists f :: Records(env, entities, n, f) && f.value == value
      else StandsFor(env, entities, n, id, value)
  {
    hide Records, HasId;
    if f :| Records(env, entities, n, f) && HasId(env, entities[n], id) {
      if StandsFor(env, entities, n + 1, id, value) {
        var m, g :| 0 <= m < n + 1 && Records(env, entities, m, g) && HasId(env, entities[m], id) && g.value == value
                    && Unnamed(env, entities, m, n + 1, id);
        RecordsIs(env, entities, m, g);
        assert m == n;
      }
      if g :| Records(env, entities, n, g) && g.value == value {
        assert Unnamed(env, entities, n, n + 1, id);
      }
    } else {
      if StandsFor(env, entities, n + 1, id, value) {
        var m, g :| 0 <= m < n + 1 && Records(env, entities, m, g) && HasId(env, entities[m], id) && g.value == value
                    && Unnamed(env, entities, m, n + 1, id);
        assert m < n && Unnamed(env, entities, m, n, id);
      }
      if StandsFor(env, entities, n, id, value) {
        var m, g :| 0 <= m < n && Records(env, entities, m, g) && HasId(env, entities[m], id) && g.value == value
                    && Unnamed(env, entities, m, n, id);
        assert Unnamed(env, entities, m, n + 1, id);
      }
    }
  }

  lemma RecordsIs(env: Env, entities: seq<Json>, m: int, f: Finding)
    requires Records(env, entities, m, f)
    ensures 0 <= m < |entities| && forall g :: Records(env, entities, m, g) ==> g == f
  {
    hide Reached;
    forall g | Records(env, entities, m, g) ensures g == f {
      var st := Reached(env, entities, m).value.findings;
      assert (st + [g])[|st|] == (st + [f])[|st|];
    }
  }

  /** The ids that the loop keeps stand for exactly these values. */
  lemma {:induction false} IdsStand(env: Env, entities: seq<Json>, n: nat, id: string, value: string)
    requires n <= |entities| && Reached(env, entities, n).Ok?
    ensures var ids := Reached(env, entities, n).value.idToValue;
            id in ids && ids[id] == value <==> StandsFor(env, entities, n, id, value)
  {
    hide Step, HasKey, Describes, IsCandidate, Reached, IsText, StandsFor;
    if n == 0 {
      NothingReached(env, entities);
      NothingStands(env, entities, id, value);
    } else {
      ReachedNext(env, entities, n - 1);
      IdsStand(env, entities, n - 1, id, value);
      StandsNext(env, entities, n - 1, id, value);
      SeenHolds(env, entities, n - 1);
      var st, next := Reached(env, entities, n - 1).value, Reached(env, entities, n).value;
      if |st.findings| < MAX_FINDINGS {
        StepIs(env, entities[n - 1], st);
        if next.findings != st.findings {
          assert next.findings == st.findings + [next.findings[|st.findings|]];
          assert Records(env, entities, n - 1, next.findings[|st.findings|]);
          RecordsIs(env, entities, n - 1, next.findings[|st.findings|]);
        }
      }
      if next.findings == st.findings { NothingRecorded(env, entities, n - 1); }
    }
  }

  lemma NothingStands(env: Env, entities: seq<Json>, id: string, value: string)
    ensures !StandsFor(env, entities, 0, id, value)
  {
    hide Reached;
  }

  lemma NothingRecorded(env: Env, entities: seq<Json>, m: nat)
    requires m < |entities| && Reached(env, entities, m).Ok? && Reached(env, entities, m + 1).Ok?
    requires Reached(env, entities, m + 1).value.findings == Reached(env, entities, m).value.findings
    ensures forall f :: !Records(env, entities, m, f)
  {
    hide Reached;
  }

  // --- Rows ---

  const SEPARATORS := "._ -"

  /** The text of a relationship type. */
  predicate IsKind(s: string) {
    1 <= |s| <= 64 && IsAlphanumeric(s[0]) && forall c :: c in s ==> IsAlphanumeric(c) || c in SEPARATORS
  }

  lemma KindIff(s: string)
    ensures IsRelationshipType(s) <==> IsKind(s)
  {
    assert forall c :: c in SEPARATORS <==> c in {'.', '_', ' ', '-'};
    assert forall i :: 0 <= i < |s| ==> s[i] in s;
  }

  /** The id in a field as text; a field that is absent is the empty text. */
  function IdText(env: Env, fields: map<string, Json>, name: string): string {
    if name !in fields then env.str(Str("")) else env.str(fields[name])
  }

  /** The row is that relationship: its first id stands for the source and its second for the target. */
  ghost predicate Joins(env: Env, ids: map<string, string>, row: Json, r: Relationship) {
    && row.Object?
    && IdText(env, row.fields, "entity_a_id") in ids && ids[IdText(env, row.fields, "entity_a_id")] == r.source
    && IdText(env, row.fields, "entity_b_id") in ids && ids[IdText(env, row.fields, "entity_b_id")] == r.target
    && r.source != "" && r.target != ""
    && IsText(env, Get(row.fields, "relationship_type"), 64, r.kind) && IsKind(r.kind)
    && IsConfidence(env, Get(row.fields, "confidence"), r.confidence)
  }

  lemma IdTextIs(env: Env, fields: map<string, Json>, name: string)
    ensures IdText(env, fields, name) == env.str(GetOr(fields, name))
  {
  }

  lemma RelationshipIff(env: Env, ids: map<string, string>, row: Json, r: Relationship)
    requires RelationshipOf(env, ids, row).Ok?
    ensures RelationshipOf(env, ids, row) == Ok(Some(r)) <==> Joins(env, ids, row, r)
  {
    hide BoundedText, Confidence, IsText, IsConfidence, IsRelationshipType, IsKind, Get, GetOr, IdText;
    if row.Object? {
      IdTextIs(env, row.fields, "entity_a_id");
      IdTextIs(env, row.fields, "entity_b_id");
      var kind := BoundedText(env, Get(row.fields, "relationship_type"), 64);
      forall t ensures kind == Ok(Some(t)) <==> IsText(env, Get(row.fields, "relationship_type"), 64, t) {
        TextIff(env, Get(row.fields, "relationship_type"), 64, t);
      }
      forall c ensures Confidence(env, Get(row.fields, "confidence")) == Ok(c) <==>
                       IsConfidence(env, Get(row.fields, "confidence"), c)
      {
        ConfidenceIff(env, Get(row.fields, "confidence"), c);
      }
      KindIff(r.kind);
      if kind.Ok? && kind.value.Some? { KindIff(kind.value.value); }
    }
  }

  ghost predicate Increasing(index: seq<nat>) {
    forall i, j :: 0 <= i < j < |index| ==> index[i] < index[j]
  }

  /** The relationships are those of the rows at the given places, in order, and no row before the limit
      of 500 is passed over that joins two ids. */
  ghost predicate AreRows(env: Env, ids: map<string, string>, rows: seq<Json>, rs: seq<Relationship>, index: seq<nat>) {
    && |index| == |rs| && Increasing(index)
    && (forall i :: 0 <= i < |rs| ==> index[i] < |rows| && Joins(env, ids, rows[index[i]], rs[i]))
    && (forall m, r :: 0 <= m < |rows| && Joins(env, ids, rows[m], r) ==>
          m in index || (|rs| == 500 && forall i :: 0 <= i < |index| ==> index[i] < m))
  }

  lemma {:induction false} RowsFrom(env: Env, ids: map<string, string>, rows: seq<Json>, n: nat,
                                    found: seq<Relationship>, index: seq<nat>)
      returns (more: seq<nat>)
    requires n <= |rows| && |found| <= 500 && ScanRows(env, ids, rows[n..], found).Ok?
    requires AreRows(env, ids, rows[..n], found, index)
    ensures AreRows(env, ids, rows, ScanRows(env, ids, rows[n..], found).value, more)
    decreases |rows| - n
  {
    hide RelationshipOf, Joins, AreRows;
    if n == |rows| {
      more := index;
      assert rows[..n] == rows;
    } else if |found| >= MAX_RELATIONSHIPS {
      more := index;
      RowsFull(env, ids, rows, n, found, index);
    } else {
      assert rows[n..][0] == rows[n] && rows[n..][1..] == rows[n + 1..];
      var r := RelationshipOf(env, ids, rows[n]);
      forall x ensures r == Ok(Some(x)) <==> Joins(env, ids, rows[n], x) { RelationshipIff(env, ids, rows[n], x); }
      if r.value.None? {
        RowSkipped(env, ids, rows, n, found, index);
        more := RowsFrom(env, ids, rows, n + 1, found, index);
      } else {
        RowAdded(env, ids, rows, n, found, index, r.value.value);
        more := RowsFrom(env, ids, rows, n + 1, found + [r.value.value], index + [n]);
      }
    }
  }

  lemma RowsFull(env: Env, ids: map<string, string>, rows: seq<Json>, n: nat, found: seq<Relationship>, index: seq<nat>)
    requires n <= |rows| && |found| == 500 && AreRows(env, ids, rows[..n], found, index)
    ensures AreRows(env, ids, rows, found, index)
  {
    hide Joins;
    assert forall m :: 0 <= m < n ==> rows[..n][m] == rows[m];
  }

  lemma RowSkipped(env: Env, ids: map<string, string>, rows: seq<Json>, n: nat, found: seq<Relationship>,
                   index: seq<nat>)
    requires n < |rows| && AreRows(env, ids, rows[..n], found, index) && forall r :: !Joins(env, ids, rows[n], r)
    ensures AreRows(env, ids, rows[..n + 1], found, index)
  {
    hide Joins;
    assert forall m :: 0 <= m < n ==> rows[..n][m] == rows[..n + 1][m];
  }

  lemma RowAdded(env: Env, ids: map<string, string>, rows: seq<Json>, n: nat, found: seq<Relationship>,
                 index: seq<nat>, r: Relationship)
    requires n < |rows| && AreRows(env, ids, rows[..n], found, index) && Joins(env, ids, rows[n], r) && |found| < 500
    ensures AreRows(env, ids, rows[..n + 1], found + [r], index + [n])
  {
    hide Joins;
    assert forall m :: 0 <= m < n ==> rows[..n][m] == rows[..n + 1][m];
    assert (index + [n])[|index|] == n;
    var upto, places := rows[..n + 1], index + [n];
    assert forall m, x :: 0 <= m < |upto| && Joins(env, ids, upto[m], x) ==> m in places;
  }

  /** The relationships of a report: exactly those of the rows that join two ids, in order, as long as
      there are not 500 of them; an id stands for the value last recorded under it. */
  lemma RowsReported(env: Env, raw: map<string, Json>) returns (ids: map<string, string>, index: seq<nat>)
    requires Normalized(env, raw).Ok?
    ensures AreRows(env, ids, FirstItems(Get(raw, "relationships"), 2000), Normalized(env, raw).value.relationships,
                    index)
    ensures var entities := FirstItems(Get(raw, "entities"), 2000);
            forall id, value :: id in ids && ids[id] == value <==> StandsFor(env, entities, |entities|, id, value)
  {
    hide AreRows, Joins, Normalized, ScanRows, Reached, FirstItems, StandsFor;
    var entities, rows := FirstItems(Get(raw, "entities"), 2000), FirstItems(Get(raw, "relationships"), 2000);
    AllReached(env, raw);
    ids := Reached(env, entities, |entities|).value.idToValue;
    forall id, value ensures id in ids && ids[id] == value <==> StandsFor(env, entities, |entities|, id, value) {
      IdsStand(env, entities, |entities|, id, value);
    }
    NoRows(env, ids, rows);
    assert rows[0..] == rows;
    index := RowsFrom(env, ids, rows, 0, [], []);
  }

  lemma NoRows(env: Env, ids: map<string, string>, rows: seq<Json>)
    ensures AreRows(env, ids, rows[..0], [], [])
  {
  }
}
