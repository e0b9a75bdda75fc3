/** `verify_request` of the dark-web worker: the signature of a request, the 60 second skew window and
    the table of signatures seen in the last 120 seconds. */
module ReplayWindow {
  import opened Outcomes
  import opened Sets
  import Utf8

  /** A Python string without lone surrogates, as code points. */
  type CodePoint = c: nat | c < 0xD800 || 0xE000 <= c < 0x110000

  type Text = seq<CodePoint>

  const SKEW := 60.0
  const RETENTION := 120.0
  const TABLE := 1024

  // --- Encoding ---

  function Encode(s: Text): seq<nat> {
    if |s| == 0 then [] else Utf8.Octets(s[0]) + Encode(s[1..])
  }

  lemma {:induction false} DecodeEncode(s: Text)
    ensures Utf8.Decode(Encode(s)) == Some(s)
  {
    if |s| == 0 {
    } else {
      hide Utf8.CharLength, Utf8.CharNumber, Utf8.Octets;
      var octets, rest := Utf8.Octets(s[0]), Encode(s[1..]);
      Utf8.OctetsDecode(s[0], rest);
      Utf8.SomeOctets(s[0]);
      assert (octets + rest)[|octets|..] == rest;
      DecodeEncode(s[1..]);
      assert s == [s[0]] + s[1..];
    }
  }

  lemma EncodeInjective(s: Text, t: Text)
    requires Encode(s) == Encode(t)
    ensures s == t
  {
    hide Encode, Utf8.Decode;
    DecodeEncode(s);
    DecodeEncode(t);
  }

  /** Only a newline has the octet of a newline. */
  lemma {:induction false} OneLine(s: Text)
    requires 10 !in s
    ensures 10 !in Encode(s)
  {
    if |s| == 0 {
    } else {
      OneLine(s[1..]);
    }
  }

  // --- Requests ---

  /** The surroundings: the shared secret, HMAC-SHA256 in hexadecimal, and Python's string methods.
      `toInt` is None where `int` raises. */
  datatype Env = Env(secret: seq<nat>, mac: (seq<nat>, seq<nat>) -> Text, isDigit: Text -> bool,
                     toInt: Text -> Option<int>, upper: Text -> Text)

  datatype Request = Request(timestamp: Text, signature: Text, verb: Text, path: Text, body: seq<nat>)

  function Message(env: Env, r: Request): seq<nat> {
    Encode(r.timestamp) + [10] + Encode(env.upper(r.verb)) + [10] + Encode(r.path) + [10] + r.body
  }

  predicate IsAscii(s: Text) { forall c :: c in s ==> c < 128 }

  /** A text is ASCII exactly when each of its characters is one octet. */
  lemma {:induction false} AsciiIff(s: Text)
    ensures |Encode(s)| >= |s|
    ensures IsAscii(s) <==> |Encode(s)| == |s|
  {
    if |s| == 0 {
      assert Encode(s) == [];
    } else {
      hide Utf8.Octets;
      AsciiIff(s[1..]);
      OneOctetIff(s[0]);
      AsciiNext(s);
    }
  }

  lemma AsciiNext(s: Text)
    requires |s| > 0
    ensures IsAscii(s) <==> s[0] < 128 && IsAscii(s[1..])
  {
    if IsAscii(s) {
      assert s[0] in s;
      forall c: CodePoint | c in s[1..] ensures c < 128 { assert c in s; }
    }
    if s[0] < 128 && IsAscii(s[1..]) {
      forall c: CodePoint | c in s ensures c < 128 { assert c == s[0] || c in s[1..]; }
    }
  }

  lemma OneOctetIff(c: CodePoint)
    ensures |Utf8.Octets(c)| >= 1 && (|Utf8.Octets(c)| == 1 <==> c < 128)
  {
  }

  /** The message determines the timestamp, which is on a line of its own. */
  lemma MessageHasTimestamp(env: Env, r: Request, s: Request)
    requires 10 !in r.timestamp && 10 !in s.timestamp
    requires Message(env, r) == Message(env, s)
    ensures r.timestamp == s.timestamp
  {
    hide Encode;
    OneLine(r.timestamp);
    OneLine(s.timestamp);
    var x := Encode(env.upper(r.verb)) + [10] + (Encode(r.path) + [10] + r.body);
    var y := Encode(env.upper(s.verb)) + [10] + (Encode(s.path) + [10] + s.body);
    MessageParts(env, r);
    MessageParts(env, s);
    FirstLine(Encode(r.timestamp), Encode(s.timestamp), x, y);
    EncodeInjective(r.timestamp, s.timestamp);
  }

  lemma MessageParts(env: Env, r: Request)
    ensures Message(env, r) ==
            Encode(r.timestamp) + [10] + (Encode(env.upper(r.verb)) + [10] + (Encode(r.path) + [10] + r.body))
  {
    hide Encode;
  }

  lemma FirstLine(a: seq<nat>, b: seq<nat>, x: seq<nat>, y: seq<nat>)
    requires 10 !in a && 10 !in b && a + [10] + x == b + [10] + y
    ensures a == b && x == y
  {
    var all := a + [10] + x;
    assert all[|a|] == 10 && all[|b|] == 10;
    assert forall i :: 0 <= i < |a| ==> all[i] == a[i];
    assert forall i :: 0 <= i < |b| ==> all[i] == b[i];
    assert x == all[|a| + 1..] && y == all[|b| + 1..];
  }

  /** Timestamp, verb and path are one line each. */
  predicate InLines(env: Env, r: Request) {
    10 !in r.timestamp && 10 !in env.upper(r.verb) && 10 !in r.path
  }

  /** The message says everything of a request: the newlines keep its parts apart. */
  lemma MessageIsRequest(env: Env, r: Request, s: Request)
    requires InLines(env, r) && InLines(env, s)
    ensures Message(env, r) == Message(env, s) <==>
      r.timestamp == s.timestamp && env.upper(r.verb) == env.upper(s.verb) && r.path == s.path && r.body == s.body
  {
    hide Encode, Message;
    MessageParts(env, r);
    MessageParts(env, s);
    if Message(env, r) == Message(env, s) {
      MessageHasTimestamp(env, r, s);
      var v, w := env.upper(r.verb), env.upper(s.verb);
      var x, y := Encode(r.path) + [10] + r.body, Encode(s.path) + [10] + s.body;
      OneLine(r.timestamp);
      OneLine(s.timestamp);
      FirstLine(Encode(r.timestamp), Encode(s.timestamp), Encode(v) + [10] + x, Encode(w) + [10] + y);
      OneLine(v);
      OneLine(w);
      FirstLine(Encode(v), Encode(w), x, y);
      EncodeInjective(v, w);
      OneLine(r.path);
      OneLine(s.path);
      FirstLine(Encode(r.path), Encode(s.path), r.body, s.body);
      EncodeInjective(r.path, s.path);
    }
  }

  /** Why the parts must be lines: a newline in the path could as well begin the body. */
  lemma NewlineInPath(env: Env, r: Request, a: Text, b: Text, body: seq<nat>)
    ensures Message(env, r.(path := a + [10] + b, body := body))
         == Message(env, r.(path := a, body := Encode(b) + [10] + body))
  {
    hide Encode, Message;
    MessageParts(env, r.(path := a + [10] + b, body := body));
    MessageParts(env, r.(path := a, body := Encode(b) + [10] + body));
    TwoLines(a, b);
    Regrouped(Encode(a), Encode(b), body);
  }

  lemma Regrouped(x: seq<nat>, y: seq<nat>, z: seq<nat>)
    ensures x + [10] + y + [10] + z == x + [10] + (y + [10] + z)
  {
  }

  lemma TwoLines(a: Text, b: Text)
    ensures Encode(a + [10] + b) == Encode(a) + [10] + Encode(b)
  {
    hide Encode;
    EncodeConcat(a + [10], b);
    EncodeConcat(a, [10]);
    EncodeNewline();
  }

  lemma EncodeNewline()
    ensures Encode([10]) == [10]
  {
    assert Encode([]) == [];
  }

  lemma {:induction false} EncodeConcat(s: Text, t: Text)
    ensures Encode(s + t) == Encode(s) + Encode(t)
  {
    NothingEncoded();
    hide Encode;
    if |s| == 0 {
      assert s + t == t && s == [];
    } else {
      EncodeNext(s);
      EncodeNext(s + t);
      assert (s + t)[0] == s[0] && (s + t)[1..] == s[1..] + t;
      EncodeConcat(s[1..], t);
      assert Utf8.Octets(s[0]) + (Encode(s[1..]) + Encode(t)) == Utf8.Octets(s[0]) + Encode(s[1..]) + Encode(t);
    }
  }

  lemma NothingEncoded()
    ensures Encode([]) == []
  {
  }

  lemma EncodeNext(s: Text)
    requires |s| > 0
    ensures Encode(s) == Utf8.Octets(s[0]) + Encode(s[1..])
  {
  }

  // --- What is accepted ---

  function Distance(a: real, b: real): real {
    if a < b then b - a else a - b
  }

  predicate WellFormed(env: Env, r: Request) {
    |env.secret| >= 32 && env.isDigit(r.timestamp) && |r.signature| == 64
  }

  /** The timestamp is at most 60 seconds from the clock. */
  predicate InWindow(env: Env, r: Request, clock: real) {
    env.toInt(r.timestamp).Some? && Distance(clock, env.toInt(r.timestamp).value as real) <= SKEW
  }

  predicate Authentic(env: Env, r: Request) {
    r.signature == env.mac(env.secret, Message(env, r))
  }

  /** The entries that are not older than 120 seconds. */
  function Fresh(seen: map<Text, real>, now: real): map<Text, real> {
    map s | s in seen && now - seen[s] <= RETENTION :: seen[s]
  }

  /** One call: the request, whether a replay is to be rejected, and what its two clock readings give. */
  datatype Call = Call(request: Request, rejectReplay: bool, skewClock: real, clock: real)

  /** `int` or `compare_digest` raises: a timestamp of digits that is no int, or a signature that is
      compared and not ASCII. */
  predicate Raises(env: Env, c: Call) {
    var r := c.request;
    WellFormed(env, r) && (env.toInt(r.timestamp).None? || (InWindow(env, r, c.skewClock) && !IsAscii(r.signature)))
  }

  predicate Genuine(env: Env, c: Call) {
    var r := c.request;
    WellFormed(env, r) && !Raises(env, c) && InWindow(env, r, c.skewClock) && Authentic(env, r)
  }

  predicate Accepts(env: Env, seen: map<Text, real>, c: Call) {
    var recent := Fresh(seen, c.clock);
    Genuine(env, c) && (c.rejectReplay ==> c.request.signature !in recent && |recent| < TABLE)
  }

  /** The table after a call. */
  function After(env: Env, seen: map<Text, real>, c: Call): map<Text, real> {
    if !Genuine(env, c) || !c.rejectReplay then seen
    else
      var recent := Fresh(seen, c.clock);
      if Accepts(env, seen, c) then recent[c.request.signature := c.clock] else recent
  }

  /** A signature is good for one request only: whoever sends the one of an authentic request is
      accepted, or refused for the window or the table, only with the same timestamp, verb, path and
      body, unless the code has a collision. */
  lemma SignatureIsBound(env: Env, r: Request, c: Call, seen: map<Text, real>)
    requires InLines(env, r) && InLines(env, c.request) && Authentic(env, r)
    requires c.request.signature == r.signature
    requires env.mac(env.secret, Message(env, r)) == env.mac(env.secret, Message(env, c.request)) ==>
               Message(env, r) == Message(env, c.request)
    requires Accepts(env, seen, c)
    ensures c.request.timestamp == r.timestamp && env.upper(c.request.verb) == env.upper(r.verb)
    ensures c.request.path == r.path && c.request.body == r.body
  {
    hide Message, InLines, IsAscii;
    MessageIsRequest(env, r, c.request);
  }

  // --- The worker ---

  class Verifier {
    const env: Env
    var seen: map<Text, real>

    constructor (env: Env)
      ensures this.env == env && seen == map[]
    {
      this.env := env;
      seen := map[];
    }

    /** `verify_request` */
    method VerifyRequest(c: Call) returns (r: Outcome<bool>)
      modifies this
      ensures r.Throws? <==> Raises(env, c)
      ensures r.Ok? ==> (r.value <==> Accepts(env, old(seen), c))
      ensures seen == After(env, old(seen), c)
    {
      hide Message, IsAscii;
      var timestamp, signature := c.request.timestamp, c.request.signature;
      if |env.secret| < 32 || !env.isDigit(timestamp) || |signature| != 64 { return Ok(false); }
      var stamp := env.toInt(timestamp);
      if stamp.None? { return Throws; }
      if Distance(c.skewClock, stamp.value as real) > SKEW { return Ok(false); }
      var expected := env.mac(env.secret, Message(env, c.request));
      if !IsAscii(signature) { return Throws; }
      if signature != expected { return Ok(false); }
      if !c.rejectReplay { return Ok(true); }
      var stale := set s | s in seen && c.clock - seen[s] > 120.0;
      seen := seen - stale;
      assert seen == Fresh(old(seen), c.clock);
      if signature in seen { return Ok(false); }
      if |seen| >= 1024 { return Ok(false); }
      seen := seen[signature := c.clock];
      return Ok(true);
    }
  }

  // --- Runs ---

  /** The table after calls made one after the other. */
  function Table(env: Env, seen: map<Text, real>, calls: seq<Call>): map<Text, real> {
    if |calls| == 0 then seen
    else After(env, Table(env, seen, calls[..|calls| - 1]), calls[|calls| - 1])
  }

  predicate Accepted(env: Env, calls: seq<Call>, i: nat)
    requires i < |calls|
  {
    calls[i].rejectReplay && Accepts(env, Table(env, map[], calls[..i]), calls[i])
  }

  /** The second reading of a call is not before its first.  Calls are listed in the order in which
      they take the lock, which need not be the order of their readings. */
  ghost predicate Ordered(calls: seq<Call>) {
    forall i :: 0 <= i < |calls| ==> calls[i].skewClock <= calls[i].clock
  }

  /** The lock is taken in the order in which the clock was read for it. */
  ghost predicate LockedInOrder(calls: seq<Call>) {
    forall i, j :: 0 <= i < j < |calls| ==> calls[i].clock <= calls[j].clock
  }

  /** No two requests of the run have the same code for different messages, and digits are one line. */
  ghost predicate NoCollision(env: Env, calls: seq<Call>) {
    && (forall t :: env.isDigit(t) ==> 10 !in t)
    && (forall i, j :: 0 <= i < j < |calls| ==>
          env.mac(env.secret, Message(env, calls[i].request)) == env.mac(env.secret, Message(env, calls[j].request)) ==>
          Message(env, calls[i].request) == Message(env, calls[j].request))
  }

  /** The table never holds more than 1024 signatures. */
  lemma {:induction false} TableIsBounded(env: Env, calls: seq<Call>)
    ensures |Table(env, map[], calls)| <= TABLE
  {
    if |calls| == 0 {
    } else {
      hide Genuine;
      var front, last := calls[..|calls| - 1], calls[|calls| - 1];
      TableIsBounded(env, front);
      var seen := Table(env, map[], front);
      FreshIsSmaller(seen, last.clock);
    }
  }

  lemma FreshIsSmaller(seen: map<Text, real>, now: real)
    ensures |Fresh(seen, now)| <= |seen|
  {
    var recent := Fresh(seen, now);
    assert recent.Keys <= seen.Keys;
    SmallerSet(recent.Keys, seen.Keys);
  }

  /** A call that comes to the table, and so sweeps it. */
  predicate Sweeps(env: Env, c: Call) {
    Genuine(env, c) && c.rejectReplay
  }

  /** No call after the i-th and before the k-th has swept with a reading more than 120 seconds later. */
  ghost predicate Unswept(env: Env, calls: seq<Call>, i: nat, k: nat)
    requires i < k <= |calls|
  {
    forall m :: i < m < k && Sweeps(env, calls[m]) ==> calls[m].clock - calls[i].clock <= RETENTION
  }

  /** The i-th call is the last before the k-th that was accepted with its signature. */
  ghost predicate IsLatest(env: Env, calls: seq<Call>, i: nat, k: nat)
    requires i < k <= |calls|
  {
    && Accepted(env, calls, i)
    && forall m :: i < m < k && Accepted(env, calls, m) ==> calls[m].request.signature != calls[i].request.signature
  }

  lemma TableNext(env: Env, calls: seq<Call>, k: nat)
    requires k < |calls|
    ensures Table(env, map[], calls[..k + 1]) == After(env, Table(env, map[], calls[..k]), calls[k])
  {
    assert calls[..k + 1][..k] == calls[..k];
  }

  /** What a call does to a signature in the table. */
  lemma AfterIs(env: Env, seen: map<Text, real>, c: Call, sig: Text)
    ensures var after := After(env, seen, c);
            var entered := c.rejectReplay && Accepts(env, seen, c) && c.request.signature == sig;
            && (entered ==> sig in after && after[sig] == c.clock)
            && (!entered ==> (sig in after <==> sig in seen && (Sweeps(env, c) ==> c.clock - seen[sig] <= RETENTION)))
            && (!entered && sig in after ==> after[sig] == seen[sig])
  {
    hide Genuine;
  }

  /** A signature that has been accepted is in the table, with its time, exactly until a call sweeps
      it out. */
  lemma {:induction false} Remembered(env: Env, calls: seq<Call>, i: nat, k: nat)
    requires i < k <= |calls| && IsLatest(env, calls, i, k)
    ensures var sig, seen := calls[i].request.signature, Table(env, map[], calls[..k]);
            && (sig in seen <==> Unswept(env, calls, i, k))
            && (sig in seen ==> seen[sig] == calls[i].clock)
  {
    hide Sweeps, Accepts, After, Table;
    TableNext(env, calls, k - 1);
    AfterIs(env, Table(env, map[], calls[..k - 1]), calls[k - 1], calls[i].request.signature);
    if k == i + 1 {
    } else {
      Remembered(env, calls, i, k - 1);
      assert Unswept(env, calls, i, k) <==>
             Unswept(env, calls, i, k - 1)
             && (Sweeps(env, calls[k - 1]) ==> calls[k - 1].clock - calls[i].clock <= RETENTION);
    }
  }

  /** Exactly when a signature is accepted again: the call is genuine, it or a call before it in the
      order of the lock has swept the signature out, and the table is not full. */
  lemma AcceptedAgain(env: Env, calls: seq<Call>, i: nat, j: nat)
    requires i < j < |calls| && IsLatest(env, calls, i, j)
    requires calls[j].request.signature == calls[i].request.signature
    ensures Accepted(env, calls, j) <==>
      && Sweeps(env, calls[j]) && !Unswept(env, calls, i, j + 1)
      && |Fresh(Table(env, map[], calls[..j]), calls[j].clock)| < TABLE
  {
    hide Genuine, Table;
    Remembered(env, calls, i, j);
    assert Unswept(env, calls, i, j + 1) <==>
           Unswept(env, calls, i, j)
           && (Sweeps(env, calls[j]) ==> calls[j].clock - calls[i].clock <= RETENTION);
  }

  /** The last acceptance before the j-th call of a signature accepted at the i-th. */
  lemma {:induction false} Latest(env: Env, calls: seq<Call>, i: nat, j: nat) returns (l: nat)
    requires i < j <= |calls| && Accepted(env, calls, i)
    ensures i <= l < j && calls[l].request.signature == calls[i].request.signature && IsLatest(env, calls, l, j)
    decreases j
  {
    hide Accepts, Table;
    if j == i + 1 {
      l := i;
    } else if Accepted(env, calls, j - 1) && calls[j - 1].request.signature == calls[i].request.signature {
      l := j - 1;
    } else {
      l := Latest(env, calls, i, j - 1);
    }
  }

  /** A signature is accepted twice only if a call has swept the table in between, or the second call
      itself sweeps it, with a reading after the end of the window of the timestamp. */
  lemma ReplayNeedsLateSweep(env: Env, calls: seq<Call>, i: nat, j: nat)
    requires Ordered(calls) && NoCollision(env, calls) && i < j < |calls|
    requires Accepted(env, calls, i) && Accepted(env, calls, j)
    requires calls[i].request.signature == calls[j].request.signature
    ensures env.toInt(calls[j].request.timestamp).Some?
    ensures exists k :: i < k <= j && Sweeps(env, calls[k])
              && calls[k].clock > env.toInt(calls[j].request.timestamp).value as real + SKEW
  {
    hide Message, Table, Accepts;
    var l := Latest(env, calls, i, j);
    AcceptedAgain(env, calls, l, j);
    AcceptedIsGenuine(env, calls, l);
    AcceptedIsGenuine(env, calls, j);
    MessageHasTimestamp(env, calls[l].request, calls[j].request);
    var k :| l < k < j + 1 && Sweeps(env, calls[k]) && calls[k].clock - calls[l].clock > RETENTION;
  }

  lemma AcceptedIsGenuine(env: Env, calls: seq<Call>, i: nat)
    requires i < |calls| && Accepted(env, calls, i)
    ensures Genuine(env, calls[i])
  {
  }

  /** When the lock is taken in the order of the readings, the second call's own second reading is
      outside the window. */
  lemma ReplayIsLate(env: Env, calls: seq<Call>, i: nat, j: nat)
    requires Ordered(calls) && LockedInOrder(calls) && NoCollision(env, calls) && i < j < |calls|
    requires Accepted(env, calls, i) && Accepted(env, calls, j)
    requires calls[i].request.signature == calls[j].request.signature
    ensures !InWindow(env, calls[j].request, calls[j].clock)
  {
    hide Accepted, Sweeps, NoCollision;
    ReplayNeedsLateSweep(env, calls, i, j);
  }

  /** When moreover both readings of every call are one instant, no signature is accepted twice. */
  lemma NoReplay(env: Env, calls: seq<Call>, i: nat, j: nat)
    requires Ordered(calls) && LockedInOrder(calls) && NoCollision(env, calls) && i < j < |calls|
    requires forall k :: 0 <= k < |calls| ==> calls[k].skewClock == calls[k].clock
    requires Accepted(env, calls, i) && Accepted(env, calls, j)
    ensures calls[i].request.signature != calls[j].request.signature
  {
    hide Table, After;
    if calls[i].request.signature == calls[j].request.signature {
      ReplayIsLate(env, calls, i, j);
    }
  }

  /** A request that is accepted while the clock reads `clock`. */
  predicate Acceptable(env: Env, r: Request, clock: real) {
    WellFormed(env, r) && InWindow(env, r, clock) && IsAscii(r.signature) && Authentic(env, r)
  }

  lemma GenuineAt(env: Env, r: Request, now: real, c: Call)
    requires Acceptable(env, r, now) && c.request == r && InWindow(env, r, c.skewClock)
    ensures Genuine(env, c)
  {
    hide IsAscii, Authentic;
  }

  /** A genuine call whose signature is not in the table. */
  lemma Enters(env: Env, calls: seq<Call>, k: nat, seen: map<Text, real>)
    requires k < |calls| && Table(env, map[], calls[..k]) == seen
    requires Genuine(env, calls[k]) && calls[k].rejectReplay
    requires var recent := Fresh(seen, calls[k].clock); calls[k].request.signature !in recent && |recent| < TABLE
    ensures Accepted(env, calls, k)
    ensures var c := calls[k];
            Table(env, map[], calls[..k + 1]) == Fresh(seen, c.clock)[c.request.signature := c.clock]
  {
    hide Genuine, Fresh, Table;
    TableNext(env, calls, k);
  }

  lemma FreshOfNone(now: real)
    ensures Fresh(map[], now) == map[]
  {
  }

  lemma FreshOfOne(sig: Text, at: real, now: real)
    ensures Fresh(map[sig := at], now) == if now - at <= RETENTION then map[sig := at] else map[]
  {
  }

  /** The window of a request, seen from its timestamp. */
  lemma WindowIs(env: Env, r: Request, now: real)
    requires env.toInt(r.timestamp).Some?
    ensures var t := env.toInt(r.timestamp).value as real; InWindow(env, r, now) <==> t - 60.0 <= now <= t + 60.0
  {
  }

  ghost function Overtaken(r: Request, other: Request, t: real, late: real): seq<Call> {
    [Call(r, true, t - SKEW, t - SKEW), Call(other, true, late, late), Call(r, true, t + SKEW, t + SKEW)]
  }

  /** The order of the lock matters, too: with one instant for every call, another request that reads
      the clock last and takes the lock before the second copy lets that copy through, inside its own
      window. */
  lemma OvertakenAccepts(env: Env, r: Request, other: Request, delay: real)
    requires env.toInt(r.timestamp).Some? && delay > 0.0 && other.signature != r.signature
    requires var t := env.toInt(r.timestamp).value as real;
             Acceptable(env, r, t) && Acceptable(env, other, t + SKEW + delay)
    ensures var t := env.toInt(r.timestamp).value as real;
            var calls := Overtaken(r, other, t, t + SKEW + delay);
            && (forall k :: 0 <= k < |calls| ==> calls[k].skewClock == calls[k].clock)
            && Accepted(env, calls, 0) && Accepted(env, calls, 1) && Accepted(env, calls, 2)
            && InWindow(env, r, t + SKEW)
  {
    hide Acceptable, InWindow, Genuine, Fresh, Accepted, Table;
    var t := env.toInt(r.timestamp).value as real;
    var late := t + SKEW + delay;
    var calls := Overtaken(r, other, t, late);
    WindowIs(env, r, t - SKEW);
    WindowIs(env, r, t + SKEW);
    GenuineAt(env, r, t, calls[0]);
    AcceptableWindow(env, other, late);
    GenuineAt(env, other, late, calls[1]);
    GenuineAt(env, r, t, calls[2]);
    NoCalls(env, calls);
    FreshOfNone(t - SKEW);
    Enters(env, calls, 0, map[]);
    FreshOfOne(r.signature, t - SKEW, late);
    Enters(env, calls, 1, map[r.signature := t - SKEW]);
    FreshOfOne(other.signature, late, t + SKEW);
    Enters(env, calls, 2, map[other.signature := late]);
  }

  lemma AcceptableWindow(env: Env, r: Request, now: real)
    requires Acceptable(env, r, now)
    ensures InWindow(env, r, now)
  {
  }

  lemma NoCalls(env: Env, calls: seq<Call>)
    ensures Table(env, map[], calls[..0]) == map[]
  {
  }

  /** The delay between the two readings matters however small it is: for every request that can be
      accepted there is a run that accepts it twice, the second call looking at the clock again just
      after the window. */
  lemma LateReadAccepts(env: Env, r: Request, delay: real)
    requires env.toInt(r.timestamp).Some? && delay > 0.0
    requires Acceptable(env, r, env.toInt(r.timestamp).value as real)
    ensures var t := env.toInt(r.timestamp).value as real;
            var calls := [Call(r, true, t - SKEW, t - SKEW), Call(r, true, t + SKEW, t + SKEW + delay)];
            Ordered(calls) && LockedInOrder(calls) && Accepted(env, calls, 0) && Accepted(env, calls, 1)
  {
    hide Acceptable, InWindow, Genuine, Fresh, Accepted, Table;
    var t := env.toInt(r.timestamp).value as real;
    var calls := [Call(r, true, t - SKEW, t - SKEW), Call(r, true, t + SKEW, t + SKEW + delay)];
    WindowIs(env, r, t - SKEW);
    WindowIs(env, r, t + SKEW);
    GenuineAt(env, r, t, calls[0]);
    GenuineAt(env, r, t, calls[1]);
    NoCalls(env, calls);
    FreshOfNone(t - SKEW);
    Enters(env, calls, 0, map[]);
    FreshOfOne(r.signature, t - SKEW, t + SKEW + delay);
    Enters(env, calls, 1, map[r.signature := t - SKEW]);
  }
}
