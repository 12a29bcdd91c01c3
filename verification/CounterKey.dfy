/** Counter key names: which strings name a counter, that no two counters share a
    name, and which shard a name hashes to. */
module CounterKey {
  import opened Windows

  /** The identity tuple of a limit. */
  datatype LimitKey = LimitKey(service: string, customer: string, rateLimitId: string)

  predicate LowerOrDigit(c: char) {
    'a' <= c <= 'z' || '0' <= c <= '9'
  }

  /** Matches `[a-z0-9][a-z0-9-]{0,62}`. */
  predicate ValidServiceName(s: string) {
    && 1 <= |s| <= 63
    && LowerOrDigit(s[0])
    && forall i :: 0 <= i < |s| ==> LowerOrDigit(s[i]) || s[i] == '-'
  }

  /** Matches `[a-z0-9][a-z0-9._-]{0,127}`. */
  predicate ValidRateLimitId(s: string) {
    && 1 <= |s| <= 128
    && LowerOrDigit(s[0])
    && forall i :: 0 <= i < |s| ==> LowerOrDigit(s[i]) || s[i] == '.' || s[i] == '_' || s[i] == '-'
  }

  const DEFAULT_CUSTOMER: string := "*"

  /** Any non-empty id up to 128 characters; the default marker is one of them. */
  predicate ValidCustomerId(s: string) {
    s == DEFAULT_CUSTOMER || 1 <= |s| <= 128
  }

  predicate ValidKey(k: LimitKey) {
    ValidServiceName(k.service) && ValidCustomerId(k.customer) && ValidRateLimitId(k.rateLimitId)
  }

  lemma CharacterClass(c: char)
    ensures LowerOrDigit(c) <==> c in "abcdefghijklmnopqrstuvwxyz" || c in "0123456789"
  {
    if 'a' <= c <= 'z' { assert "abcdefghijklmnopqrstuvwxyz"[c as int - 'a' as int] == c; }
    if '0' <= c <= '9' { assert "0123456789"[c as int - '0' as int] == c; }
  }

  /** The validator's patterns, spelled out: at most 63 or 128 characters, the first a small letter or a digit, and
      each further one that or one of the marks. */
  lemma PatternsSpelledOut(s: string)
    ensures ValidServiceName(s) <==>
            && s != "" && |s| <= 63
            && forall i :: 0 <= i < |s| ==>
                 s[i] in "abcdefghijklmnopqrstuvwxyz" || s[i] in "0123456789" || (i > 0 && s[i] in "-")
    ensures ValidRateLimitId(s) <==>
            && s != "" && |s| <= 128
            && forall i :: 0 <= i < |s| ==>
                 s[i] in "abcdefghijklmnopqrstuvwxyz" || s[i] in "0123456789" || (i > 0 && s[i] in "._-")
    ensures ValidCustomerId(s) <==> s != "" && |s| <= 128
  {
    hide LowerOrDigit;
    forall i | 0 <= i < |s|
      ensures LowerOrDigit(s[i]) <==> s[i] in "abcdefghijklmnopqrstuvwxyz" || s[i] in "0123456789"
    {
      CharacterClass(s[i]);
    }
    assert forall i :: 0 <= i < |s| ==> (s[i] in "._-" <==> s[i] == '.' || s[i] == '_' || s[i] == '-');
  }

  function Body(k: LimitKey): string {
    k.service + "|" + k.customer + "|" + k.rateLimitId
  }

  /** `rl:{<svc>|<cust>|<rlid>}:cnt:<window_id>` */
  function Name(k: LimitKey, windowId: string): string {
    "rl:{" + Body(k) + "}:cnt:" + windowId
  }

  // ---------- distinct counters have distinct names ----------

  lemma FirstSplit(a: string, b: string, a': string, b': string, c: char)
    requires c !in a && c !in a'
    requires a + [c] + b == a' + [c] + b'
    ensures a == a' && b == b'
  {
    var s := a + [c] + b;
    assert s[|a|] == c && s[|a'|] == c;
    assert forall j :: 0 <= j < |a| ==> s[j] == a[j];
    assert forall j :: 0 <= j < |a'| ==> s[j] == a'[j];
    assert a == s[..|a|] && b == s[|a| + 1..];
    assert a' == s[..|a'|] && b' == s[|a'| + 1..];
  }

  lemma LastSplit(a: string, b: string, a': string, b': string, c: char)
    requires c !in b && c !in b'
    requires a + [c] + b == a' + [c] + b'
    ensures a == a' && b == b'
  {
    var s := a + [c] + b;
    assert s[|a|] == c && s[|a'|] == c;
    assert forall j :: |a| < j < |s| ==> s[j] == b[j - |a| - 1];
    assert forall j :: |a'| < j < |s| ==> s[j] == b'[j - |a'| - 1];
    assert a == s[..|a|] && b == s[|a| + 1..];
    assert a' == s[..|a'|] && b' == s[|a'| + 1..];
  }

  /** Equal names come from equal parts, whatever characters the customer id holds. */
  lemma NameInjective(k: LimitKey, w: string, k': LimitKey, w': string)
    requires ValidServiceName(k.service) && ValidServiceName(k'.service)
    requires ValidRateLimitId(k.rateLimitId) && ValidRateLimitId(k'.rateLimitId)
    requires AllDigits(w) && AllDigits(w')
    requires Name(k, w) == Name(k', w')
    ensures k == k' && w == w'
  {
    var a, a' := "rl:{" + Body(k) + "}:cnt", "rl:{" + Body(k') + "}:cnt";
    assert Name(k, w) == a + ":" + w && Name(k', w') == a' + ":" + w';
    LastSplit(a, w, a', w', ':');
    assert Body(k) == a[4..|a| - 5] && Body(k') == a'[4..|a'| - 5];
    assert Body(k) == k.service + "|" + (k.customer + "|" + k.rateLimitId);
    assert Body(k') == k'.service + "|" + (k'.customer + "|" + k'.rateLimitId);
    FirstSplit(k.service, k.customer + "|" + k.rateLimitId, k'.service, k'.customer + "|" + k'.rateLimitId, '|');
    LastSplit(k.customer, k.rateLimitId, k'.customer, k'.rateLimitId, '|');
  }

  /** Where each part stands in a key: the service right after the opening brace, the customer after it, and
      the rate limit and the window at the end. */
  lemma NameLayout(k: LimitKey, w: string)
    ensures
      var name := Name(k, w);
      var customer, rest := 5 + |k.service|, |name| - |w| - 6 - |k.rateLimitId|;
      && name[..4] == "rl:{"
      && name[4..customer] == k.service + "|"
      && customer <= rest - 1 && name[customer..rest - 1] == k.customer && name[rest - 1] == '|'
      && name[rest..] == k.rateLimitId + "}:cnt:" + w
  {
    var name := Name(k, w);
    var customer, rest := 5 + |k.service|, |name| - |w| - 6 - |k.rateLimitId|;
    assert name == "rl:{" + (k.service + "|") + (k.customer + "|" + (k.rateLimitId + "}:cnt:" + w));
    assert name == ("rl:{" + k.service + "|" + k.customer + "|") + (k.rateLimitId + "}:cnt:" + w);
  }

  /** One counter: a limit and one of its windows, named by the window's first instant. */
  datatype Counter = Counter(key: LimitKey, unit: TimeUnit, start: Instant)

  /** The counter an instant of a limit falls on. */
  function CounterAt(key: LimitKey, unit: TimeUnit, now: Instant): Counter {
    Counter(key, unit, WindowStart(now, unit))
  }

  /** Counters the data plane can name: a row matched the service and the rate limit id. */
  predicate Nameable(c: Counter) {
    && c.unit != Unspecified
    && ValidServiceName(c.key.service) && ValidRateLimitId(c.key.rateLimitId)
    && FourDigitYear(c.start)
    && WindowStart(c.start, c.unit) == c.start
  }

  function CounterName(c: Counter): string {
    Name(c.key, WindowId(CivilOf(c.start), c.unit))
  }

  lemma StartHasTheSameId(now: Instant, unit: TimeUnit)
    requires unit != Unspecified && FourDigitYear(now)
    ensures FourDigitYear(WindowStart(now, unit))
    ensures WindowStart(WindowStart(now, unit), unit) == WindowStart(now, unit)
    ensures WindowReset(WindowStart(now, unit), unit) == WindowReset(now, unit)
    ensures WindowId(CivilOf(WindowStart(now, unit)), unit) == WindowId(CivilOf(now), unit)
  {
    var start := WindowStart(now, unit);
    WindowContains(now, unit);
    SameWindow(now, start, unit);
    IdsNameWindows(now, start, unit);
  }

  /** No two distinct (service, customer, rate limit, unit, window) ever share a counter key. */
  lemma CounterNameInjective(c: Counter, c': Counter)
    requires Nameable(c) && Nameable(c')
    ensures CounterName(c) == CounterName(c') ==> c == c'
  {
    var w, w' := WindowId(CivilOf(c.start), c.unit), WindowId(CivilOf(c'.start), c'.unit);
    IdsNameWindows(c.start, c.start, c.unit);
    IdsNameWindows(c'.start, c'.start, c'.unit);
    if CounterName(c) == CounterName(c') {
      NameInjective(c.key, w, c'.key, w');
      assert IdLength(c.unit) == IdLength(c'.unit);
      IdsNameWindows(c.start, c'.start, c.unit);
    }
  }

  // ---------- one hash tag per limit ----------

  function IndexFrom(s: string, c: char, i: nat): (r: nat)
    requires i <= |s|
    ensures i <= r <= |s|
    ensures r < |s| ==> s[r] == c
    ensures forall j :: i <= j < r ==> s[j] != c
    decreases |s| - i
  {
    if i == |s| || s[i] == c then i else IndexFrom(s, c, i + 1)
  }

  /** The bytes Redis Cluster hashes: between the first `{` and the next `}` when there are any, else all. */
  function HashTag(key: string): string {
    var open := IndexFrom(key, '{', 0);
    if open == |key| then key
    else
      var close := IndexFrom(key, '}', open + 1);
      if close == |key| || close == open + 1 then key else key[open + 1..close]
  }

  /** Searching from the end of a prefix finds the first occurrence in what follows. */
  lemma IndexAfter(prefix: string, s: string, suffix: string, c: char)
    requires suffix != "" && suffix[0] == c
    ensures IndexFrom(prefix + s + suffix, c, |prefix|) == |prefix| + IndexFrom(s, c, 0)
  {
    var n, whole := |prefix|, prefix + s + suffix;
    var i := IndexFrom(s, c, 0);
    assert forall j :: 0 <= j < |s| ==> whole[n + j] == s[j];
    assert whole[n + i] == c;
    assert forall j :: n <= j < n + i ==> whole[j] == s[j - n];
  }

  /** A key with one opening brace before its body is tagged by the body up to its first closing brace. */
  lemma TagAfterBrace(before: string, body: string, after: string)
    requires '{' !in before && body != "" && body[0] != '}' && after != "" && after[0] == '}'
    ensures HashTag(before + "{" + body + after) == body[..IndexFrom(body, '}', 0)]
  {
    hide IndexFrom;
    var key, prefix := before + "{" + body + after, before + "{";
    var close := IndexFrom(body, '}', 0);
    IndexAfter("", before, "{" + body + after, '{');
    assert key == "" + before + ("{" + body + after);
    assert IndexFrom(key, '{', 0) == |before|;
    IndexAfter(prefix, body, after, '}');
    assert key[|prefix|..|prefix| + close] == body[..close];
  }

  /** The tag is the body of the key up to the first closing brace in it. */
  lemma TagOfName(k: LimitKey, w: string)
    requires ValidServiceName(k.service)
    ensures HashTag(Name(k, w)) == Body(k)[..IndexFrom(Body(k), '}', 0)]
  {
    hide IndexFrom, HashTag;
    assert Body(k)[0] == k.service[0];
    TagAfterBrace("rl:", Body(k), "}:cnt:" + w);
    assert Name(k, w) == "rl:" + "{" + Body(k) + ("}:cnt:" + w);
  }

  /** Every window of one limit hashes to one slot. */
  lemma OneTagPerLimit(k: LimitKey, w: string, w': string)
    requires ValidServiceName(k.service)
    ensures HashTag(Name(k, w)) == HashTag(Name(k, w'))
  {
    TagOfName(k, w);
    TagOfName(k, w');
  }

  /** The tag is the whole identity tuple exactly when the customer id holds no closing brace. */
  lemma TagIsTheTuple(k: LimitKey, w: string)
    requires ValidServiceName(k.service) && ValidRateLimitId(k.rateLimitId)
    ensures HashTag(Name(k, w)) == Body(k) <==> '}' !in k.customer
  {
    hide HashTag, Name;
    TagOfName(k, w);
    var body := Body(k);
    var n := |k.service| + 1;
    assert body[n..n + |k.customer|] == k.customer;
    if '}' in k.customer {
      var i :| 0 <= i < |k.customer| && k.customer[i] == '}';
      assert body[n + i] == '}';
    } else {
      assert '}' !in body;
    }
  }
}
