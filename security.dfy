/** utils/security.ts: the sanitizer, the email, phone and URL predicates, the iframe
    sandbox string and the client-side sliding-window rate limiter. */
module Security {
  import opened Wrappers
  import opened JsText

  // ---------------------------------------------------------------------------------------
  // sanitizeInput

  /** `sanitizeInput`: delete `<` and `>`, then every `javascript:`, then every `on<word>=`
      (each one left-to-right pass), then trim. */
  function SanitizeInput(input: string): (r: string)
    ensures input == [] ==> r == []
    ensures '<' !in r && '>' !in r
    ensures IsTrimmed(r) && |r| <= |input|
  {
    if input == [] then []
    else
      var noTags := RemoveAll(input, AngleBracket);
      var noScheme := RemoveAll(noTags, JavascriptScheme);
      RemoveAllClass(input, AngleBracket);
      RemoveAllSubset(noTags, JavascriptScheme);
      RemoveAllSubset(noScheme, EventHandler);
      Trim(RemoveAll(noScheme, EventHandler))
  }

  /** Text in which none of the three patterns occurs only loses its surrounding whitespace. */
  lemma SanitizeInputPassThrough(s: string)
    requires NoMatch(s, AngleBracket) && NoMatch(s, JavascriptScheme) && NoMatch(s, EventHandler)
    ensures SanitizeInput(s) == Trim(s)
  {
    RemoveAllNoMatch(s, AngleBracket);
    RemoveAllNoMatch(s, JavascriptScheme);
    RemoveAllNoMatch(s, EventHandler);
  }

  // The lemmas below follow `"javaonx=script:"` through the three passes. Its pieces are
  // parameters so that the verifier reasons about them one at a time.

  lemma SchemeExampleAngle(a: string, b: string, c: string)
    requires a == "java" && b == "onx=" && c == "script:"
    ensures RemoveAll(a + b + c, AngleBracket) == a + b + c
  {
    RemoveAllKeeps(a + b + c, AngleBracket);
  }

  /** The `j` at the front does not begin `javascript:`, and there is no other `j`. */
  lemma SchemeExampleScheme(a: string, b: string, c: string)
    requires a == "java" && b == "onx=" && c == "script:"
    ensures RemoveAll(a + b + c, JavascriptScheme) == a + b + c
  {
    var t := a[1..] + (b + c);
    assert 'j' !in a[1..];
    RemoveAllKeeps(t, JavascriptScheme);
    ConsAppend(a, b + c);
    AppendAssoc(a, b, c);
    var s := [a[0]] + t;
    assert s[4] == 'o';
    StartsWithCIAt(s, "javascript:");
    RemoveAllKeepsFirst(a[0], t, JavascriptScheme);
  }

  /** `onx=` is the only handler match; deleting it joins `java` and `script:`. */
  lemma SchemeExampleHandler(a: string, b: string, c: string)
    requires a == "java" && b == "onx=" && c == "script:"
    ensures RemoveAll(a + b + c, EventHandler) == a + c
  {
    AppendAssoc(a, b, c);
    RemoveAllKeepsPrefixNoLead(a, b + c, EventHandler);
    assert b == ['o', 'n', 'x', '='];
    EventHandlerShortest('x', c);
    RemoveAllSkip(b + c, EventHandler);
    DropPrefix(b, c);
    RemoveAllKeeps(c, EventHandler);
  }

  /** Deleting the handler pattern last can assemble a new `javascript:`. */
  lemma SanitizeInputCanProduceScheme(a: string, b: string, c: string)
    requires a == "java" && b == "onx=" && c == "script:"
    ensures SanitizeInput(a + b + c) == a + c
    ensures ContainsCI(SanitizeInput(a + b + c), "javascript:")
  {
    SchemeExampleAngle(a, b, c);
    SchemeExampleScheme(a, b, c);
    SchemeExampleHandler(a, b, c);
    assert IsTrimmed(a + c);
    SchemeStartsResult(a, c);
    ContainsCIAt(a + c, "javascript:", 0);
  }

  lemma SchemeStartsResult(a: string, c: string)
    requires a == "java" && c == "script:"
    ensures StartsWithCI((a + c)[0..], "javascript:")
  {
    assert StartsWithCI(a, "java");
    assert StartsWithCI(c, "script:");
    StartsWithCIConcat(a, c, "java", "script:");
    SchemeSpelling();
    assert (a + c)[0..] == a + c;
  }

  lemma SchemeSpelling()
    ensures "java" + "script:" == "javascript:"
  {
  }

  /** The assembled `javascript:` is itself deleted by the next call. */
  lemma SanitizeInputDropsScheme(a: string, c: string)
    requires a == "java" && c == "script:"
    ensures SanitizeInput(a + c) == []
  {
    RemoveAllKeeps(a + c, AngleBracket);
    SchemeStartsResult(a, c);
    assert (a + c)[0..] == a + c;
    RemoveAllSkip(a + c, JavascriptScheme);
    assert (a + c)[11..] == [];
  }

  /** One left-to-right pass per pattern can expose a new match, so the sanitizer is not
      idempotent: a second call changes the result of the first. */
  lemma SanitizeInputNotIdempotent(a: string, b: string, c: string)
    requires a == "java" && b == "onx=" && c == "script:"
    ensures SanitizeInput(SanitizeInput(a + b + c)) != SanitizeInput(a + b + c)
  {
    SanitizeInputCanProduceScheme(a, b, c);
    SanitizeInputDropsScheme(a, c);
  }

  // ---------------------------------------------------------------------------------------
  // isValidEmail

  /** `[^\s@]` */
  predicate IsEmailAtom(c: char) {
    !IsSpace(c) && c != '@'
  }

  predicate AllEmailAtoms(s: string) {
    forall k :: 0 <= k < |s| ==> IsEmailAtom(s[k])
  }

  /** Position of the first `c` in `s`. */
  function IndexOf(s: string, c: char): (r: Option<nat>)
    ensures r.Some? ==> r.value < |s| && s[r.value] == c && c !in s[..r.value]
    ensures r.None? ==> c !in s
  {
    if s == [] then None
    else if s[0] == c then Some(0)
    else
      match IndexOf(s[1..], c)
      case None => None
      case Some(k) =>
        assert s[..k + 1] == [s[0]] + s[1..][..k];
        Some(k + 1)
  }

  /** The trimmed address splits at its first `@` into a non-empty local part and a domain,
      neither holding whitespace or `@`, with a `.` strictly inside the domain. */
  predicate HasEmailShape(t: string) {
    match IndexOf(t, '@')
    case None => false
    case Some(at) =>
      var local, domain := t[..at], t[at + 1..];
      local != [] && AllEmailAtoms(local) && AllEmailAtoms(domain)
      && |domain| >= 3 && '.' in domain[1..|domain| - 1]
  }

  /** `isValidEmail` */
  function IsValidEmail(email: string): bool {
    if email == [] then false else HasEmailShape(Trim(email))
  }

  /** What `/^[^\s@]+@[^\s@]+\.[^\s@]+$/` accepts: `t` is `L@D.E` where `L`, `D` and `E`
      are non-empty and no character other than the `@` is whitespace or `@`. */
  ghost predicate MatchesEmailRegex(t: string) {
    exists at, dot ::
      0 < at && at + 1 < dot && dot + 1 < |t| && t[at] == '@' && t[dot] == '.'
      && forall k :: 0 <= k < |t| && k != at ==> IsEmailAtom(t[k])
  }

  lemma HasEmailShapeSound(t: string)
    requires HasEmailShape(t)
    ensures MatchesEmailRegex(t)
  {
    var at := IndexOf(t, '@').value;
    var domain := t[at + 1..];
    var inner := domain[1..|domain| - 1];
    var j :| 0 <= j < |inner| && inner[j] == '.';
    var dot := at + 2 + j;
    assert t[dot] == inner[j];
    forall k | 0 <= k < |t| && k != at
      ensures IsEmailAtom(t[k])
    {
      if k < at {
        assert t[k] == t[..at][k];
      } else {
        assert t[k] == domain[k - at - 1];
      }
    }
  }

  lemma HasEmailShapeComplete(t: string)
    requires MatchesEmailRegex(t)
    ensures HasEmailShape(t)
  {
    var at, dot :| 0 < at && at + 1 < dot && dot + 1 < |t| && t[at] == '@' && t[dot] == '.'
      && forall k :: 0 <= k < |t| && k != at ==> IsEmailAtom(t[k]);
    var i := IndexOf(t, '@');
    assert t[at] in t;
    assert i.Some?;
    assert i.value == at;
    var domain := t[at + 1..];
    assert AllEmailAtoms(t[..at]) by {
      forall k | 0 <= k < at ensures IsEmailAtom(t[..at][k]) { assert t[..at][k] == t[k]; }
    }
    assert AllEmailAtoms(domain) by {
      forall k | 0 <= k < |domain| ensures IsEmailAtom(domain[k]) { assert domain[k] == t[at + 1 + k]; }
    }
    assert domain[1..|domain| - 1][dot - at - 2] == '.';
  }

  /** `isValidEmail` accepts exactly the trimmed inputs its regular expression matches. */
  lemma IsValidEmailMatchesRegex(email: string)
    ensures IsValidEmail(email) <==> MatchesEmailRegex(Trim(email))
  {
    if HasEmailShape(Trim(email)) {
      HasEmailShapeSound(Trim(email));
    }
    if MatchesEmailRegex(Trim(email)) {
      HasEmailShapeComplete(Trim(email));
    }
  }

  // ---------------------------------------------------------------------------------------
  // isValidPhone

  /** `isValidPhone`: after deleting every non-digit, 10 or 11 digits remain. */
  function IsValidPhone(phone: string): bool {
    if phone == [] then false
    else
      var digitsOnly := RemoveAll(phone, NonDigit);
      10 <= |digitsOnly| <= 11
  }

  /** Only the digits count: inserting a non-digit anywhere never changes the verdict. */
  lemma {:induction false} PhoneIgnoresNonDigit(a: string, c: char, b: string)
    requires !IsDigit(c)
    ensures IsValidPhone(a + [c] + b) == IsValidPhone(a + b)
  {
    RemoveAllConcat(a, [c] + b, NonDigit);
    RemoveAllConcat([c], b, NonDigit);
    RemoveAllConcat(a, b, NonDigit);
    assert a + [c] + b == a + ([c] + b);
    assert RemoveAll([c], NonDigit) == [] by {
      assert MatchLen(NonDigit, [c]) == 1;
      assert [c][1..] == [];
    }
    if a + b == [] {
      assert |RemoveAll(a + [c] + b, NonDigit)| == 0;
    }
  }

  /** A string of digits alone is a valid phone number exactly when it has 10 or 11 of them. */
  lemma PhoneOfDigits(s: string)
    requires forall k :: 0 <= k < |s| ==> IsDigit(s[k])
    ensures IsValidPhone(s) <==> 10 <= |s| <= 11
  {
    forall i | 0 <= i <= |s|
      ensures MatchLen(NonDigit, s[i..]) == 0
    {
      if i < |s| { assert s[i..][0] == s[i]; }
    }
    RemoveAllNoMatch(s, NonDigit);
  }

  // ---------------------------------------------------------------------------------------
  // isValidUrl

  /** What the WHATWG URL parser behind `new URL(...)` reports; the parser itself is not part
      of this model, so its result is an input. */
  datatype ParsedUrl = ParsedUrl(protocol: string, hostname: string)

  predicate IsWebProtocol(protocol: string) {
    protocol in ["http:", "https:"]
  }

  const SuspiciousPatterns: seq<string> :=
    ["javascript:", "data:", "vbscript:", "onload=", "onerror=", "<script"]

  /** `suspiciousPatterns.some(pattern => pattern.test(url))` */
  predicate IsSuspicious(url: string) {
    exists k :: 0 <= k < |SuspiciousPatterns| && ContainsCI(url, SuspiciousPatterns[k])
  }

  /** `isValidUrl(url)`: `hasWindow` says whether `window` is defined, `parsed` is the result
      of `new URL(url, window.location.origin)`, `None` when the constructor throws. */
  function IsValidUrl(url: string, hasWindow: bool, parsed: Option<ParsedUrl>): (ok: bool)
    ensures ok ==> url != [] && url != "#" && Trim(url) != [] && hasWindow
    ensures ok ==> parsed.Some? && IsWebProtocol(parsed.value.protocol)
    ensures ok ==> forall k :: 0 <= k < |SuspiciousPatterns| ==> !ContainsCI(url, SuspiciousPatterns[k])
  {
    if url == [] || url == "#" || Trim(url) == [] then false
    else if !hasWindow then false
    else
      match parsed
      case None => false
      case Some(u) =>
        if !IsWebProtocol(u.protocol) then false
        else if IsSuspicious(url) then false
        else true
  }

  /** `isValidUrl` accepts every well-formed web address that passes the blocklist. */
  lemma IsValidUrlAccepts(url: string, u: ParsedUrl)
    requires Trim(url) != [] && url != "#" && IsWebProtocol(u.protocol) && !IsSuspicious(url)
    ensures IsValidUrl(url, true, Some(u))
  {
  }

  /** A raw string carrying a blocked pattern is refused whatever the parser says. */
  lemma IsValidUrlRefusesPattern(url: string, k: nat, hasWindow: bool, parsed: Option<ParsedUrl>)
    requires k < |SuspiciousPatterns| && ContainsCI(url, SuspiciousPatterns[k])
    ensures !IsValidUrl(url, hasWindow, parsed)
  {
  }

  // ---------------------------------------------------------------------------------------
  // getSafeIframeSandbox

  /** The value of the `sandbox` attribute is a space-separated token list. */
  const SandboxTokens: seq<string> :=
    ["allow-same-origin", "allow-scripts", "allow-forms", "allow-popups",
     "allow-popups-to-escape-sandbox"]

  /** `tokens.join(' ')` */
  function JoinWithSpaces(tokens: seq<string>): (r: string)
    ensures |tokens| == 1 ==> r == tokens[0]
  {
    if tokens == [] then []
    else if |tokens| == 1 then tokens[0]
    else tokens[0] + " " + JoinWithSpaces(tokens[1..])
  }

  /** `getSafeIframeSandbox`: the five tokens above, separated by single spaces. */
  function SafeIframeSandbox(): string {
    JoinWithSpaces(SandboxTokens)
  }

  /** Every lower-case token shows up in the joined string. */
  lemma {:induction false} JoinedHasToken(tokens: seq<string>, i: nat)
    requires i < |tokens|
    requires forall k :: 0 <= k < |tokens[i]| ==> !('A' <= tokens[i][k] <= 'Z')
    ensures ContainsCI(JoinWithSpaces(tokens), tokens[i])
    decreases i
  {
    var t := tokens[i];
    if |tokens| == 1 {
      ContainsCIInfix([], t, []);
      assert [] + t + [] == t;
    } else if i == 0 {
      ContainsCIInfix([], t, " " + JoinWithSpaces(tokens[1..]));
      assert [] + t + (" " + JoinWithSpaces(tokens[1..])) == JoinWithSpaces(tokens);
    } else {
      JoinedHasToken(tokens[1..], i - 1);
      ContainsCIShift(tokens[0] + " ", JoinWithSpaces(tokens[1..]), t);
    }
  }

  /** A letter that no token holds is not in the joined string either. */
  lemma {:induction false} JoinedLacks(tokens: seq<string>, ch: char)
    requires ch != ' ' && forall i :: 0 <= i < |tokens| ==> LacksCI(tokens[i], ch)
    ensures LacksCI(JoinWithSpaces(tokens), ch)
  {
    if |tokens| > 1 {
      JoinedLacks(tokens[1..], ch);
      LacksCIAppend(tokens[0], " ", ch);
      LacksCIAppend(tokens[0] + " ", JoinWithSpaces(tokens[1..]), ch);
    }
  }

  /** The sandboxed frame may run scripts and submit forms. */
  lemma SafeIframeSandboxAllowsScriptsAndForms()
    ensures ContainsCI(SafeIframeSandbox(), "allow-scripts")
    ensures ContainsCI(SafeIframeSandbox(), "allow-forms")
  {
    JoinedHasToken(SandboxTokens, 1);
    JoinedHasToken(SandboxTokens, 2);
  }

  lemma SandboxTokensLackV()
    ensures forall i :: 0 <= i < |SandboxTokens| ==> LacksCI(SandboxTokens[i], 'v')
  {
    forall i | 0 <= i < |SandboxTokens| ensures LacksCI(SandboxTokens[i], 'v') {
      assert 'v' !in SandboxTokens[i] && 'V' !in SandboxTokens[i];
    }
  }

  /** No token with a `v` is granted, in particular neither `allow-top-navigation` nor
      `allow-top-navigation-by-user-activation`: the frame never navigates the top-level
      page. */
  lemma SafeIframeSandboxKeepsTopPage(token: string, k: nat)
    requires k < |token| && Lower(token[k]) == 'v'
    ensures !ContainsCI(SafeIframeSandbox(), token)
  {
    SandboxTokensLackV();
    JoinedLacks(SandboxTokens, 'v');
    NoCharNotContainsCI(SafeIframeSandbox(), token, k);
  }

  // ---------------------------------------------------------------------------------------
  // RateLimiter

  /** The timestamps stored for `key`: `this.attempts.get(key) || []`. */
  function Stored(attempts: map<string, seq<int>>, key: string): seq<int> {
    if key in attempts then attempts[key] else []
  }

  /** `attempts.filter(time => now - time < windowMs)`: the attempts still inside the window,
      in their original order. */
  function Recent(ts: seq<int>, now: int, windowMs: int): (r: seq<int>)
    ensures |r| <= |ts|
  {
    if ts == [] then []
    else if now - ts[0] < windowMs then [ts[0]] + Recent(ts[1..], now, windowMs)
    else Recent(ts[1..], now, windowMs)
  }

  /** `Recent` keeps exactly the timestamps inside the window. */
  lemma {:induction false} RecentMembers(ts: seq<int>, now: int, windowMs: int)
    ensures forall t :: t in Recent(ts, now, windowMs) <==> t in ts && now - t < windowMs
  {
    if ts != [] {
      RecentMembers(ts[1..], now, windowMs);
      assert ts == [ts[0]] + ts[1..];
    }
  }

  /** When every timestamp is inside the window, nothing is pruned. */
  lemma {:induction false} RecentKeepsAll(ts: seq<int>, now: int, windowMs: int)
    requires forall i :: 0 <= i < |ts| ==> now - ts[i] < windowMs
    ensures Recent(ts, now, windowMs) == ts
  {
    if ts != [] {
      assert forall i :: 0 <= i < |ts[1..]| ==> ts[1..][i] == ts[i + 1];
      RecentKeepsAll(ts[1..], now, windowMs);
      assert ts == [ts[0]] + ts[1..];
    }
  }

  /** A stale timestamp is pruned, so the filtered list is strictly shorter. */
  lemma {:induction false} RecentDropsStale(ts: seq<int>, now: int, windowMs: int, i: nat)
    requires i < |ts| && now - ts[i] >= windowMs
    ensures |Recent(ts, now, windowMs)| < |ts|
    decreases i
  {
    if i > 0 {
      assert ts[1..][i - 1] == ts[i];
      RecentDropsStale(ts[1..], now, windowMs, i - 1);
    }
  }

  /** A filter that keeps as many elements as it was given kept all of them. */
  lemma {:induction false} RecentFull(ts: seq<int>, now: int, windowMs: int)
    requires |Recent(ts, now, windowMs)| >= |ts|
    ensures Recent(ts, now, windowMs) == ts
  {
    if ts != [] && now - ts[0] < windowMs {
      RecentFull(ts[1..], now, windowMs);
      assert ts == [ts[0]] + ts[1..];
    }
  }

  /** Result of one `isAllowed` call: the answer and the map afterwards. */
  datatype Admission = Admission(allowed: bool, attempts: map<string, seq<int>>)

  /** `isAllowed(key)` at time `now` on the map `attempts`. */
  function Admit(attempts: map<string, seq<int>>, key: string, now: int, maxAttempts: int,
                 windowMs: int): (a: Admission)
    ensures a.allowed <==> |Recent(Stored(attempts, key), now, windowMs)| < maxAttempts
    ensures !a.allowed ==> a.attempts == attempts
    ensures a.allowed ==> Stored(a.attempts, key) == Recent(Stored(attempts, key), now, windowMs) + [now]
    ensures forall k :: k != key ==> Stored(a.attempts, k) == Stored(attempts, k)
  {
    var recentAttempts := Recent(Stored(attempts, key), now, windowMs);
    if |recentAttempts| >= maxAttempts then Admission(false, attempts)
    else Admission(true, attempts[key := recentAttempts + [now]])
  }

  /** No key holds more than `maxAttempts` timestamps. */
  predicate Bounded(attempts: map<string, seq<int>>, maxAttempts: int) {
    forall k :: k in attempts ==> |attempts[k]| <= maxAttempts
  }

  /** Every call keeps the bound: a key is only written when it held fewer than `maxAttempts`
      recent timestamps. */
  lemma AdmitKeepsBound(attempts: map<string, seq<int>>, key: string, now: int,
                        maxAttempts: int, windowMs: int)
    requires Bounded(attempts, maxAttempts)
    ensures Bounded(Admit(attempts, key, now, maxAttempts, windowMs).attempts, maxAttempts)
  {
    var a := Admit(attempts, key, now, maxAttempts, windowMs);
    forall k | k in a.attempts ensures |a.attempts[k]| <= maxAttempts {
      assert Stored(a.attempts, k) == a.attempts[k];
    }
  }

  /** A denial leaves stale timestamps in the map, but on a bounded map there are none: a key
      is denied only when all of its at most `maxAttempts` timestamps are recent. */
  lemma DenialPrunesNothing(attempts: map<string, seq<int>>, key: string, now: int,
                            maxAttempts: int, windowMs: int)
    requires Bounded(attempts, maxAttempts)
    requires !Admit(attempts, key, now, maxAttempts, windowMs).allowed
    ensures Recent(Stored(attempts, key), now, windowMs) == Stored(attempts, key)
  {
    RecentFull(Stored(attempts, key), now, windowMs);
  }

  /** The variant that stores the pruned list whatever the answer. */
  function AdmitPruning(attempts: map<string, seq<int>>, key: string, now: int,
                        maxAttempts: int, windowMs: int): Admission
  {
    var recentAttempts := Recent(Stored(attempts, key), now, windowMs);
    if |recentAttempts| >= maxAttempts then Admission(false, attempts[key := recentAttempts])
    else Admission(true, attempts[key := recentAttempts + [now]])
  }

  /** On every bounded map the two variants give the same answer and the same stored lists,
      so the missing write-back on denial cannot be observed. */
  lemma PruningUnobservable(attempts: map<string, seq<int>>, key: string, now: int,
                            maxAttempts: int, windowMs: int)
    requires Bounded(attempts, maxAttempts)
    ensures AdmitPruning(attempts, key, now, maxAttempts, windowMs).allowed
         == Admit(attempts, key, now, maxAttempts, windowMs).allowed
    ensures forall k :: Stored(AdmitPruning(attempts, key, now, maxAttempts, windowMs).attempts, k)
                     == Stored(Admit(attempts, key, now, maxAttempts, windowMs).attempts, k)
  {
    if !Admit(attempts, key, now, maxAttempts, windowMs).allowed {
      DenialPrunesNothing(attempts, key, now, maxAttempts, windowMs);
    }
  }

  /** Once one of the key's timestamps has left the window, the key is admitted again without
      `reset`. */
  lemma StaleAttemptReadmits(attempts: map<string, seq<int>>, key: string, now: int,
                             maxAttempts: int, windowMs: int, i: nat)
    requires Bounded(attempts, maxAttempts)
    requires i < |Stored(attempts, key)| && now - Stored(attempts, key)[i] >= windowMs
    ensures Admit(attempts, key, now, maxAttempts, windowMs).allowed
  {
    RecentDropsStale(Stored(attempts, key), now, windowMs, i);
  }

  /** `reset(key)`: `this.attempts.delete(key)`. */
  function Forget(attempts: map<string, seq<int>>, key: string): (r: map<string, seq<int>>)
    ensures Stored(r, key) == [] && key !in r
    ensures forall k :: k != key ==> Stored(r, k) == Stored(attempts, k)
  {
    attempts - {key}
  }

  /** Answers of successive `isAllowed(key)` calls at the given times, and the final map. */
  datatype Trace = Trace(answers: seq<bool>, attempts: map<string, seq<int>>)

  function Replay(attempts: map<string, seq<int>>, key: string, times: seq<int>,
                  maxAttempts: int, windowMs: int): (t: Trace)
    ensures |t.answers| == |times|
    decreases |times|
  {
    if times == [] then Trace([], attempts)
    else
      var a := Admit(attempts, key, times[0], maxAttempts, windowMs);
      var rest := Replay(a.attempts, key, times[1..], maxAttempts, windowMs);
      Trace([a.allowed] + rest.answers, rest.attempts)
  }

  /** The timestamps are in clock order and all lie within one window of each other. */
  predicate WithinOneWindow(ts: seq<int>, windowMs: int) {
    forall i, j :: 0 <= i < j < |ts| ==> 0 <= ts[j] - ts[i] < windowMs
  }

  /** Within one window, the key's stored timestamps are all still recent at the first call. */
  lemma BurstStartsRecent(s: seq<int>, times: seq<int>, windowMs: int)
    requires times != [] && WithinOneWindow(s + times, windowMs)
    ensures Recent(s, times[0], windowMs) == s
  {
    var all := s + times;
    forall i | 0 <= i < |s| ensures times[0] - s[i] < windowMs {
      assert all[i] == s[i] && all[|s|] == times[0];
    }
    RecentKeepsAll(s, times[0], windowMs);
  }

  lemma ShiftOne(s: seq<int>, times: seq<int>)
    requires times != []
    ensures (s + [times[0]]) + times[1..] == s + times
  {
  }

  lemma PrependTrue(n: nat)
    ensures [true] + (seq(n, _ => true) + [false]) == seq(n + 1, _ => true) + [false]
  {
  }

  /** Calls that all fall within one window of the key's stored timestamps are admitted
      until the key holds `maxAttempts` of them; the next one is denied. */
  lemma {:induction false} BurstThenDenied(attempts: map<string, seq<int>>, key: string,
                                           times: seq<int>, maxAttempts: int, windowMs: int)
    requires times != [] && |Stored(attempts, key)| + |times| == maxAttempts + 1
    requires WithinOneWindow(Stored(attempts, key) + times, windowMs)
    ensures Replay(attempts, key, times, maxAttempts, windowMs).answers
         == seq(|times| - 1, _ => true) + [false]
    decreases |times|
  {
    var s := Stored(attempts, key);
    BurstStartsRecent(s, times, windowMs);
    if |times| > 1 {
      var a := Admit(attempts, key, times[0], maxAttempts, windowMs);
      ShiftOne(s, times);
      BurstThenDenied(a.attempts, key, times[1..], maxAttempts, windowMs);
      PrependTrue(|times| - 2);
    }
  }

  /** A key with nothing stored, called `maxAttempts + 1` times at the same instant with a
      positive window: `maxAttempts` admissions, then a denial. */
  lemma FreshKeyBurst(attempts: map<string, seq<int>>, key: string, now: int,
                      maxAttempts: int, windowMs: int)
    requires key !in attempts && maxAttempts >= 0 && windowMs > 0
    ensures Replay(attempts, key, seq(maxAttempts + 1, _ => now), maxAttempts, windowMs).answers
         == seq(maxAttempts, _ => true) + [false]
  {
    var times := seq(maxAttempts + 1, _ => now);
    assert Stored(attempts, key) + times == times;
    BurstThenDenied(attempts, key, times, maxAttempts, windowMs);
  }

  /** After `reset(key)` the key gets its full allowance back at once. */
  lemma ResetRestoresAllowance(attempts: map<string, seq<int>>, key: string, now: int,
                               maxAttempts: int, windowMs: int)
    requires maxAttempts >= 0 && windowMs > 0
    ensures Replay(Forget(attempts, key), key, seq(maxAttempts + 1, _ => now), maxAttempts,
                   windowMs).answers == seq(maxAttempts, _ => true) + [false]
  {
    FreshKeyBurst(Forget(attempts, key), key, now, maxAttempts, windowMs);
  }

  /** `RateLimiter`: a per-key sliding-window admission controller. The clock is not part of
      this model; each call receives the value `Date.now()` would return. */
  class RateLimiter {
    var attempts: map<string, seq<int>>
    const maxAttempts: int
    const windowMs: int

    ghost predicate Valid()
      reads this
    {
      Bounded(attempts, maxAttempts)
    }

    constructor(maxAttempts: int := 5, windowMs: int := 60000)
      ensures Valid() && attempts == map[]
      ensures this.maxAttempts == maxAttempts && this.windowMs == windowMs
    {
      this.maxAttempts := maxAttempts;
      this.windowMs := windowMs;
      attempts := map[];
    }

    /** `isAllowed(key)` */
    method IsAllowed(key: string, now: int) returns (allowed: bool)
      requires Valid()
      modifies this
      ensures Valid()
      ensures Admission(allowed, attempts) == Admit(old(attempts), key, now, maxAttempts, windowMs)
    {
      var stored := if key in attempts then attempts[key] else [];
      var recentAttempts := Recent(stored, now, windowMs);
      if |recentAttempts| >= maxAttempts {
        return false;
      }
      recentAttempts := recentAttempts + [now];
      attempts := attempts[key := recentAttempts];
      allowed := true;
      AdmitKeepsBound(old(attempts), key, now, maxAttempts, windowMs);
    }

    /** `reset(key)` */
    method Reset(key: string)
      requires Valid()
      modifies this
      ensures Valid()
      ensures attempts == Forget(old(attempts), key)
    {
      attempts := attempts - {key};
    }
  }
}
