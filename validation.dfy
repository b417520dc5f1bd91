/** utils/validation.ts: a second HTML sanitizer, a length check, a character whitelist and a
    stricter URL check with a private-host blocklist. */
module Validation {
  import opened Wrappers
  import opened JsText
  import opened Security

  // ---------------------------------------------------------------------------------------
  // sanitizeHTML

  /** `sanitizeHTML`: delete script elements, then quoted `on…=` attributes, then every
      `javascript:` (each one left-to-right pass), then trim. */
  function SanitizeHtml(html: string): (r: string)
    ensures html == [] ==> r == []
    ensures IsTrimmed(r) && |r| <= |html|
  {
    if html == [] then []
    else
      Trim(RemoveAll(RemoveAll(RemoveAll(html, ScriptElement), QuotedHandler), JavascriptScheme))
  }

  /** Text in which none of the three patterns occurs only loses its surrounding whitespace. */
  lemma SanitizeHtmlPassThrough(s: string)
    requires NoMatch(s, ScriptElement) && NoMatch(s, QuotedHandler) && NoMatch(s, JavascriptScheme)
    ensures SanitizeHtml(s) == Trim(s)
  {
    RemoveAllNoMatch(s, ScriptElement);
    RemoveAllNoMatch(s, QuotedHandler);
    RemoveAllNoMatch(s, JavascriptScheme);
  }

  /** A script element starts with `<script` and a non-word character and needs a closing
      `</script>` somewhere after that, whatever the case of the letters; it runs to the end of
      the first `</script>` after its opening tag. */
  lemma ScriptElementExtent(s: string)
    ensures MatchLen(ScriptElement, s) > 0 <==>
      StartsWithCI(s, "<script") && |s| > 7 && !IsWordChar(s[7]) && ContainsCI(s[7..], "</script>")
    ensures var n := MatchLen(ScriptElement, s);
      n > 0 ==>
        16 <= n && StartsWithCI(s[n - 9..], "</script>")
        && forall i :: 7 <= i < n - 9 ==> !StartsWithCI(s[i..], "</script>")
  {
    if MatchLen(ScriptElement, s) > 0 {
      var t := s[7..];
      IndexOfCIFirst(t, "</script>");
      var k := IndexOfCI(t, "</script>").value;
      assert MatchLen(ScriptElement, s) == 7 + k + 9;
      assert s[7 + k..] == t[k..];
      forall i | 7 <= i < 7 + k ensures !StartsWithCI(s[i..], "</script>") {
        assert s[i..] == t[i - 7..];
      }
    }
  }

  /** A `<script` without a closing tag anywhere after it is left in place. */
  lemma UnclosedScriptKept(s: string)
    requires !ContainsCI(s, "</script>")
    ensures RemoveAll(s, ScriptElement) == s
  {
    forall i | 0 <= i <= |s| ensures MatchLen(ScriptElement, s[i..]) == 0 {
      var u := s[i..];
      if StartsWithCI(u, "<script") && |u| > 7 && !IsWordChar(u[7]) && ContainsCI(u[7..], "</script>") {
        assert s == s[..i + 7] + u[7..];
        ContainsCIShift(s[..i + 7], u[7..], "</script>");
      }
    }
    RemoveAllNoMatch(s, ScriptElement);
  }

  /** `s` begins with a match of `/on\w+\s*=\s*["'][^"']*["']/i` that is `n` characters
      long: `on`, word characters up to `j`, whitespace up to the `=` at `e`, whitespace up to
      the opening quote at `q`, then anything but a quote up to the closing quote at `n - 1`. */
  predicate QuotedHandlerAt(s: string, j: int, e: int, q: int, n: int) {
    StartsWithCI(s, "on") && 2 < j <= e < q < n - 1 < |s|
    && Run(s, 2, j, IsWordChar) && Run(s, j, e, IsSpace) && s[e] == '='
    && Run(s, e + 1, q, IsSpace) && IsQuote(s[q])
    && Run(s, q + 1, n - 1, IsNotQuote) && IsQuote(s[n - 1])
  }

  /** What the quoted-handler pattern deletes is such a match, and where its parts are. */
  lemma QuotedHandlerFound(s: string) returns (j: nat, e: nat, q: nat)
    requires MatchLen(QuotedHandler, s) > 0
    ensures QuotedHandlerAt(s, j, e, q, MatchLen(QuotedHandler, s))
  {
    var n := QuotedHandlerLen(s);
    assert StartsWithCI(s, "on");
    j := SpanFrom(s, 2, IsWordChar);
    assert j != 2;
    SpanFromMaximal(s, 2, IsWordChar);
    e := SpanFrom(s, j, IsSpace);
    assert n == QuotedValueLen(s, e);
    SpanFromMaximal(s, j, IsSpace);
    q := QuotedValueFound(s, e);
  }

  lemma QuotedValueFound(s: string, e: nat) returns (q: nat)
    requires e <= |s| && QuotedValueLen(s, e) > 0
    ensures e < q < QuotedValueLen(s, e) - 1 < |s| && s[e] == '='
    ensures Run(s, e + 1, q, IsSpace) && IsQuote(s[q])
    ensures Run(s, q + 1, QuotedValueLen(s, e) - 1, IsNotQuote) && IsQuote(s[QuotedValueLen(s, e) - 1])
  {
    q := SpanFrom(s, e + 1, IsSpace);
    SpanFromMaximal(s, e + 1, IsSpace);
    SpanFromMaximal(s, q + 1, IsNotQuote);
  }

  /** Every quoted handler attribute at the start of `s` is deleted whole: the pattern's match
      is exactly `n` characters long. */
  lemma QuotedHandlerMatches(s: string, j: int, e: int, q: int, n: int)
    requires QuotedHandlerAt(s, j, e, q, n)
    ensures MatchLen(QuotedHandler, s) == n
  {
    assert j < e ==> IsSpace(s[j]);
    SpanFromIs(s, 2, j, IsWordChar);
    SpanFromIs(s, j, e, IsSpace);
    assert QuotedHandlerLen(s) == QuotedValueLen(s, e);
    QuotedValueMatches(s, e, q, n);
  }

  lemma QuotedValueMatches(s: string, e: nat, q: nat, n: nat)
    requires e < q < n - 1 < |s| && s[e] == '='
    requires Run(s, e + 1, q, IsSpace) && IsQuote(s[q])
    requires Run(s, q + 1, n - 1, IsNotQuote) && IsQuote(s[n - 1])
    ensures QuotedValueLen(s, e) == n
  {
    SpanFromIs(s, e + 1, q, IsSpace);
    assert !IsNotQuote(s[n - 1]);
    SpanFromIs(s, q + 1, n - 1, IsNotQuote);
  }

  /** The pattern matches at the start of `s` exactly when a quoted handler attribute begins
      there. */
  lemma QuotedHandlerShape(s: string)
    ensures MatchLen(QuotedHandler, s) > 0 <==> exists j, e, q, n :: QuotedHandlerAt(s, j, e, q, n)
  {
    if MatchLen(QuotedHandler, s) > 0 {
      var j, e, q := QuotedHandlerFound(s);
      assert QuotedHandlerAt(s, j, e, q, MatchLen(QuotedHandler, s));
    }
    if exists j, e, q, n :: QuotedHandlerAt(s, j, e, q, n) {
      var j, e, q, n :| QuotedHandlerAt(s, j, e, q, n);
      QuotedHandlerMatches(s, j, e, q, n);
    }
  }

  // ---------------------------------------------------------------------------------------
  // isValidLength

  /** `isValidLength(str, min, max)`, with `str.length` taken as the number of characters. */
  function IsValidLength(str: string, min: int, max: int): (ok: bool)
    ensures str == [] ==> (ok <==> min == 0)
    ensures str != [] ==> (ok <==> min <= |str| <= max)
  {
    if str == [] then min == 0 else |str| >= min && |str| <= max
  }

  /** `isValidLength` agrees with the plain range test `min <= |str| <= max` except on the empty
      string, and there exactly when the test `min == 0` and the range test disagree. */
  lemma IsValidLengthVsRange(str: string, min: int, max: int)
    ensures IsValidLength(str, min, max) != (min <= |str| <= max)
            <==> str == [] && (min == 0) != (min <= 0 <= max)
  {
  }

  /** The empty string is judged by `min` alone: it passes even when `max` is below zero. */
  lemma EmptyLengthIgnoresMax(min: int, max: int)
    ensures IsValidLength([], min, max) <==> min == 0
  {
  }

  // ---------------------------------------------------------------------------------------
  // containsOnlySafeChars

  /** One character of the class
      ``[a-zA-Z0-9\s.,!?@#$%&*()_+\-=\[\]{};':"\\|,.<>\/?]``. */
  predicate IsSafeChar(c: char) {
    'a' <= c <= 'z' || 'A' <= c <= 'Z' || '0' <= c <= '9' || IsSpace(c)
    || c in {'.', ',', '!', '?', '@', '#', '$', '%', '&', '*', '(', ')', '_', '+', '-',
             '=', '[', ']', '{', '}', ';', '\'', ':', '"', '\\', '|', '<', '>', '/'}
  }

  /** `/^[…]*$/.test(str)`: the greedy run of safe characters reaches the end. */
  predicate ContainsOnlySafeChars(str: string) {
    Span(str, IsSafeChar) == |str|
  }

  /** The anchored pattern accepts exactly the strings made of safe characters. */
  lemma SafeCharsEverywhere(s: string)
    ensures ContainsOnlySafeChars(s) <==> forall k :: 0 <= k < |s| ==> IsSafeChar(s[k])
  {
    SpanMaximal(s, IsSafeChar);
    if forall k :: 0 <= k < |s| ==> IsSafeChar(s[k]) {
      assert s + [] == s;
      SpanOf(s, [], IsSafeChar);
    }
  }

  /** A concatenation is safe exactly when both parts are. */
  lemma SafeCharsConcat(a: string, b: string)
    ensures ContainsOnlySafeChars(a + b) <==> ContainsOnlySafeChars(a) && ContainsOnlySafeChars(b)
  {
    SafeCharsEverywhere(a);
    SafeCharsEverywhere(b);
    SafeCharsEverywhere(a + b);
    if ContainsOnlySafeChars(a + b) {
      forall k | 0 <= k < |a| ensures IsSafeChar(a[k]) {
        assert a[k] == (a + b)[k];
      }
      forall k | 0 <= k < |b| ensures IsSafeChar(b[k]) {
        assert b[k] == (a + b)[|a| + k];
      }
    } else if ContainsOnlySafeChars(a) && ContainsOnlySafeChars(b) {
      forall k | 0 <= k < |a + b| ensures IsSafeChar((a + b)[k]) {
        if k < |a| {
          assert (a + b)[k] == a[k];
        } else {
          assert (a + b)[k] == b[k - |a|];
        }
      }
    }
  }

  /** The whitelist admits tag markup: letters, digits, spaces, `<`, `>`, `/`, `=` and quotes
      are all safe, so `<script src="x">` passes. */
  lemma SafeCharsAdmitMarkup(s: string)
    requires forall k :: 0 <= k < |s| ==> IsWordChar(s[k]) || s[k] in "<>/=\"' "
    ensures ContainsOnlySafeChars(s)
  {
    SafeCharsEverywhere(s);
  }

  /** Characters outside the class, such as a caret, a backtick, a tilde or an accented
      letter, make the whole string fail. */
  lemma SafeCharsRefuse(s: string, k: nat)
    requires k < |s|
    requires s[k] == '^' || s[k] == '`' || s[k] == '~' || s[k] == '\U{00E7}' || s[k] == '\U{00E9}'
    ensures !ContainsOnlySafeChars(s)
  {
    assert !IsSafeChar(s[k]);
    SafeCharsEverywhere(s);
  }

  // ---------------------------------------------------------------------------------------
  // isValidUrlStrict

  /** `String.prototype.toLowerCase` on the ASCII letters. */
  function LowerAscii(s: string): (r: string)
    ensures |r| == |s| && forall k :: 0 <= k < |s| ==> r[k] == Lower(s[k])
  {
    seq(|s|, k requires 0 <= k < |s| => Lower(s[k]))
  }

  /** The hosts refused in production: loopback names and every address that starts like a
      private IPv4 range. */
  predicate IsPrivateHost(hostname: string) {
    hostname == "localhost" || hostname == "127.0.0.1"
    || "192.168." <= hostname || "10." <= hostname || "172." <= hostname
  }

  /** `isValidUrlStrict(url)`: `parsed` is the result of `new URL(url)` (`None` when it throws)
      and `production` says whether `NODE_ENV` is `production`. */
  function IsValidUrlStrict(url: string, parsed: Option<ParsedUrl>, production: bool): (ok: bool)
    ensures ok ==> url != [] && Trim(url) != []
    ensures ok ==> parsed.Some? && IsWebProtocol(parsed.value.protocol)
    ensures ok && production ==> !IsPrivateHost(LowerAscii(parsed.value.hostname))
  {
    if url == [] || Trim(url) == [] then false
    else
      match parsed
      case None => false
      case Some(u) =>
        if !IsWebProtocol(u.protocol) then false
        else if production && IsPrivateHost(LowerAscii(u.hostname)) then false
        else true
  }

  /** Outside production no host is refused: the result is the protocol check alone. */
  lemma StrictOutsideProduction(url: string, u: ParsedUrl)
    requires Trim(url) != [] && IsWebProtocol(u.protocol)
    ensures IsValidUrlStrict(url, Some(u), false)
  {
  }

  /** In production a non-blank web address is accepted exactly when its lower-cased host is
      not private; with `StrictOutsideProduction` and the contract above this settles both
      modes. */
  lemma StrictProductionAccepts(url: string, u: ParsedUrl)
    requires Trim(url) != [] && IsWebProtocol(u.protocol)
    requires !IsPrivateHost(LowerAscii(u.hostname))
    ensures IsValidUrlStrict(url, Some(u), true)
  {
  }

  /** Production only ever refuses more. */
  lemma StrictProductionRefusesMore(url: string, parsed: Option<ParsedUrl>)
    ensures IsValidUrlStrict(url, parsed, true) ==> IsValidUrlStrict(url, parsed, false)
  {
  }

  /** The host blocklist compares the lower-cased name: `LOCALHOST` or `Localhost` is refused
      like `localhost`. */
  lemma StrictRefusesLocalhostAnyCase(url: string, u: ParsedUrl)
    requires LowerAscii(u.hostname) == "localhost"
    ensures !IsValidUrlStrict(url, Some(u), true)
  {
  }

  /** The `172.` prefix covers the whole 172.0.0.0/8 block, not only the private range
      172.16.0.0/12: a public address such as 172.217.0.1 is refused in production too. */
  lemma StrictRefusesAll172(url: string, u: ParsedUrl, rest: string)
    requires u.hostname == "172." + rest
    ensures !IsValidUrlStrict(url, Some(u), true)
  {
    assert LowerAscii(u.hostname)[..4] == "172.";
  }

  /** `isValidUrl` parses against the page's origin, `isValidUrlStrict` without a base, so the
      two checks see two parse results, `lenient` and `strict`. For an absolute address the
      base plays no part and both parses give the same scheme; then whatever `isValidUrl`
      accepts passes the strict check outside production, which does not look for the
      suspicious patterns. */
  lemma LenientImpliesStrict(url: string, lenient: ParsedUrl, strict: Option<ParsedUrl>)
    requires IsValidUrl(url, true, Some(lenient))
    requires strict.Some? && strict.value.protocol == lenient.protocol
    ensures IsValidUrlStrict(url, strict, false)
  {
  }

  /** A relative address such as `/demo` resolves against the origin for `isValidUrl`, which
      accepts it, while `new URL('/demo')` throws and the strict check refuses it even outside
      production. */
  lemma RelativeAddressOnlyLenient(origin: ParsedUrl)
    requires IsWebProtocol(origin.protocol)
    ensures IsValidUrl("/demo", true, Some(origin))
    ensures !IsValidUrlStrict("/demo", None, false)
  {
    var url := "/demo";
    assert !IsSpace(url[0]);
    assert Trim(url) != [];
    assert LacksCI(url, ':') && LacksCI(url, '=') && LacksCI(url, '<');
    NotSuspiciousWithout(url);
  }

  /** Every blocked pattern holds a `:`, an `=` or a `<`, so an address with none of the three
      is never suspicious. */
  lemma NotSuspiciousWithout(url: string)
    requires LacksCI(url, ':') && LacksCI(url, '=') && LacksCI(url, '<')
    ensures !IsSuspicious(url)
  {
    NoCharNotContainsCI(url, "javascript:", 10);
    NoCharNotContainsCI(url, "data:", 4);
    NoCharNotContainsCI(url, "vbscript:", 8);
    NoCharNotContainsCI(url, "onload=", 6);
    NoCharNotContainsCI(url, "onerror=", 7);
    NoCharNotContainsCI(url, "<script", 0);
  }
}
