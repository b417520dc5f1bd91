/** The parts of JavaScript's `String` and `RegExp` that the input-safety helpers rely on:
    `trim`, the classes `\s`, `\w` and `\d`, ASCII case folding under the `i` flag, and
    `replace(re, '')` with the `g` flag for the fixed set of patterns the helpers use. */
module JsText {
  import opened Wrappers

  /** ECMAScript WhiteSpace and LineTerminator: the class `\s` and what `trim` strips. */
  predicate IsSpace(c: char) {
    c == ' ' || c == '\t' || c == '\n' || c == '\r' || c == '\U{000B}' || c == '\U{000C}'
    || c == '\U{00A0}' || c == '\U{1680}' || ('\U{2000}' <= c <= '\U{200A}')
    || c == '\U{2028}' || c == '\U{2029}' || c == '\U{202F}' || c == '\U{205F}'
    || c == '\U{3000}' || c == '\U{FEFF}'
  }

  /** `\w`: ASCII letters, digits and the underscore. */
  predicate IsWordChar(c: char) {
    'a' <= c <= 'z' || 'A' <= c <= 'Z' || '0' <= c <= '9' || c == '_'
  }

  /** `\d` (and the complement of `\D`). */
  predicate IsDigit(c: char) {
    '0' <= c <= '9'
  }

  /** Case folding of a non-Unicode regular expression with the `i` flag, restricted to the
      ASCII letters that occur in the patterns of this model. */
  function Lower(c: char): (d: char)
    ensures 'A' <= c <= 'Z' ==> 'a' <= d <= 'z'
    ensures !('A' <= c <= 'Z') ==> d == c
  {
    if 'A' <= c <= 'Z' then (c as int + 32) as char else c
  }

  function TrimStart(s: string): (r: string)
    ensures |r| <= |s| && r == s[|s| - |r|..]
    ensures forall k :: 0 <= k < |s| - |r| ==> IsSpace(s[k])
    ensures r == [] || !IsSpace(r[0])
  {
    if s != [] && IsSpace(s[0]) then TrimStart(s[1..]) else s
  }

  function TrimEnd(s: string): (r: string)
    ensures |r| <= |s| && r == s[..|r|]
    ensures forall k :: |r| <= k < |s| ==> IsSpace(s[k])
    ensures r == [] || !IsSpace(r[|r| - 1])
  {
    if s != [] && IsSpace(s[|s| - 1]) then TrimEnd(s[..|s| - 1]) else s
  }

  /** No whitespace at either end. */
  predicate IsTrimmed(s: string) {
    s == [] || (!IsSpace(s[0]) && !IsSpace(s[|s| - 1]))
  }

  /** `String.prototype.trim`: the longest infix without whitespace at either end. */
  function Trim(s: string): (r: string)
    ensures IsTrimmed(r) && |r| <= |s|
    ensures forall c :: c in r ==> c in s
    ensures r == [] <==> forall k :: 0 <= k < |s| ==> IsSpace(s[k])
    ensures IsTrimmed(s) ==> r == s
  {
    var t := TrimStart(s);
    var r := TrimEnd(t);
    assert r != [] ==> r[0] == t[0];
    assert forall c :: c in r ==> c in t;
    assert forall c :: c in t ==> c in s;
    r
  }

  /** `trim` removes only the whitespace around the text: its result is the infix `s[i..j]`
      with nothing but whitespace before `i` and after `j`. */
  lemma TrimIsInfix(s: string) returns (i: nat, j: nat)
    ensures i <= j <= |s| && Trim(s) == s[i..j]
    ensures forall k :: 0 <= k < i ==> IsSpace(s[k])
    ensures forall k :: j <= k < |s| ==> IsSpace(s[k])
  {
    var t := TrimStart(s);
    i := |s| - |t|;
    j := i + |TrimEnd(t)|;
    assert forall k :: j <= k < |s| ==> s[k] == t[k - i];
  }

  /** `s` begins with `pat` when ASCII letters are compared without case (`pat` is written
      in lower case). */
  predicate StartsWithCI(s: string, pat: string)
    ensures StartsWithCI(s, pat) ==> |pat| <= |s|
  {
    pat == [] || (s != [] && Lower(s[0]) == pat[0] && StartsWithCI(s[1..], pat[1..]))
  }

  /** `StartsWithCI` compares the first `|pat|` characters one by one. */
  lemma {:induction false} StartsWithCIAt(s: string, pat: string)
    ensures StartsWithCI(s, pat) <==>
      |pat| <= |s| && forall k :: 0 <= k < |pat| ==> Lower(s[k]) == pat[k]
  {
    if pat != [] && s != [] {
      StartsWithCIAt(s[1..], pat[1..]);
      if |pat| <= |s| && forall k :: 0 <= k < |pat| ==> Lower(s[k]) == pat[k] {
        assert Lower(s[0]) == pat[0];
        forall k | 0 <= k < |pat| - 1 ensures Lower(s[1..][k]) == pat[1..][k] {
          assert Lower(s[k + 1]) == pat[k + 1];
        }
      }
    }
  }

  /** Position of the first case-insensitive occurrence of `pat` in `s`. */
  function IndexOfCI(s: string, pat: string): (r: Option<nat>)
    ensures r.Some? ==> r.value + |pat| <= |s|
    decreases |s|
  {
    if StartsWithCI(s, pat) then Some(0)
    else if s == [] then None
    else
      match IndexOfCI(s[1..], pat)
      case None => None
      case Some(k) => Some(k + 1)
  }

  /** `IndexOfCI` finds an occurrence, the first one, and reports none only when there is
      none. */
  lemma {:induction false} IndexOfCIFirst(s: string, pat: string)
    ensures match IndexOfCI(s, pat)
      case Some(i) =>
        StartsWithCI(s[i..], pat) && forall j :: 0 <= j < i ==> !StartsWithCI(s[j..], pat)
      case None => forall j :: 0 <= j <= |s| ==> !StartsWithCI(s[j..], pat)
    decreases |s|
  {
    assert s[0..] == s;
    if !StartsWithCI(s, pat) && s != [] {
      IndexOfCIFirst(s[1..], pat);
      forall j | 1 <= j <= |s|
        ensures s[j..] == s[1..][j - 1..]
      {
      }
    }
  }

  /** Case-insensitive prefixes concatenate. */
  lemma {:induction false} StartsWithCIConcat(x: string, y: string, p: string, q: string)
    requires |x| == |p| && StartsWithCI(x, p) && StartsWithCI(y, q)
    ensures StartsWithCI(x + y, p + q)
    decreases |x|
  {
    if x != [] {
      StartsWithCIConcat(x[1..], y, p[1..], q);
      assert (x + y)[1..] == x[1..] + y;
      assert (p + q)[1..] == p[1..] + q;
    } else {
      assert x + y == y;
      assert p + q == q;
    }
  }

  /** `re.test(s)` for a regular expression `/pat/i` made of literal characters. */
  predicate ContainsCI(s: string, pat: string) {
    IndexOfCI(s, pat).Some?
  }

  lemma ContainsCIAt(s: string, pat: string, i: nat)
    requires i <= |s| && StartsWithCI(s[i..], pat)
    ensures ContainsCI(s, pat)
  {
    IndexOfCIFirst(s, pat);
  }


  /** Length of the longest prefix of `s` whose characters all satisfy `f`. */
  function Span(s: string, f: char -> bool): (n: nat)
    ensures n <= |s|
  {
    if s != [] && f(s[0]) then 1 + Span(s[1..], f) else 0
  }

  /** `Span` is the maximal run: every character before it satisfies `f`, the next does not. */
  lemma {:induction false} SpanMaximal(s: string, f: char -> bool)
    ensures forall k :: 0 <= k < Span(s, f) ==> f(s[k])
    ensures Span(s, f) == |s| || !f(s[Span(s, f)])
  {
    if s != [] && f(s[0]) {
      SpanMaximal(s[1..], f);
    }
  }

  /** End of the run of characters satisfying `f` that starts at index `i`. */
  function SpanFrom(s: string, i: nat, f: char -> bool): (n: nat)
    requires i <= |s|
    ensures i <= n <= |s|
  {
    i + Span(s[i..], f)
  }

  /** Every character of `s[i..m]` satisfies `f`. */
  predicate Run(s: string, i: int, m: int, f: char -> bool)
    requires 0 <= i <= m <= |s|
  {
    forall k :: i <= k < m ==> f(s[k])
  }

  lemma SpanFromMaximal(s: string, i: nat, f: char -> bool)
    requires i <= |s|
    ensures Run(s, i, SpanFrom(s, i, f), f)
    ensures SpanFrom(s, i, f) == |s| || !f(s[SpanFrom(s, i, f)])
  {
    SpanMaximal(s[i..], f);
    forall k | i <= k < SpanFrom(s, i, f) ensures f(s[k]) {
      assert s[k] == s[i..][k - i];
    }
  }

  /** A run from `i` whose characters satisfy `f` and that stops at a character failing `f`
      is the run `SpanFrom` measures. */
  lemma SpanFromIs(s: string, i: nat, m: nat, f: char -> bool)
    requires i <= m < |s| && !f(s[m]) && Run(s, i, m, f)
    ensures SpanFrom(s, i, f) == m
  {
    var x, y := s[i..m], s[m..];
    assert s[i..] == x + y;
    forall k | 0 <= k < |x| ensures f(x[k]) {
      assert x[k] == s[i + k];
    }
    SpanOf(x, y, f);
  }

  /** The run ends exactly where `x` ends when the next character fails `f`. */
  lemma {:induction false} SpanOf(x: string, y: string, f: char -> bool)
    requires forall k :: 0 <= k < |x| ==> f(x[k])
    requires y == [] || !f(y[0])
    ensures Span(x + y, f) == |x|
  {
    if x != [] {
      assert (x + y)[0] == x[0];
      assert (x + y)[1..] == x[1..] + y;
      SpanOf(x[1..], y, f);
    } else {
      assert x + y == y;
    }
  }

  predicate IsQuote(c: char) {
    c == '"' || c == '\''
  }

  /** `[^"']`. */
  predicate IsNotQuote(c: char) {
    !IsQuote(c)
  }

  /** The regular expressions that the core deletes with `replace(re, '')`. */
  datatype Pattern =
    | AngleBracket      // /[<>]/g
    | JavascriptScheme  // /javascript:/gi
    | EventHandler      // /on\w+=/gi
    | ScriptElement     // /<script\b[^<]*(?:(?!<\/script>)<[^<]*)*<\/script>/gi
    | QuotedHandler     // /on\w+\s*=\s*["'][^"']*["']/gi
    | NonDigit          // /\D/g

  /** Length of the match of `p` that starts at the beginning of `s`, 0 when there is none.
      None of the patterns matches the empty string, so 0 always means "no match". */
  function MatchLen(p: Pattern, s: string): (n: nat)
    ensures n <= |s|
  {
    match p
    case AngleBracket => if s != [] && (s[0] == '<' || s[0] == '>') then 1 else 0
    case JavascriptScheme => if StartsWithCI(s, "javascript:") then 11 else 0
    case EventHandler => EventHandlerLen(s)
    case ScriptElement => ScriptElementLen(s)
    case QuotedHandler => QuotedHandlerLen(s)
    case NonDigit => if s != [] && !IsDigit(s[0]) then 1 else 0
  }

  /** `/on\w+=/i` anchored at the start of `s`. The run `\w+` is greedy and `=` is not a word
      character, so the only candidate end is the end of the maximal run of word characters. */
  function EventHandlerLen(s: string): (n: nat)
    ensures n <= |s|
  {
    if !StartsWithCI(s, "on") then 0
    else
      var j := SpanFrom(s, 2, IsWordChar);
      if j > 2 && j < |s| && s[j] == '=' then j + 1 else 0
  }

  /** `s` begins with a match of `/on\w+=/i` that is `n` characters long. */
  predicate EventHandlerAt(s: string, n: int) {
    StartsWithCI(s, "on") && 4 <= n <= |s| && s[n - 1] == '=' && Run(s, 2, n - 1, IsWordChar)
  }

  /** What `EventHandlerLen` reports is a match of the handler pattern. */
  lemma EventHandlerFound(s: string)
    requires EventHandlerLen(s) > 0
    ensures EventHandlerAt(s, EventHandlerLen(s))
  {
    SpanFromMaximal(s, 2, IsWordChar);
  }

  /** Every match of the handler pattern is the one `EventHandlerLen` reports: `on`, the word
      characters up to the `=`, and the `=`. */
  lemma EventHandlerMatches(s: string, n: int)
    requires EventHandlerAt(s, n)
    ensures EventHandlerLen(s) == n
  {
    SpanFromIs(s, 2, n - 1, IsWordChar);
  }

  /** `/<script\b[^<]*(?:(?!<\/script>)<[^<]*)*<\/script>/i` anchored at the start of `s`:
      the body may not contain `</script>`, so the match ends at the first closing tag. */
  function ScriptElementLen(s: string): (n: nat)
    ensures n <= |s|
  {
    if !(StartsWithCI(s, "<script") && |s| > 7 && !IsWordChar(s[7])) then 0
    else
      match IndexOfCI(s[7..], "</script>")
      case None => 0
      case Some(k) => 7 + k + 9
  }

  /** `/on\w+\s*=\s*["'][^"']*["']/i` anchored at the start of `s`. Each run is greedy and
      is followed by a character outside its class, so no backtracking can succeed. */
  function QuotedHandlerLen(s: string): (n: nat)
    ensures n <= |s|
  {
    if !StartsWithCI(s, "on") then 0
    else
      var j := SpanFrom(s, 2, IsWordChar);
      if j == 2 then 0 else QuotedValueLen(s, SpanFrom(s, j, IsSpace))
  }

  /** The part of the quoted-handler match after the name and the spaces that follow it,
      which end at `e`: `=`, spaces, a quote, non-quotes and the closing quote. The result is
      the end of the whole match, 0 when there is none. */
  function QuotedValueLen(s: string, e: nat): (n: nat)
    requires e <= |s|
    ensures n <= |s|
  {
    if e == |s| || s[e] != '=' then 0 else QuotedStringLen(s, SpanFrom(s, e + 1, IsSpace))
  }

  /** The quoted string that ends the quoted-handler match, when the spaces after `=` end at
      `q`: a quote, non-quotes and the closing quote. The result is the end of the whole match,
      0 when there is none. */
  function QuotedStringLen(s: string, q: nat): (n: nat)
    requires q <= |s|
    ensures n <= |s|
  {
    if q == |s| || !IsQuote(s[q]) then 0
    else
      var z := SpanFrom(s, q + 1, IsNotQuote);
      if z == |s| then 0 else z + 1
  }

  /** `s.replace(p, '')` with the `g` flag: scan from the left, delete each match and resume
      right after it, keep every character at which no match starts. */
  function RemoveAll(s: string, p: Pattern): (r: string)
    ensures |r| <= |s|
    decreases |s|
  {
    if s == [] then []
    else
      var n := MatchLen(p, s);
      if n > 0 then RemoveAll(s[n..], p) else [s[0]] + RemoveAll(s[1..], p)
  }

  /** Deleting matches never introduces a character. */
  lemma {:induction false} RemoveAllSubset(s: string, p: Pattern)
    ensures forall c :: c in RemoveAll(s, p) ==> c in s
    decreases |s|
  {
    if s != [] {
      var n := MatchLen(p, s);
      if n > 0 {
        RemoveAllSubset(s[n..], p);
        assert forall c :: c in s[n..] ==> c in s;
      } else {
        RemoveAllSubset(s[1..], p);
        assert forall c :: c in s[1..] ==> c in s;
      }
    }
  }

  /** Deleting every character of a class leaves none of them. */
  lemma {:induction false} RemoveAllClass(s: string, p: Pattern)
    requires IsCharClass(p)
    ensures p == AngleBracket ==> '<' !in RemoveAll(s, p) && '>' !in RemoveAll(s, p)
    ensures p == NonDigit ==> forall c :: c in RemoveAll(s, p) ==> IsDigit(c)
    decreases |s|
  {
    if s != [] {
      var n := MatchLen(p, s);
      if n > 0 {
        RemoveAllClass(s[n..], p);
      } else {
        RemoveAllClass(s[1..], p);
      }
    }
  }

  /** No match of `p` starts anywhere in `s`. */
  predicate NoMatch(s: string, p: Pattern) {
    forall i :: 0 <= i <= |s| ==> MatchLen(p, s[i..]) == 0
  }

  /** Deleting a pattern that matches nowhere changes nothing. */
  lemma {:induction false} RemoveAllNoMatch(s: string, p: Pattern)
    requires NoMatch(s, p)
    ensures RemoveAll(s, p) == s
    decreases |s|
  {
    if s != [] {
      assert MatchLen(p, s[0..]) == 0 by { assert s[0..] == s; }
      forall i | 0 <= i <= |s| - 1
        ensures MatchLen(p, s[1..][i..]) == 0
      {
        assert s[1..][i..] == s[i + 1..];
      }
      RemoveAllNoMatch(s[1..], p);
    }
  }

  /** Character-class patterns: every match is one character, decided by that character. */
  predicate IsCharClass(p: Pattern) {
    p == AngleBracket || p == NonDigit
  }

  /** A character-class match depends on the first character alone. */
  lemma CharClassMatch(a: string, b: string, p: Pattern)
    requires IsCharClass(p) && a != []
    ensures MatchLen(p, a + b) == MatchLen(p, a)
  {
    assert (a + b)[0] == a[0];
  }

  /** Deleting a character class works character by character, so it distributes over `+`. */
  lemma {:induction false} RemoveAllConcat(a: string, b: string, p: Pattern)
    requires IsCharClass(p)
    ensures RemoveAll(a + b, p) == RemoveAll(a, p) + RemoveAll(b, p)
    decreases |a|
  {
    if a != [] {
      assert (a + b)[1..] == a[1..] + b;
      CharClassMatch(a, b, p);
      RemoveAllConcat(a[1..], b, p);
    } else {
      assert a + b == b;
    }
  }

  /** The characters a match of `p` can start with (every pattern but `NonDigit`). */
  function LeadChars(p: Pattern): seq<char>
    requires p != NonDigit
  {
    match p
    case AngleBracket => "<>"
    case JavascriptScheme => "jJ"
    case EventHandler => "oO"
    case ScriptElement => "<"
    case QuotedHandler => "oO"
  }

  lemma NoLeadNoMatch(p: Pattern, s: string)
    requires p != NonDigit && s != [] && s[0] !in LeadChars(p)
    ensures MatchLen(p, s) == 0
  {
    if p == JavascriptScheme || p == EventHandler || p == QuotedHandler || p == ScriptElement {
      assert Lower(s[0]) != LeadChars(p)[0];
    }
  }

  /** Where no match starts, the first character is kept. */
  lemma RemoveAllKeepsFirst(c: char, t: string, p: Pattern)
    requires MatchLen(p, [c] + t) == 0
    ensures RemoveAll([c] + t, p) == [c] + RemoveAll(t, p)
  {
    assert ([c] + t)[1..] == t;
  }

  /** A prefix holding none of the characters a match starts with survives untouched. */
  lemma {:induction false} RemoveAllKeepsPrefix(a: string, b: string, p: Pattern)
    requires p != NonDigit && forall k :: 0 <= k < |a| ==> a[k] !in LeadChars(p)
    ensures RemoveAll(a + b, p) == a + RemoveAll(b, p)
    decreases |a|
  {
    if a == [] {
      assert a + b == b;
    } else {
      var t := a[1..] + b;
      assert a + b == [a[0]] + t;
      NoLeadNoMatch(p, [a[0]] + t);
      RemoveAllKeepsFirst(a[0], t, p);
      RemoveAllKeepsPrefix(a[1..], b, p);
      ConsAppend(a, RemoveAll(b, p));
    }
  }

  /** A match is deleted and scanning resumes right after it. */
  lemma RemoveAllSkip(s: string, p: Pattern)
    requires MatchLen(p, s) > 0
    ensures RemoveAll(s, p) == RemoveAll(s[MatchLen(p, s)..], p)
  {
  }

  lemma ConsAppend(a: string, r: string)
    requires a != []
    ensures [a[0]] + (a[1..] + r) == a + r
  {
    assert a == [a[0]] + a[1..];
  }

  lemma AppendAssoc(a: string, b: string, c: string)
    ensures a + b + c == a + (b + c)
  {
  }

  lemma DropPrefix(b: string, c: string)
    ensures (b + c)[|b|..] == c
  {
  }

  /** `on`, one word character and `=` form a whole match of the handler pattern. */
  lemma EventHandlerShortest(w: char, c: string)
    requires IsWordChar(w)
    ensures MatchLen(EventHandler, ['o', 'n', w, '='] + c) == 4
  {
    var s := ['o', 'n', w, '='] + c;
    StartsWithCIAt(s, "on");
    EventHandlerMatches(s, 4);
  }

  lemma RemoveAllKeepsPrefixNoLead(a: string, b: string, p: Pattern)
    requires p != NonDigit && forall c :: c in LeadChars(p) ==> c !in a
    ensures RemoveAll(a + b, p) == a + RemoveAll(b, p)
  {
    forall k | 0 <= k < |a| ensures a[k] !in LeadChars(p) {
      assert a[k] in a;
    }
    RemoveAllKeepsPrefix(a, b, p);
  }

  /** Text holding none of the characters a match starts with survives untouched. */
  lemma RemoveAllKeeps(a: string, p: Pattern)
    requires p != NonDigit && forall c :: c in LeadChars(p) ==> c !in a
    ensures RemoveAll(a, p) == a
  {
    forall k | 0 <= k < |a| ensures a[k] !in LeadChars(p) {
      assert a[k] in a;
    }
    RemoveAllKeepsPrefix(a, [], p);
    assert a + [] == a;
  }

  /** A lower-case pattern occurs in any text that has it as an infix. */
  lemma ContainsCIInfix(a: string, pat: string, b: string)
    requires forall k :: 0 <= k < |pat| ==> !('A' <= pat[k] <= 'Z')
    ensures ContainsCI(a + pat + b, pat)
  {
    var s := a + pat + b;
    assert s[|a|..] == pat + b;
    forall k | 0 <= k < |pat|
      ensures Lower(s[|a|..][k]) == pat[k]
    {
      assert s[|a|..][k] == pat[k];
    }
    StartsWithCIAt(s[|a|..], pat);
    ContainsCIAt(s, pat, |a|);
  }

  /** An occurrence stays an occurrence when text is put in front. */
  lemma ContainsCIShift(a: string, b: string, pat: string)
    requires ContainsCI(b, pat)
    ensures ContainsCI(a + b, pat)
  {
    IndexOfCIFirst(b, pat);
    var i := IndexOfCI(b, pat).value;
    assert (a + b)[|a| + i..] == b[i..];
    ContainsCIAt(a + b, pat, |a| + i);
  }

  /** Every letter of a pattern found in `s` appears in `s`, in one case or the other. */
  lemma ContainsCIHasChar(s: string, pat: string, k: nat)
    requires ContainsCI(s, pat) && k < |pat|
    ensures exists d :: d in s && Lower(d) == pat[k]
  {
    IndexOfCIFirst(s, pat);
    var i := IndexOfCI(s, pat).value;
    StartsWithCIAt(s[i..], pat);
    assert Lower(s[i..][k]) == pat[k];
    assert s[i..][k] == s[i + k];
  }

  /** A pattern with a letter that `s` lacks in both cases does not occur in `s`. */
  lemma NoCharNotContainsCI(s: string, pat: string, k: nat)
    requires k < |pat| && LacksCI(s, pat[k])
    ensures !ContainsCI(s, pat)
  {
    if ContainsCI(s, pat) {
      ContainsCIHasChar(s, pat, k);
    }
  }

  /** `s` holds `ch` in neither case. */
  predicate LacksCI(s: string, ch: char) {
    forall d :: d in s ==> Lower(d) != ch
  }

  lemma LacksCIAppend(x: string, y: string, ch: char)
    requires LacksCI(x, ch) && LacksCI(y, ch)
    ensures LacksCI(x + y, ch)
  {
  }
}
