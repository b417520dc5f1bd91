# NITRON FLOW landing page: the input-safety helpers and the components' state rules

This project models the logic behind the NITRON FLOW landing page, a Next.js and React site, and proves properties of that model. The page is mostly presentational. The parts with rules that can be stated precisely are these:

- **`utils/security.ts`** holds the input-safety helpers:
  - `sanitizeInput`, a fixed chain of global deletions followed by a trim;
  - the `isValidEmail`, `isValidPhone` and `isValidUrl` predicates;
  - the iframe `sandbox` string;
  - the client-side `RateLimiter`, a per-key sliding window of timestamps.
- **`utils/validation.ts`** adds `sanitizeHTML`, `isValidLength`, `containsOnlySafeChars` and `isValidUrlStrict`.
- **`components/ContactSection.tsx`** holds the contact form:
  - the per-field error rules of `validateForm`;
  - the order of the steps in `handleSubmit`: rate limit, validate, sanitize, reset;
  - `handleChange` and the effect that hides the success note.
- **`components/ThemeSelector.tsx`** holds the `#RRGGBB` format gate, the `adjustBrightness` channel arithmetic, the fallback for a saved colour, the glow channels and the CSS variables of a theme.
- **`components/Portfolio.tsx`** holds the carousel wrap-around and the guard that decides whether a project demo opens.
- **`components/Testimonials.tsx`** holds the next, previous and dot updates of the testimonial index.
- **`components/Navbar.tsx`** holds the throttled scroll handler: the `scrolled` flag, the first section that contains the probe point, and the `ticking` flag.
- **`components/HologramCube.tsx`** holds the table that maps the window width to the cube's size.

## Layout

| file | module | contents |
|---|---|---|
| `wrappers.dfy` | `Wrappers` | `Option` |
| `js_text.dfy` | `JsText` | `trim`, `\s`, `\w`, `\d`, ASCII case folding, and `replace(re, '')` with the `g` flag over a fixed set of patterns (`Pattern`, `MatchLen`, `RemoveAll`) |
| `security.dfy` | `Security` | `utils/security.ts`; `RateLimiter` is a class whose `map<string, seq<int>>` field is updated in place |
| `validation.dfy` | `Validation` | `utils/validation.ts` |
| `contact_section.dfy` | `ContactSection` | the form rules as functions, and the class `ContactForm` whose handlers are proved against them |
| `theme_selector.dfy` | `ThemeSelector` | hex arithmetic, and the class `ThemeSelector` |
| `portfolio.dfy` | `Portfolio` | the carousel and the demo guard |
| `testimonials.dfy` | `Testimonials` | the index updaters |
| `navbar.dfy` | `Navbar` | the section search, both as a function and as the source's loop, and the class `NavbarState` |
| `hologram_cube.dfy` | `HologramCube` | the breakpoint table |

Inputs that the code reads from the environment become parameters:

- `Date.now()` becomes `now`.
- `typeof window !== 'undefined'` becomes `hasWindow`.
- `process.env.NODE_ENV === 'production'` becomes `production`.
- `window.location.hostname` becomes an `Option<string>`.
- The result of `new URL(...)` becomes an `Option<ParsedUrl>`, with `None` when the constructor throws.
- Whether `localStorage` can be read or written becomes a boolean.
- The section elements' `offsetTop` and `offsetHeight` become a map from element id to `Box`.

### Where the code differs from what one might expect

The model follows the code in each of these places.

- **`sanitizeInput` is not idempotent.** It makes one left-to-right pass per pattern, and the handler pass runs last. Deleting `onx=` from `javaonx=script:` assembles a new `javascript:`, which a second call then deletes (`Security.SanitizeInputNotIdempotent`). So the output of `sanitizeInput` can contain `javascript:`.
- **`isAllowed` does not store the pruned list when it denies.** It returns before `this.attempts.set`, so stale timestamps stay in the map. On every reachable map a denied key holds only recent timestamps. That makes the missing write-back unobservable (`Security.DenialPrunesNothing`, `Security.PruningUnobservable`).
- **`isValidUrlStrict` in production refuses every hostname that starts with `172.`.** The private range is only 172.16.0.0/12, so public addresses such as 172.1.2.3 are refused too (`Validation.StrictRefusesAll172`).
- **`containsOnlySafeChars` allows `<` and `>`.** It accepts markup made of word characters, `<`, `>`, `/`, `=`, quotes and spaces.
- **`isValidUrlStrict` refuses relative addresses that `isValidUrl` accepts.** `isValidUrl` parses with the page's origin as base, `isValidUrlStrict` without one. So `/demo` passes `isValidUrl` and fails `isValidUrlStrict` in every environment (`Validation.RelativeAddressOnlyLenient`).
- **Every admitted submission uses up a limiter slot,** even one that then fails validation.
- **`isValidLength` judges the empty string by `min === 0` alone.** So `isValidLength("", -1, 10)` is false although 0 lies in the range, and `isValidLength("", 0, -1)` is true although it does not (`Validation.IsValidLengthVsRange`).

## Model

| member | source | states |
|---|---|---|
| `JsText.Trim` | `utils/security.ts:61` | `trim` gives a result with no whitespace at either end and no longer than its input. The result is empty exactly when every character is whitespace, and a trimmed string is its own trim. |
| `JsText.TrimIsInfix` | `utils/security.ts:61` | `trim` removes only the surrounding whitespace: the result is an infix of the input with nothing but whitespace before it and after it. |
| `JsText.RemoveAllSubset` | `utils/security.ts:57-61` | A global `replace(re, '')` only deletes: every character of the result was in the input. |
| `JsText.RemoveAllClass` | `utils/security.ts:58` | Deleting `[<>]` leaves no `<` or `>`, and deleting `\D` leaves only digits. |
| `JsText.RemoveAllNoMatch` | `utils/security.ts:57-61` | A pattern that matches nowhere leaves the text unchanged. |
| `JsText.RemoveAllConcat` | `utils/security.ts:81` | Deleting a character class distributes over concatenation. |
| `JsText.EventHandlerFound` | `utils/security.ts:60` | Every match of `/on\w+=/i` is `on`, one or more word characters running up to the `=`, and that `=`. |
| `JsText.EventHandlerMatches` | `utils/security.ts:60` | Conversely, `on`, a run of word characters and `=` at the start of the text are a match of exactly that length. |
| `JsText.EventHandlerShortest` | `utils/security.ts:60` | `on`, one word character and `=` are a whole match of `/on\w+=/i`. |
| `JsText.IndexOfCIFirst` | `utils/validation.ts:13` | The case-insensitive search for `</script>` finds the first occurrence, and reports none only when there is none. |
| `Security.SanitizeInput` | `utils/security.ts:53-62` | Empty input gives `""`. The output has no `<` or `>`, is trimmed, and is no longer than the input. |
| `Security.SanitizeInputPassThrough` | `utils/security.ts:57-61` | Text in which none of the three patterns occurs only loses its surrounding whitespace. |
| `Security.SanitizeInputCanProduceScheme` | `utils/security.ts:58-61` | `javaonx=script:` sanitizes to `javascript:`: the output can contain the scheme. |
| `Security.SanitizeInputDropsScheme` | `utils/security.ts:59` | `javascript:` itself sanitizes to `""`. |
| `Security.SanitizeInputNotIdempotent` | `utils/security.ts:57-61` | A second call can change the result of the first. |
| `Security.IndexOf` | `utils/security.ts:70` | Gives the position of the first occurrence of a character, or none exactly when the character is absent. |
| `Security.HasEmailShapeSound` | `utils/security.ts:70-71` | The split at the first `@` implies that the regular expression matches. |
| `Security.HasEmailShapeComplete` | `utils/security.ts:70-71` | A match of the regular expression implies the split at the first `@`. |
| `Security.IsValidEmailMatchesRegex` | `utils/security.ts:67-71` | `isValidEmail` holds exactly when the trimmed input is `L@D.E` with non-empty parts and no whitespace or `@` besides the separator. |
| `Security.PhoneIgnoresNonDigit` | `utils/security.ts:77-85` | Inserting a non-digit anywhere never changes the phone verdict. |
| `Security.PhoneOfDigits` | `utils/security.ts:81-84` | A string of digits is a valid phone number exactly when it has 10 or 11 of them. |
| `Security.IsValidUrl` | `utils/security.ts:8-48` | Fail-closed. It accepts only a non-empty input that is not `#` or blank, needs a window, and needs a parsed `http:` or `https:` protocol. The raw string must contain none of the six blocked patterns, in any case. |
| `Security.IsValidUrlAccepts` | `utils/security.ts:8-48` | Every non-blank web address that is not `#` and passes the blocklist is accepted. |
| `Security.IsValidUrlRefusesPattern` | `utils/security.ts:31-42` | A raw string holding a blocked pattern is refused, whatever the parser says. |
| `Security.JoinedHasToken` | `utils/security.ts:125` | Every lower-case token appears in the joined attribute. |
| `Security.JoinedLacks` | `utils/security.ts:125` | A letter that no token holds is absent from the joined attribute. |
| `Security.SafeIframeSandboxAllowsScriptsAndForms` | `utils/security.ts:124-126` | The sandbox grants `allow-scripts` and `allow-forms`. |
| `Security.SafeIframeSandboxKeepsTopPage` | `utils/security.ts:124-126` | No token holding a `v` is granted, so neither top-navigation permission is granted. |
| `Security.Recent` | `utils/security.ts:105` | The filter never lengthens the list. |
| `Security.RecentMembers` | `utils/security.ts:105` | The filter keeps exactly the timestamps with `now - t < windowMs`. |
| `Security.RecentKeepsAll` | `utils/security.ts:105` | When every timestamp is recent, nothing is pruned. |
| `Security.RecentDropsStale` | `utils/security.ts:105` | A stale timestamp makes the filtered list strictly shorter. |
| `Security.RecentFull` | `utils/security.ts:105` | A filter that keeps the whole length kept every element. |
| `Security.Admit` | `utils/security.ts:100-114` | Denies exactly when at least `maxAttempts` stored timestamps are recent. On denial the map is unchanged. On admission the key holds the pruned list followed by `now`. Every other key is unchanged. |
| `Security.AdmitKeepsBound` | `utils/security.ts:107-112` | No key ever holds more than `maxAttempts` timestamps. |
| `Security.DenialPrunesNothing` | `utils/security.ts:105-109` | On a reachable map, a denied key has no stale timestamp. |
| `Security.PruningUnobservable` | `utils/security.ts:107-112` | Storing the pruned list on denial would change no answer and no stored list. |
| `Security.StaleAttemptReadmits` | `utils/security.ts:105-107` | Once a stored timestamp leaves the window, the key is admitted again without `reset`. |
| `Security.Forget` | `utils/security.ts:116-118` | `reset(key)` removes that key and no other. |
| `Security.Replay` | `utils/security.ts:100-114` | Successive calls give one answer per call. |
| `Security.BurstThenDenied` | `utils/security.ts:100-114` | Calls within one window of the stored timestamps are admitted until the key holds `maxAttempts`, and the next call is denied. |
| `Security.FreshKeyBurst` | `utils/security.ts:100-114` | A fresh key called `maxAttempts + 1` times at one instant gets `maxAttempts` admissions, then a denial. |
| `Security.ResetRestoresAllowance` | `utils/security.ts:116-118` | After `reset` the key gets its full allowance back at once. |
| `Security.RateLimiter.constructor` | `utils/security.ts:95-98` | Starts with an empty map and the given limits, 5 and 60000 by default. |
| `Security.RateLimiter.IsAllowed` | `utils/security.ts:100-114` | The answer and the new map are those of `Admit`, and the bound is preserved. |
| `Security.RateLimiter.Reset` | `utils/security.ts:116-118` | The new map is `Forget` of the old one. |
| `Validation.SanitizeHtml` | `utils/validation.ts:8-17` | Empty input gives `""`. The output is trimmed and no longer than the input. |
| `Validation.SanitizeHtmlPassThrough` | `utils/validation.ts:12-16` | Text with no script element, quoted handler or `javascript:` only loses its surrounding whitespace. |
| `Validation.ScriptElementExtent` | `utils/validation.ts:13` | A script element matches exactly when the text starts with `<script`, then a non-word character, then a later `</script>`. The match ends at the first such `</script>`. |
| `Validation.UnclosedScriptKept` | `utils/validation.ts:13` | A `<script` with no closing tag is left in place. |
| `Validation.QuotedHandlerFound` | `utils/validation.ts:14` | Every match of `/on\w+\s*=\s*["'][^"']*["']/i` is `on`, a maximal run of word characters, a maximal run of spaces, `=`, a maximal run of spaces, a quote, a run of non-quotes and a closing quote that ends the match. |
| `Validation.QuotedHandlerMatches` | `utils/validation.ts:14` | Conversely, every such layout at the start of the text is a match of exactly that length. |
| `Validation.QuotedValueMatches` | `utils/validation.ts:14` | After the name and its spaces, `=`, spaces, a quote, non-quotes and a quote give a match that ends at the closing quote. |
| `Validation.QuotedValueFound` | `utils/validation.ts:14` | Conversely, a match's tail after the name is exactly that layout. |
| `Validation.QuotedHandlerShape` | `utils/validation.ts:14` | The quoted-handler pattern matches at the start of the text exactly when the text starts with that layout. |
| `Validation.IsValidLengthVsRange` | `utils/validation.ts:22-25` | `isValidLength` differs from the plain range test `min <= length <= max` only on the empty string, and there exactly when `min == 0` and the range test disagree. |
| `Validation.EmptyLengthIgnoresMax` | `utils/validation.ts:23` | For the empty string, `max` plays no part. |
| `Validation.SafeCharsEverywhere` | `utils/validation.ts:30-33` | The pattern holds exactly when every character is in the allowed class, so it holds for the empty string. |
| `Validation.SafeCharsConcat` | `utils/validation.ts:32` | Holds for `a + b` exactly when it holds for `a` and for `b`. |
| `Validation.SafeCharsAdmitMarkup` | `utils/validation.ts:32` | Markup made of word characters, `<`, `>`, `/`, `=`, quotes and spaces passes. |
| `Validation.SafeCharsRefuse` | `utils/validation.ts:32` | `^`, a backtick, `~`, `ç` and `é` are refused. |
| `Validation.LowerAscii` | `utils/validation.ts:52` | Lower-cases each character and keeps the length. |
| `Validation.IsValidUrlStrict` | `utils/validation.ts:39-68` | Fail-closed. It needs a non-blank input and a parsed `http:` or `https:` protocol. In production it also needs a lower-cased hostname that is not private. |
| `Validation.StrictOutsideProduction` | `utils/validation.ts:50-64` | Outside production, every non-blank web address is accepted, whatever its host. |
| `Validation.StrictProductionAccepts` | `utils/validation.ts:50-64` | In production, every non-blank web address whose lower-cased host is not private is accepted. |
| `Validation.StrictProductionRefusesMore` | `utils/validation.ts:51-62` | Whatever production accepts, development accepts too. |
| `Validation.StrictRefusesLocalhostAnyCase` | `utils/validation.ts:52-54` | `localhost` is refused in any letter case. |
| `Validation.StrictRefusesAll172` | `utils/validation.ts:58` | Every hostname starting with `172.` is refused in production. |
| `Validation.LenientImpliesStrict` | `utils/validation.ts:39-68` | For an absolute address, where parsing with and without the page's origin gives the same scheme, whatever `isValidUrl` accepts, `isValidUrlStrict` accepts too outside production. |
| `Validation.RelativeAddressOnlyLenient` | `utils/validation.ts:43` | The relative address `/demo` is accepted by `isValidUrl`, which resolves it against the origin, and refused by `isValidUrlStrict` even outside production, because `new URL('/demo')` throws. |
| `Validation.NotSuspiciousWithout` | `utils/security.ts:31-40` | Each blocked pattern holds a `:`, an `=` or a `<`, so an address with none of them passes the blocklist. |
| `ContactSection.WithField` | `components/ContactSection.tsx:124-127` | The edited field takes the new value, and the others keep theirs. |
| `ContactSection.AllFieldsListed` | `components/ContactSection.tsx:23-57` | The four fields are all checked. |
| `ContactSection.ValidateErrors` | `components/ContactSection.tsx:23-57` | The error map has a key exactly for each failing field, with that field's first failing message. |
| `ContactSection.FormIsValidIffAllFields` | `components/ContactSection.tsx:57` | The form is valid exactly when each of the four fields passes. |
| `ContactSection.FieldErrorIndependent` | `components/ContactSection.tsx:23-57` | A field's verdict depends on that field alone. |
| `ContactSection.NameErrorOrder` | `components/ContactSection.tsx:27-33` | On the trimmed name: required if blank, else too short below 2, else too long above 100, else no error. |
| `ContactSection.EmailErrorMatchesRegex` | `components/ContactSection.tsx:36-40` | A blank email is required. Otherwise it gets an error exactly when the trimmed value fails the address pattern. |
| `ContactSection.PhoneErrorDigits` | `components/ContactSection.tsx:43-45` | A blank phone gets no error. A non-blank one gets an error exactly when it does not hold 10 or 11 digits. |
| `ContactSection.MessageErrorOrder` | `components/ContactSection.tsx:48-54` | On the trimmed message: required if blank, else too short below 10, else too long above 2000, else no error. |
| `ContactSection.Respond` | `components/ContactSection.tsx:67-110` | Refuses exactly when the limiter denied, and leaves the limiter's map as the limiter left it. |
| `ContactSection.Submit` | `components/ContactSection.tsx:60-114` | Covers a whole submission: see the list after this table. |
| `ContactSection.SubmitAll` | `components/ContactSection.tsx:60-114` | Successive submissions give one outcome each. |
| `ContactSection.SubmitAllFollowsLimiter` | `components/ContactSection.tsx:66-75` | The form's refusals are exactly the bare limiter's denials, whatever is typed, and both end with the same map. |
| `ContactSection.ConsMirror` | `components/ContactSection.tsx:67-70` | Refusals and denials stay aligned call by call. |
| `ContactSection.SixthSubmissionRateLimited` | `components/ContactSection.tsx:66-70` | For a new client, six submissions within one minute: the first five pass the limiter, and the sixth is refused. |
| `ContactSection.Change` | `components/ContactSection.tsx:116-135` | Only the edited field changes. Only its error is blanked, and only if it had one. The success note stays shown only while the form is blank. |
| `ContactSection.ChangeBack` | `components/ContactSection.tsx:116-128` | Editing a field and then restoring its value restores the form. |
| `ContactSection.ContactForm.constructor` | `components/ContactSection.tsx:11-21` | Starts with an empty form, no errors, no notes and nothing sent, sharing the module's limiter. |
| `ContactSection.ContactForm.HandleSubmit` | `components/ContactSection.tsx:60-114` | The outcome, the new state and the limiter's new map are those of `Submit`, with the hostname or `unknown` as the client key. |
| `ContactSection.ContactForm.HandleChange` | `components/ContactSection.tsx:116-135` | The new state is `Change` of the old one. |
| `ContactSection.ContactForm.SuccessTimerFires` | `components/ContactSection.tsx:107` | The timer hides the success note and changes nothing else. |
| `ThemeSelector.DigitValue` | `components/ThemeSelector.tsx:28-30` | A hex digit's value is below 16. |
| `ThemeSelector.LowerDigit` | `components/ThemeSelector.tsx:31` | Gives the lower-case hex digit of a value below 16. |
| `ThemeSelector.HexValueBound` | `components/ThemeSelector.tsx:28-30` | `parseInt(s, 16)` is below `16^len`. |
| `ThemeSelector.HexValueConcat` | `components/ThemeSelector.tsx:70-72` | The value of `a + b` is the value of `a` shifted by `b`'s digits, plus the value of `b`. |
| `ThemeSelector.ZerosAreZero` | `components/ThemeSelector.tsx:31` | A run of zeros has value 0. |
| `ThemeSelector.ZerosValue` | `components/ThemeSelector.tsx:31` | Leading zeros do not change a value. |
| `ThemeSelector.LowerHexUnique` | `components/ThemeSelector.tsx:31` | Two lower-case hex strings of one length and one value are equal. |
| `ThemeSelector.ToHex` | `components/ThemeSelector.tsx:31` | `toString(16)` is non-empty and lower-case. |
| `ThemeSelector.ToHexValue` | `components/ThemeSelector.tsx:31` | `toString(16)` reads back as its number. |
| `ThemeSelector.ToHexLength` | `components/ThemeSelector.tsx:31` | A number below `16^k` has at most `k` digits. |
| `ThemeSelector.PadStart` | `components/ThemeSelector.tsx:31` | `padStart(width, '0')` reaches the width and never shortens its input. |
| `ThemeSelector.PadStartAddsZeros` | `components/ThemeSelector.tsx:31` | `padStart(width, '0')` keeps its input as the suffix and adds only `0`s in front of it. |
| `ThemeSelector.HexColorOf` | `components/ThemeSelector.tsx:31` | A 24-bit value formats as `#` and six lower-case digits that read back as that value. |
| `ThemeSelector.ColorValue` | `components/ThemeSelector.tsx:28` | A colour's value fits in 24 bits. |
| `ThemeSelector.Clamp` | `components/ThemeSelector.tsx:28-30` | `Math.max(0, Math.min(255, x))` is the identity on 0..255, gives 0 below that range and 255 above it. |
| `ThemeSelector.AdjustBrightness` | `components/ThemeSelector.tsx:26-32` | The output is `#` and six lower-case digits, and each channel is the clamped sum of the input channel and `percent`. |
| `ThemeSelector.ChannelsOf` | `components/ThemeSelector.tsx:28-31` | Three bytes packed as `r << 16 \| g << 8 \| b` unpack to themselves. |
| `ThemeSelector.AdjustBrightnessZero` | `components/ThemeSelector.tsx:26-31` | `adjustBrightness(c, 0)` is the lower-case form of `c`. |
| `ThemeSelector.RecombineChannels` | `components/ThemeSelector.tsx:28-31` | The three channels recombine to the colour's value. |
| `ThemeSelector.SameDigits` | `components/ThemeSelector.tsx:26-31` | Strings with the same digit values have the same value. |
| `ThemeSelector.DarkerNeverBrighter` | `components/ThemeSelector.tsx:28-42` | With a non-positive `percent`, no channel of the output exceeds the input's. |
| `ThemeSelector.ChannelBounds` | `components/ThemeSelector.tsx:28-30` | Every channel is at most 255. |
| `ThemeSelector.SixDigits` | `components/ThemeSelector.tsx:70-72` | Six digits split into three pairs whose values recombine to the whole. |
| `ThemeSelector.GlowMatchesChannels` | `components/ThemeSelector.tsx:70-72` | The glow's r, g and b pairs are the colour's red, green and blue channels. |
| `ThemeSelector.PaletteValid` | `components/ThemeSelector.tsx:6-19` | Every palette entry passes the format gate. |
| `ThemeSelector.DefaultColorValid` | `components/ThemeSelector.tsx:23` | `#00E5FF` passes the format gate. |
| `ThemeSelector.ColorToApply` | `components/ThemeSelector.tsx:81-95` | A valid saved colour is used as is, and a missing or malformed one falls back to `#00E5FF`. The result always passes the gate. |
| `ThemeSelector.Decimal` | `components/ThemeSelector.tsx:73-75` | A number prints as a non-empty string of decimal digits. |
| `ThemeSelector.DecimalReadsBack` | `components/ThemeSelector.tsx:73-75` | The printed digits have no leading zero and read back as the number. |
| `ThemeSelector.ThemeVariablesShades` | `components/ThemeSelector.tsx:42-67` | The accent variables take the colour and the primary ones its darker shade, which is a lower-case colour no brighter in any channel. |
| `ThemeSelector.AccentAfterApply` | `components/ThemeSelector.tsx:45-67` | After an apply, the accent is the applied colour. |
| `ThemeSelector.ThemeSelector.constructor` | `components/ThemeSelector.tsx:21-24` | Closed, cyan, no variables set, and storage as given. |
| `ThemeSelector.ThemeSelector.ApplyThemeColor` | `components/ThemeSelector.tsx:34-79` | A malformed colour changes nothing. A valid one sets the theme's variables and nothing else. |
| `ThemeSelector.ThemeSelector.Load` | `components/ThemeSelector.tsx:81-95` | Applies and selects the saved colour or the fallback. A failed read counts as nothing saved. |
| `ThemeSelector.ThemeSelector.HandleColorSelect` | `components/ThemeSelector.tsx:121-148` | A malformed colour changes nothing. A valid one is selected and applied, saved when storage can be written, and closes the panel. |
| `ThemeSelector.ThemeSelector.ResetTheme` | `components/ThemeSelector.tsx:150-170` | Selects and applies `#00E5FF`, and saves it when storage can be written. |
| `ThemeSelector.ThemeSelector.Toggle` | `components/ThemeSelector.tsx:175` | Flips the panel and changes nothing else. |
| `ThemeSelector.ThemeSelector.MouseDown` | `components/ThemeSelector.tsx:111-118` | A press outside closes the panel, and one inside leaves it. |
| `ThemeSelector.SelectedColorReloads` | `components/ThemeSelector.tsx:81-135` | A colour that was saved is the one the next load applies. |
| `Portfolio.CarouselShowsThree` | `components/Portfolio.tsx:123-131` | With at least three projects, every index the arrows reach leaves three cards to show. |
| `Portfolio.MaxIndexIsLastWindow` | `components/Portfolio.tsx:124` | `maxIndex` is the last index that still has three cards from it on. |
| `Portfolio.MoveCarousel` | `components/Portfolio.tsx:123-131` | For any previous index and direction, the result is in `[0, maxIndex]`. Below 0 wraps to `maxIndex`, above wraps to 0, and in range gives `prev + direction`. |
| `Portfolio.ShippedMaxIndex` | `components/Portfolio.tsx:124` | With the four shipped projects, `maxIndex` is 1. |
| `Portfolio.FewItemsStayPut` | `components/Portfolio.tsx:124-129` | With fewer than three projects, every move gives 0. |
| `Portfolio.StepsUndo` | `components/Portfolio.tsx:123-131` | A step back undoes a step forward, and the other way round. |
| `Portfolio.AutoScrollClimbs` | `components/Portfolio.tsx:136-138` | The auto-scroll climbs one card per tick until the last position. |
| `Portfolio.AutoScrollAppend` | `components/Portfolio.tsx:136-138` | Ticks compose. |
| `Portfolio.AutoScrollCycles` | `components/Portfolio.tsx:136-138` | After `maxIndex + 1` ticks the carousel is back where it started. |
| `Portfolio.DemoNeedsWebAddress` | `components/Portfolio.tsx:220-221` | A demo opens only for an `http:` or `https:` address free of every blocked pattern. |
| `Portfolio.ShippedDemosNeverOpen` | `components/Portfolio.tsx:30-66` | Every shipped project has `demo: '#'`, so no demo ever opens. |
| `Testimonials.JsRem` | `components/Testimonials.tsx:78` | JavaScript's `%` keeps the sign of the dividend. |
| `Testimonials.JsRemDivides` | `components/Testimonials.tsx:78` | With the quotient truncated toward zero, the dividend is quotient times divisor plus `%`. |
| `Testimonials.NextInRange` | `components/Testimonials.tsx:78` | The forward step stays in `[0, n)` and wraps from `n - 1` to 0. |
| `Testimonials.PrevInRange` | `components/Testimonials.tsx:164` | The backward step stays in `[0, n)` and wraps from 0 to `n - 1`. |
| `Testimonials.ArrowsInverse` | `components/Testimonials.tsx:78-164` | Back then forward, or forward then back, returns to the original index. |
| `Testimonials.AdvanceVisits` | `components/Testimonials.tsx:76-82` | From the initial 0, the five-second timer shows testimonial `k` after `k` ticks, for `k < n`. |
| `Testimonials.AdvanceCycles` | `components/Testimonials.tsx:76-82` | After `n` ticks the timer is back at 0. |
| `Testimonials.GoToSelects` | `components/Testimonials.tsx:191` | A dot click selects exactly that dot's position. |
| `Navbar.FirstContainingFound` | `components/Navbar.tsx:116-125` | A found key belongs to an entry whose element exists and contains the probe, and no earlier entry does. |
| `Navbar.FirstContainingPicks` | `components/Navbar.tsx:116-125` | The first entry that contains the probe is the one picked. |
| `Navbar.FirstContainingNone` | `components/Navbar.tsx:116-125` | Nothing is found exactly when no entry's element contains the probe. |
| `Navbar.SelectActiveSection` | `components/Navbar.tsx:108-125` | The loop gives the first hit's key, or the current section when none hits. |
| `Navbar.MissingSectionNeverActive` | `components/Navbar.tsx:117-118` | A section with no element is never chosen. |
| `Navbar.ActiveIsALink` | `components/Navbar.tsx:108-125` | The active section stays one of the four link keys. |
| `Navbar.NavbarState.constructor` | `components/Navbar.tsx:94-101` | Not scrolled, `home`, and no frame pending. |
| `Navbar.NavbarState.HandleScroll` | `components/Navbar.tsx:102-133` | Schedules a frame only when none is pending. At most one frame is ever pending, and `ticking` says whether one is. |
| `Navbar.NavbarState.RunFrame` | `components/Navbar.tsx:102-125` | `scrolled` becomes `scrollY > 20`, and the active section is the one for the probe `scrollY + 100`. Afterwards no frame is pending. |
| `Navbar.NavbarState.NavClick` | `components/Navbar.tsx:165-187` | A click sets the active section to that link's key and changes nothing else. |
| `HologramCube.CubeDimsFor` | `components/HologramCube.tsx:74-95` | `translateZ` is half of `cubeSize` and the size is between 180 and 370. Widths up to 480 give exactly 180, and widths above 1200 give exactly 370. |
| `HologramCube.InitialDimsCentred` | `components/HologramCube.tsx:6-7` | The initial 400 and 200 are centred too. |
| `HologramCube.CubeSizeMonotone` | `components/HologramCube.tsx:76-94` | A wider window never gives a smaller cube. |
| `HologramCube.BreakpointsInclusive` | `components/HologramCube.tsx:76-93` | Each breakpoint belongs to the smaller size: 480, 768 and 1200 against 481, 769 and 1201. |

`ContactSection.Submit` states these for a whole submission:

- It refuses exactly when the client already has five timestamps within the minute.
- It sends exactly when the attempt is admitted and the form is valid.
- A refusal changes nothing but the error note and the success note.
- An admitted attempt, valid or not, records `now`.
- An invalid form keeps its data, shows `validateForm`'s errors and clears the error note.
- A send appends the sanitized payload, resets the form and clears the errors.
- The limiter's entries for other clients stay as they were.

## Left out

- The WHATWG URL parser behind `new URL(...)` is not part of this model. Its result, a protocol and a hostname or a failure, is an input of `IsValidUrl` and `IsValidUrlStrict`.
- The second protocol check at `utils/security.ts:26` is not modelled, because the check at line 21 already excludes both protocols it tests.
- String lengths count characters, not UTF-16 code units. The two differ only for characters outside the Basic Multilingual Plane.
- Case-insensitive matching folds ASCII letters only, which is how a regular expression without the `u` flag treats these ASCII patterns. `toLowerCase` on hostnames is modelled on ASCII letters too.
- The DOM, CSS variables and `localStorage` are modelled as the component's fields. The `themechange` event, console output, the `IntersectionObserver` and the animations are not modelled.
- Clocks are left out. The one-second simulated network wait, the five-second success timer and the auto-scroll intervals are not modelled as time. They appear as separate calls: `SuccessTimerFires`, `Advance` and `AutoScroll`.
- `ContactSection.ContactForm.HandleSubmit` does not model the `catch` branch or the `isSubmitting` flag while waiting, because nothing in the `try` block can throw. The flag is set and cleared within one call.
- `Navbar.NavbarState.RunFrame`: `scrollY` is an integer. The browser may report a fractional offset.
- `ThemeSelector.AdjustBrightness` requires a valid `#RRGGBB` colour, because every caller passes a colour that has passed the gate. For other strings the source computes with `NaN`.
- The bit operations `>> 16`, `>> 8 & 0x00ff`, `& 0x0000ff` and `<< 16 | << 8 |` are modelled as division, remainder and multiplication on values below 2^24. They agree there.
- `Navbar`'s mobile menu toggle is not modelled. It opens and closes a panel and holds no rule.
- The mount-time call of `handleScroll` is `HandleScroll` called right after the constructor. The early return when there is no `window` and the removal of the listener on unmount are not modelled.
