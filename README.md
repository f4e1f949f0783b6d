# VibeTube core, modelled in Dafny

VibeTube is a SvelteKit video-sharing site. It runs on Cloudflare Workers, with a D1 (SQLite) database and R2 object storage. This project models its core:

- **Session token** (`auth.ts`). This is an HS256 JSON Web Token in JWS compact form (section 7.1 of RFC 7515). The header and payload are base64url text, and the HMAC covers `header.payload`. The model covers:
  - `b64UrlEncode` / `b64UrlDecode` over standard base64 (section 4 of RFC 4648);
  - `generateToken` / `verifyToken`, with the seven-day expiry;
  - `getUserFromRequest`, which reads the `token` cookie.
- **Server side of the CSRF double submit** (`auth.ts`): the token generator, and the `x-csrf-token` header / `csrf_token` cookie / JSON body lookups. It also covers `validateCsrfToken`, `validateCsrfForRequest` and the looser `validateCsrfMiddleware`.
- **Request driver** (`hooks.server.ts`). It initialises the database schema at most once. It issues a `csrf_token` cookie when the request has none, and answers 403 when the middleware refuses.
- **Browser side of the CSRF double submit** (`csrf.ts`). `getCsrfToken` reads the cookie, and `addCsrfToken` writes the token into the header object and into a JSON body.
- **Display helpers and sanitizers** (`utils.ts`):
  - display helpers: `formatDuration`, `formatTimeAgo` with its Russian plural forms;
  - sanitizers: `sanitizeFilename`, the server-side `sanitizeHtml`, `sanitizeInput` and `sanitizeSqlLike`.
- **Translation lookup and browser stores** (`i18n.ts`, `theme.ts`). The lookup `t` falls back to English. The language and theme stores persist through `localStorage`.
- **API route handlers**: login, register and profile update; likes; subscriptions; comments (list, post, delete, edit); and video listing and upload.

Each handler is a pure function from the request and the table to the response and the new table. Examples: `RegisterEffect`, `PostEffect`, `UploadEffect`. A class holding the table applies that function in place (`UsersTable`, `CommentsTable`, `VideoStore`, `LikesTable`, `SubscriptionsTable`). The class keeps the table's invariant: unique ids below the last row id, and for users unique e-mails and usernames.

The following outside components are parameters of the model:
- the HMAC (`Mac`) and the JSON codec (`JsonCodec`), each with a ghost predicate stating the property the code relies on;
- bcrypt (`Passwords`);
- `encodeURIComponent`;
- the clock (milliseconds) and the random bytes of the CSRF token.

## Model

| member | source | states |
|---|---|---|
| Text.TrimStart | VibeTube/src/lib/utils.ts:163 | the start of `trim`: drops a prefix made only of JavaScript white space and keeps a suffix that begins with a non-space |
| Text.TrimEnd | VibeTube/src/lib/utils.ts:163 | the end of `trim`: drops a suffix made only of white space and keeps a prefix that ends with a non-space |
| Text.TrimUnchanged | VibeTube/src/lib/utils.ts:163 | text with no white space at either end survives `trim` unchanged |
| Text.TrimSkipsLeadingSpace | VibeTube/src/lib/utils.ts:163 | a leading white-space character does not affect `trim` |
| Text.TrimEmptyIff | VibeTube/src/routes/api/auth/register/+server.ts:26-28 | `s.trim()` is empty exactly when every character of `s` is white space; this is the test behind "Username cannot be empty" |
| Text.Split | VibeTube/src/lib/csrf.ts:11 | `split` on one character gives at least one piece, and no piece contains the separator |
| Text.SplitLast | VibeTube/src/routes/api/videos/+server.ts:97 | the last piece of `split` is the whole text exactly when the separator is absent; otherwise it is the suffix after the last separator |
| Text.SplitNoSeparator | VibeTube/src/lib/csrf.ts:13 | text without the separator splits into itself alone |
| Text.SplitConcat | VibeTube/src/lib/csrf.ts:11 | splitting `a + sep + b`, where `a` has no separator, gives `a` followed by the pieces of `b` |
| Text.SplitCount | VibeTube/src/lib/auth.ts:69 | `split` gives exactly one piece more than there are separators |
| Text.OccurrencesConcat | VibeTube/src/routes/api/videos/+server.ts:24-47 | counting a character in a concatenation adds the counts of the parts |
| Text.MapCharsCompose | VibeTube/src/lib/utils.ts:148-153 | two per-character rewrites in a row are one rewrite by the composed mapping |
| Text.MapCharsAll | VibeTube/src/lib/utils.ts:148-153 | if every character's replacement satisfies a property, so does the whole rewritten text |
| Text.ReplaceChain | VibeTube/src/lib/auth.ts:38 | two `replace(/c/g, r)` passes equal one per-character rewrite |
| Text.ReplaceAllAbsent | VibeTube/src/lib/auth.ts:41 | `replace(/c/g, r)` leaves text without `c` unchanged |
| Text.NatToString | VibeTube/src/lib/utils.ts:17 | `toString()` of a natural is a nonempty run of digits without a leading zero |
| Text.NatToStringValue | VibeTube/src/lib/utils.ts:17 | the decimal text of `n` reads back as `n` |
| Text.DigitPrefix | VibeTube/src/routes/api/videos/+server.ts:119 | `parseInt` reads the longest leading run of digits |
| Text.ParseIntRoundTrip | VibeTube/src/routes/api/videos/+server.ts:119 | `parseInt` of any integer's decimal text returns that integer, for negative integers too |
| Base64.Symbol | VibeTube/src/lib/auth.ts:37 | each of the 64 sextet values has a base64 symbol whose index is that value |
| Base64.Body | VibeTube/src/lib/auth.ts:37 | unpadded base64 has 4 symbols per 3 bytes, plus 2 or 3 for a final 1 or 2 bytes, all from the base64 alphabet |
| Base64.DecodeGroup | VibeTube/src/lib/auth.ts:45 | decoding a four-symbol group yields its three bytes, followed by the decoding of the rest |
| Base64.DecodeEncode | VibeTube/src/lib/auth.ts:37-45 | standard base64 decoding inverts encoding for every byte sequence |
| Base64.UrlReplaceChain | VibeTube/src/lib/auth.ts:38 | the three `replace` passes of `b64UrlEncode` equal one rewrite per symbol: `+`→`-`, `/`→`_`, `=` dropped |
| Base64.UrlEncode | VibeTube/src/lib/auth.ts:36-39 | `b64UrlEncode` is the unpadded base64 body with each symbol rewritten (`+`→`-`, `/`→`_`), because the `=` padding the third pass drops is not in the body |
| Base64.UrlEncodeAlphabet | VibeTube/src/lib/auth.ts:36-39 | `b64UrlEncode` output uses only URL-safe symbols, is as long as the unpadded body, and is nonempty for nonempty input |
| Base64.Repad | VibeTube/src/lib/auth.ts:42-44 | the padding loop brings the length to a multiple of 4 and adds fewer than 4 characters |
| Base64.B64UrlDecode | VibeTube/src/lib/auth.ts:40-46 | the rewrite, the `while (input.length % 4)` padding loop and the decode return exactly `UrlDecode(input)` |
| Base64.UrlToStandardUndoes | VibeTube/src/lib/auth.ts:41 | mapping `-`→`+` and `_`→`/` undoes the URL rewrite on base64 symbols |
| Base64.RepadBody | VibeTube/src/lib/auth.ts:42-44 | re-padding the unpadded body restores the standard encoding |
| Base64.UrlRoundTrip | VibeTube/src/lib/auth.ts:36-46 | `b64UrlDecode(b64UrlEncode(b))` is `b` for every byte sequence |
| Jwt.Ascii | VibeTube/src/lib/auth.ts:57 | `TextEncoder` maps ASCII text to one byte per character, with the same code |
| Jwt.Issue | VibeTube/src/lib/auth.ts:51-55 | the payload copies the user's id, name, e-mail and avatar (when given), `iat` is the current second, and `exp` is a week later when both clock reads fall in the same second |
| Jwt.GenerateToken | VibeTube/src/lib/auth.ts:48-65 | the token splits at its dots into exactly the URL encoding of the fixed header, the URL encoding of the stringified claims issued for the user, and the URL encoding of the HMAC of `header.payload` |
| Jwt.VerifyToken | VibeTube/src/lib/auth.ts:67-98 | an accepted token has three nonempty segments, and its signature is the HMAC of `header.payload`; the claims are the parse of the payload and are not expired |
| Jwt.FewerThanTwoDotsRejected | VibeTube/src/lib/auth.ts:69-70 | a token with fewer than two dots is refused |
| Jwt.EmptyHeaderRejected | VibeTube/src/lib/auth.ts:70 | a token with an empty header segment is refused |
| Jwt.SignedShape | VibeTube/src/lib/auth.ts:60-64 | a signed token splits into header, payload and the URL encoding of the MAC of `header.payload` |
| Jwt.GenerateTokenShape | VibeTube/src/lib/auth.ts:48-65 | `generateToken` yields three nonempty segments: the encoded fixed header, the encoded claims and their signature |
| Jwt.RoundTrip | VibeTube/src/lib/auth.ts:48-98 | a generated token verifies, up to its expiry, to exactly the issued claims |
| Jwt.AcceptedAtExpiryInstant | VibeTube/src/lib/auth.ts:89 | the expiry test is strict, so a token is still accepted at the very millisecond of `exp` |
| Jwt.ExpiredTokenRejected | VibeTube/src/lib/auth.ts:89-91 | a generated token is refused once its `exp` has passed |
| Jwt.ForgedSignatureRejected | VibeTube/src/lib/auth.ts:76-83 | any signature other than the HMAC of `header.payload` is refused |
| Jwt.ExtraSegmentsIgnored | VibeTube/src/lib/auth.ts:69 | segments after the third are ignored by the destructuring |
| Jwt.VerifySigned | VibeTube/src/lib/auth.ts:67-93 | a correctly signed token verifies to whatever its payload segment parses to, if not expired |
| Jwt.HeaderNeverInspected | VibeTube/src/lib/auth.ts:69-93 | the header segment is signed but never read: two tokens that differ only in header verify alike |
| Http.Header | VibeTube/src/lib/auth.ts:145 | `headers.get` returns the header's value, or nothing when the header is absent |
| Http.Cookie | VibeTube/src/lib/auth.ts:148-153 | a cookie value is found only when a `cookie` header exists and the parsed cookies contain it |
| Session.GetUserFromRequest | VibeTube/src/lib/auth.ts:121-132 | no `token` cookie means no user, and a user is returned only from an unexpired token |
| Session.SessionIdentifiesUser | VibeTube/src/lib/auth.ts:121-132 | a request carrying a token issued for a user yields that user's claims until expiry |
| CsrfGuard.HexDigit | VibeTube/src/lib/auth.ts:140 | each nibble has a hex digit that reads back as it |
| CsrfGuard.HexEncode | VibeTube/src/lib/auth.ts:140 | hex text has two hex digits per byte |
| CsrfGuard.HexRoundTrip | VibeTube/src/lib/auth.ts:140 | hex decoding inverts `toString('hex')` |
| CsrfGuard.GenerateCsrfToken | VibeTube/src/lib/auth.ts:138-141 | the token is 64 hex digits that encode exactly the 32 random bytes |
| CsrfGuard.FromRequest | VibeTube/src/lib/auth.ts:143-156 | the header token wins; without it, the `csrf_token` cookie is used |
| CsrfGuard.FromBody | VibeTube/src/lib/auth.ts:161-173 | the body token is read only from a JSON request, and it is the body's `csrf_token` |
| CsrfGuard.ValidateCsrfToken | VibeTube/src/lib/auth.ts:175-198 | a provided token is valid exactly when it is nonempty and equals the `csrf_token` cookie |
| CsrfGuard.ValidateCsrfForRequest | VibeTube/src/lib/auth.ts:203-232 | both directions: valid exactly for safe methods, the skipped login and register paths, or a cookie matched by the header (or by the cookie itself); "CSRF token is required" exactly when no header, cookie or body token exists |
| CsrfGuard.ValidateCsrfMiddleware | VibeTube/src/lib/auth.ts:234-256 | both directions: valid exactly for safe methods, skipped paths, any JSON request, or a cookie matched by the header; any refusal says "Invalid CSRF token" |
| CsrfGuard.ForRequestImpliesMiddleware | VibeTube/src/lib/auth.ts:203-256 | whatever the per-route check accepts, the middleware accepts; for non-JSON requests the two agree |
| CsrfGuard.CookieAlonePasses | VibeTube/src/lib/auth.ts:143-156 | with no header, the cookie is compared with itself, so the cookie alone passes both checks |
| CsrfGuard.JsonBypassesMiddleware | VibeTube/src/lib/auth.ts:247-253 | the middleware lets every JSON request through unchecked |
| CsrfGuard.BodyTokenNeverSuffices | VibeTube/src/lib/auth.ts:175-184 | a guarded request with no `csrf_token` cookie is refused whatever its body says |
| Hooks.Server.Handle | VibeTube/src/hooks.server.ts:12-53 | initialisation runs only while not yet done and a database exists; a CSRF cookie is issued exactly when the request has none; the outcome is the middleware's verdict |
| Hooks.CsrfCookie | VibeTube/src/hooks.server.ts:32-41 | the issued cookie is `csrf_token`, holds the hex of the random bytes, and has path `/`, script access, `lax`, secure in production and a 604800-second life |
| Hooks.Decide | VibeTube/src/hooks.server.ts:44-52 | the request is refused with 403 "Invalid CSRF token" exactly when the middleware refuses it |
| Hooks.FirstMutationRefused | VibeTube/src/hooks.server.ts:29-50 | a guarded non-JSON request without the cookie is refused, even though a cookie is being issued in the same response |
| Hooks.IssuedCookieAdmitsNextRequest | VibeTube/src/hooks.server.ts:32-52 | once the issued cookie is sent back, the next request passes |
| CsrfClient.FirstNamed | VibeTube/src/lib/csrf.ts:12-17 | the loop stops at the first piece named `csrf_token` |
| CsrfClient.LookupAt | VibeTube/src/lib/csrf.ts:12-17 | the value returned is that of the first piece named `csrf_token` |
| CsrfClient.GetCsrfToken | VibeTube/src/lib/csrf.ts:8-19 | the `for` loop returns `CsrfTokenOf(document)`: null without a document or a match, else the first match's value |
| CsrfClient.ReadsSoleCookie | VibeTube/src/lib/csrf.ts:8-19 | a cookie string holding only `csrf_token=t` yields `t` |
| CsrfClient.ReadsCookieAfterAnother | VibeTube/src/lib/csrf.ts:11-15 | after another cookie and `; `, the token is still found, because of the `trim` |
| CsrfClient.FromEntries | VibeTube/src/lib/csrf.ts:28-30 | `Object.fromEntries` has exactly the keys named by the entries |
| CsrfClient.HeadersObject | VibeTube/src/lib/csrf.ts:27-31 | a plain header object is reused in place, while `Headers` and pair arrays become a fresh object of their entries |
| CsrfClient.AddCsrfToken | VibeTube/src/lib/csrf.ts:24-49 | `X-CSRF-Token` is set only for a truthy token; an object body gets `csrf_token` (even null) and is returned as JSON; any other body is returned as given |
| Email.Find | VibeTube/src/routes/api/auth/register/+server.ts:31 | the first occurrence of a character, or the length when absent |
| Email.ValidEmailIffPattern | VibeTube/src/routes/api/auth/register/+server.ts:31-32 | the executable scan accepts exactly the texts matching `^[^\s@]+@[^\s@]+\.[^\s@]+$` |
| Email.PatternScan | VibeTube/src/routes/api/auth/register/+server.ts:31 | any split as `name@host.tld` into nonempty runs without spaces or `@` is accepted |
| Email.AcceptsNameAtHostDotDomain | VibeTube/src/routes/api/auth/register/+server.ts:31-32 | `name@host.tld` passes for every choice of plain runs |
| Email.RejectsTwoAts | VibeTube/src/routes/api/auth/register/+server.ts:31 | no text with two `@` matches the pattern |
| TimeFormat.JsRem | VibeTube/src/lib/utils.ts:13-14 | JavaScript `%` takes the sign of the dividend: the mathematical remainder for non-negative operands, and minus the remainder of the magnitude for a negative dividend; always strictly between `-b` and `b` |
| TimeFormat.DurationParts | VibeTube/src/lib/utils.ts:12-14 | for non-negative seconds, the hours, minutes (below 60) and seconds (below 60) add back to the input |
| TimeFormat.FormatDuration | VibeTube/src/lib/utils.ts:11-20 | for non-negative seconds the text splits at `:` into three fields from one hour on and two below; the first field is a nonempty numeral and every later field exactly two digits |
| TimeFormat.LongShape | VibeTube/src/lib/utils.ts:17 | `H:MM:SS` splits into the hours numeral and two two-digit fields |
| TimeFormat.ShortShape | VibeTube/src/lib/utils.ts:19 | `M:SS` splits into the minutes numeral and one two-digit field |
| TimeFormat.ReadsLongForm | VibeTube/src/lib/utils.ts:17 | `H:MM:SS` text reads back as `h*3600 + m*60 + s` |
| TimeFormat.ReadsShortForm | VibeTube/src/lib/utils.ts:19 | `M:SS` text reads back as `m*60 + s` |
| TimeFormat.DurationRoundTrip | VibeTube/src/lib/utils.ts:11-20 | `formatDuration` loses nothing: its text reads back as the same number of seconds |
| TimeFormat.TimeAgoBucket | VibeTube/src/lib/utils.ts:35-91 | as written: "just now" exactly below 60 s; each unit covers the interval its tests allow, and the count is whole units |
| TimeFormat.Render | VibeTube/src/lib/utils.ts:52-91 | a bucket with a count is written as that count's numeral and a space first, so a non-negative count starts with a digit, and a count of at least 1 does not start with `0` |
| TimeFormat.JustNowIsNoCount | VibeTube/src/lib/utils.ts:38-52 | no counted bucket is rendered as the "just now" text, in either language |
| TimeFormat.FormatTimeAgo | VibeTube/src/lib/utils.ts:22-92 | as written: "just now" (or `только что`) exactly for differences below 60 s, and from then on a text beginning with a count's digit |
| TimeFormat.FormatTimeAgoFixed | VibeTube/src/lib/utils.ts:22-92 | corrected: the same "just now" boundary, and every count shown starts with a digit other than `0` |
| TimeFormat.ZeroMonthsAgo | VibeTube/src/lib/utils.ts:79-84 | as written, `formatTimeAgo` of 28 days reads "0 months ago", because that difference falls in the months bucket with count 0 |
| TimeFormat.ZeroYearsAgo | VibeTube/src/lib/utils.ts:87-91 | as written, `formatTimeAgo` of 360 days reads "0 years ago", because that difference falls in the years bucket with count 0 |
| TimeFormat.TimeAgoBucketFixed | VibeTube/src/lib/utils.ts:35-91 | corrected: weeks until 30 days and months until 365, so every shown count is at least 1 |
| TimeFormat.FixedBucketMonotone | VibeTube/src/lib/utils.ts:35-91 | corrected buckets never go back to a smaller unit or count as time passes |
| TimeFormat.RussianPlural | VibeTube/src/lib/utils.ts:94-128 | the rule of the `getRussian*Word` helpers: the singular only for last digit 1, the paucal only for last digits 2–4, the genitive plural for every ending 11–14 and every last digit 0 or 5–9 |
| TimeFormat.RussianPluralLastTwoDigits | VibeTube/src/lib/utils.ts:94-128 | the Russian word form depends only on the last two digits |
| TimeFormat.RussianPluralBelowHundred | VibeTube/src/lib/utils.ts:94-128 | both directions: singular exactly for 1, 21, …, 91; "few" exactly for last digit 2–4 outside 12–14 |
| TimeFormat.EnglishSingularIffOne | VibeTube/src/lib/utils.ts:52-91 | the English unit is singular exactly when the count is 1, otherwise it takes an `s` |
| Sanitize.SanitizeFilename | VibeTube/src/lib/utils.ts:130-132 | same length; letters, digits, `.`, `_` and `-` kept and lower-cased; every other character becomes `_` |
| Sanitize.SanitizeFilenameIdempotent | VibeTube/src/lib/utils.ts:130-132 | sanitizing a sanitized name changes nothing |
| Sanitize.EscapeChainIsPerChar | VibeTube/src/lib/utils.ts:148-153 | the five `replace` passes, `&` first, escape each character independently |
| Sanitize.EscapeChainConcat | VibeTube/src/lib/utils.ts:148-153 | escaping distributes over concatenation |
| Sanitize.EscapeAmp | VibeTube/src/lib/utils.ts:149 | `&` becomes `&amp;`, which the later passes leave alone |
| Sanitize.EscapeLt | VibeTube/src/lib/utils.ts:150 | `<` becomes `&lt;` |
| Sanitize.EscapeGt | VibeTube/src/lib/utils.ts:151 | `>` becomes `&gt;` |
| Sanitize.EscapeQuot | VibeTube/src/lib/utils.ts:152 | `"` becomes `&quot;` |
| Sanitize.EscapeApos | VibeTube/src/lib/utils.ts:153 | `'` becomes `&#039;` |
| Sanitize.EscapeOther | VibeTube/src/lib/utils.ts:148-153 | any other character is kept |
| Sanitize.SanitizeHtml | VibeTube/src/lib/utils.ts:138-154 | the server-side result is the input with each character escaped independently by the five replacements, and it never contains `<`, `>`, `"` or `'` |
| Sanitize.EscapedHasNoMarkup | VibeTube/src/lib/utils.ts:148-153 | escaping every character leaves no `<`, `>`, `"` or `'` in the text |
| Sanitize.SanitizeHtmlRoundTrip | VibeTube/src/lib/utils.ts:138-154 | unescaping the output restores the input exactly, including the empty text |
| Sanitize.RemoveControls | VibeTube/src/lib/utils.ts:166 | the control-character pass is no longer than its input, leaves no control character, and keeps control-free text as is |
| Sanitize.RemoveControlsConcat | VibeTube/src/lib/utils.ts:166 | the pass works piece by piece: the result for `a + b` is the result for `a` followed by that for `b` |
| Sanitize.RemoveControlsChar | VibeTube/src/lib/utils.ts:166 | a single control character is removed, and any other single character is kept |
| Sanitize.RemoveControlsCounts | VibeTube/src/lib/utils.ts:166 | every other character is kept exactly as often as it occurs, and no control character remains |
| Sanitize.Prefix | VibeTube/src/lib/utils.ts:163 | `substring(0, n)` is the first `n` characters, clamped to the text |
| Sanitize.SanitizeInput | VibeTube/src/lib/utils.ts:159-169 | the result is no longer than the trimmed input or the limit, and holds no control character |
| Sanitize.SanitizeInputSteps | VibeTube/src/lib/utils.ts:159-169 | the result is trim, then cut to `maxLength`, then control removal, in that order (the empty-input guard changes nothing); each other character of the cut text survives as often as it occurs there |
| Sanitize.SanitizeInputKeepsCleanInput | VibeTube/src/lib/utils.ts:159-169 | trimmed, short, control-free input is returned unchanged |
| Sanitize.SanitizeInputMayEndInSpace | VibeTube/src/lib/utils.ts:163-166 | because controls are removed after the trim, the result can end in a space |
| Sanitize.SanitizeSqlLike | VibeTube/src/lib/utils.ts:174-180 | the result escapes each character independently: `\` becomes `\\`, `%` becomes `\%`, `_` becomes `\_`, every other character kept |
| Sanitize.LikeChainIsPerChar | VibeTube/src/lib/utils.ts:177-179 | the three `replace` passes, backslash first, equal one per-character escape |
| Sanitize.Literally | VibeTube/src/lib/utils.ts:174-180 | a text read as a pattern of literals only |
| Sanitize.SanitizeSqlLikeLiteral | VibeTube/src/lib/utils.ts:174-180 | read as a LIKE pattern with `\` escape, the output matches the input literally, with no wildcard left |
| I18n.T | VibeTube/src/lib/i18n.ts:351-353 | the entry in the chosen language if nonempty, else the English entry if nonempty, else the key itself |
| I18n.TNeverEmpty | VibeTube/src/lib/i18n.ts:351-353 | a nonempty key never translates to empty text |
| I18n.RussianFallsBackToEnglish | VibeTube/src/lib/i18n.ts:352 | a missing or empty Russian entry shows the English text |
| I18n.UnknownKeyShownAsIs | VibeTube/src/lib/i18n.ts:352 | a key in neither table is shown as is |
| I18n.DetectBrowserLanguage | VibeTube/src/lib/i18n.ts:320-327 | both directions: Russian exactly when the navigator language starts with `ru` in any case; English without a navigator |
| I18n.LowerStartsWithRu | VibeTube/src/lib/i18n.ts:323-325 | lower-casing, then testing the `ru` prefix, is a case-blind test of the first two characters |
| I18n.InitialLanguage | VibeTube/src/lib/i18n.ts:332-333 | a nonempty stored value wins, else the detected language |
| I18n.InitialLanguageKnown | VibeTube/src/lib/i18n.ts:332-333 | with nothing or a known code stored, the initial language is `en` or `ru` |
| I18n.LanguageStore.constructor | VibeTube/src/lib/i18n.ts:330-335 | the store starts at the initial language read from storage |
| I18n.LanguageStore.Set | VibeTube/src/lib/i18n.ts:339-344 | the store and, when present, `localStorage` hold the new language |
| I18n.SetSurvivesReload | VibeTube/src/lib/i18n.ts:332-344 | a language that was set is the initial language after reload |
| Browser.LocalStorage.GetItem | VibeTube/src/lib/theme.ts:9 | `getItem` returns the stored value, or null for a missing key |
| Browser.LocalStorage.SetItem | VibeTube/src/lib/theme.ts:25 | `setItem` stores the value under the key and changes nothing else |
| Theme.GetInitialTheme | VibeTube/src/lib/theme.ts:6-16 | both directions: light exactly in the browser with `light` stored; dark otherwise |
| Theme.NextTheme | VibeTube/src/lib/theme.ts:31-32 | light after toggling exactly when the stored theme is missing, empty or `dark` (always on the server); dark otherwise |
| Theme.ToggleTwiceRestores | VibeTube/src/lib/theme.ts:30-39 | in the browser, two toggles restore the theme |
| Theme.ThemeStore.constructor | VibeTube/src/lib/theme.ts:18-48 | the store starts at the initial theme and, in the browser, the document shows it |
| Theme.ThemeStore.Set | VibeTube/src/lib/theme.ts:23-29 | the store holds the theme; in the browser, storage and `data-theme` hold it too |
| Theme.ThemeStore.Toggle | VibeTube/src/lib/theme.ts:30-39 | the new theme is computed from storage, and stored and shown in the browser |
| Api.Extension | VibeTube/src/routes/api/videos/+server.ts:97 | `name.split('.').pop()` has no dot; a name without a dot is its own extension; otherwise the name is a shorter stem, a dot and the extension |
| Api.ExtensionOf | VibeTube/src/routes/api/videos/+server.ts:97 | the extension of `stem.ext`, for an `ext` without a dot, is `ext` |
| Api.FirstIndex | VibeTube/src/routes/api/auth/login/+server.ts:22-24 | `.first()` of a `WHERE` query: the index of the first row satisfying the condition, no earlier row satisfying it, or the table's length when none does |
| Api.R2Url | VibeTube/src/routes/api/videos/+server.ts:122 | the stored URL is `/r2/` followed by the object key |
| Accounts.SessionCookie | VibeTube/src/routes/api/auth/login/+server.ts:48 | the `Set-Cookie` value starts with `token=` |
| Accounts.SessionCookieLastsAWeek | VibeTube/src/routes/api/auth/login/+server.ts:48 | the cookie is `token=…; Path=/; HttpOnly; SameSite=Lax; Max-Age=604800` |
| Accounts.FindByEmail | VibeTube/src/routes/api/auth/login/+server.ts:22-24 | the first row with the e-mail, or the table's length when none |
| Accounts.FindById | VibeTube/src/routes/api/user/update/+server.ts:63-65 | the first row with the id, or the table's length when none |
| Accounts.Login | VibeTube/src/routes/api/auth/login/+server.ts:6-56 | in the source's order: 500 "Database connection failed", 500 "Login failed" for an unreadable body, 400 "Email and password are required", 401 "Invalid credentials" when the first row with that e-mail is missing or its hash does not verify the password; a 200 answer holds a row with that e-mail whose hash verifies the password, its payload, its token and the week-long cookie |
| Accounts.LoginRefusalIsUniform | VibeTube/src/routes/api/auth/login/+server.ts:26-28 | both directions: "Invalid credentials" exactly when no row with that e-mail verifies the password, whether the e-mail is unknown or the password wrong |
| Accounts.LoginAcceptsRegisteredPassword | VibeTube/src/routes/api/auth/login/+server.ts:22-44 | a row's e-mail with the password its hash was made from logs in as that row |
| Accounts.LoginTokenVerifies | VibeTube/src/routes/api/auth/login/+server.ts:33-44 | the token a login returns verifies to the logged-in user's claims until expiry |
| Accounts.RegisterRefusal | VibeTube/src/routes/api/auth/register/+server.ts:7-47 | in the source's order: 500 "Database connection failed", 500 "Registration failed" for an unreadable body, 400 "All fields are required", 400 "Username cannot be empty", 400 "Invalid email format", 400 "Password must be at least 6 characters", 409 "User already exists"; and accepted exactly when none applies |
| Accounts.RegisterAccepted | VibeTube/src/routes/api/auth/register/+server.ts:18-47 | both directions: accepted exactly with a database, all three fields, a nonblank sanitized name (at most 50 characters), a valid sanitized e-mail (at most 100), a password of at least 6 characters, and no row with that e-mail or name |
| Accounts.BlankUsernameReportedFirst | VibeTube/src/routes/api/auth/register/+server.ts:23-28 | an all-space username is reported as "Username cannot be empty" before the e-mail check |
| Accounts.NewUser | VibeTube/src/routes/api/auth/register/+server.ts:49-56 | the inserted row holds the sanitized name and e-mail, the bcrypt hash of the password and the generated avatar URL |
| Accounts.Welcome | VibeTube/src/routes/api/auth/register/+server.ts:59-76 | the 201 answer echoes the row's id, name, e-mail and avatar, and its token is issued for exactly that id, name, e-mail and avatar; the cookie carries that token |
| Accounts.AppendKeepsUnique | VibeTube/src/routes/api/auth/register/+server.ts:41-56 | appending an unclashing row with a fresh id keeps ids, e-mails and usernames unique |
| Accounts.RegisterEffect | VibeTube/src/routes/api/auth/register/+server.ts:7-81 | refused exactly when `RegisterRefusal` says so, with its status and message and the table alone; otherwise 201, the old rows kept, and one row appended: the `NewUser` row for the body with the next id, answered by its `Welcome` |
| Accounts.RegisterKeepsValid | VibeTube/src/routes/api/auth/register/+server.ts:41-56 | registration preserves the table invariant |
| Accounts.RegisterStoresHash | VibeTube/src/routes/api/auth/register/+server.ts:49-76 | the stored row holds the password's hash, the sanitized name and e-mail and the generated avatar; the answer echoes that row and carries a token for its id, name, e-mail and avatar, with the session cookie |
| Accounts.RegisterTokenVerifies | VibeTube/src/routes/api/auth/register/+server.ts:59-66 | the registration token verifies, until it expires, to the new user's id, name, e-mail and avatar |
| Accounts.RegisterThenLogin | VibeTube/src/routes/api/auth/register/+server.ts:7-81 | logging in right after registering, with the stored e-mail and the same password, succeeds as the new user (id, name, e-mail, no avatar), with a token for that user and its cookie |
| Accounts.UsersTable.constructor | VibeTube/src/routes/api/auth/register/+server.ts:53-56 | the users table starts empty |
| Accounts.UsersTable.Register | VibeTube/src/routes/api/auth/register/+server.ts:7-81 | the answer and the new rows are those of `RegisterEffect` on the old rows; the last id advances exactly on success; the table invariant (unique ids, e-mails and usernames) is kept |
| Accounts.UsersTable.UpdateProfile | VibeTube/src/routes/api/user/update/+server.ts:9-124 | applies `UpdateEffect` in place and keeps the invariant |
| Accounts.UpdateRefusal | VibeTube/src/routes/api/user/update/+server.ts:9-124 | in the source's order: 500 configuration error, 401 "Unauthorized", 500 "Failed to update profile" for an unreadable form, 400 "Username and email are required", 400 "Invalid email format", 400 "Username cannot be empty", 409 "Username or email already taken", and 500 "Failed to update profile" when the user's row is missing and the handler must read its avatar or banner (not both images sent); accepted exactly when none applies |
| Accounts.UpdateAccepted | VibeTube/src/routes/api/user/update/+server.ts:34-109 | both directions: accepted exactly with configuration, a user, both fields, a valid sanitized e-mail, a nonblank sanitized name, no other user holding either, and either the user's row present or both images sent |
| Accounts.ImageUrl | VibeTube/src/routes/api/user/update/+server.ts:73-97 | a URL exactly for a nonempty upload: `/r2/users/<folder>/<id>_<time>.<ext>` |
| Accounts.Updated | VibeTube/src/routes/api/user/update/+server.ts:100-111 | id and password kept; name and e-mail sanitized to 50 and 100; the description sanitized to 500, null when that is empty; avatar and banner replaced by the new image URL exactly when a nonempty file was sent, otherwise kept |
| Accounts.EmptyDescriptionStoredAsNull | VibeTube/src/routes/api/user/update/+server.ts:41-107 | a missing or all-space description is stored as null |
| Accounts.UpdateKeepsUnique | VibeTube/src/routes/api/user/update/+server.ts:54-111 | an update that passed the clash check keeps e-mails and usernames unique |
| Accounts.UpdateKeepsValid | VibeTube/src/routes/api/user/update/+server.ts:54-111 | such an update preserves the table invariant |
| Accounts.UpdateEffect | VibeTube/src/routes/api/user/update/+server.ts:9-124 | refused exactly when `UpdateRefusal` says so, with its status and message and the table untouched; otherwise 200: the user's row replaced by `Updated` of it and answered as its profile, every other row unchanged, or, with no such row (both images sent), `{ user: null }` and the table unchanged |
| Accounts.UpdateEffectKeepsValid | VibeTube/src/routes/api/user/update/+server.ts:9-124 | every update request preserves the table invariant |
| Likes.ParseVote | VibeTube/src/routes/api/likes/+server.ts:24 | both directions: a vote exactly for `like` or `dislike` |
| Likes.Toggle | VibeTube/src/routes/api/likes/+server.ts:30-58 | added when no vote exists, removed when the same vote exists, otherwise updated; other votes untouched |
| Likes.ToggleTwice | VibeTube/src/routes/api/likes/+server.ts:30-58 | both directions: voting the same way twice restores the votes exactly when the first vote did not replace a different one |
| Likes.LikeRefusal | VibeTube/src/routes/api/likes/+server.ts:7-63 | in the source's order: 500 without a database, 401 without a user, 500 "Failed to process like" for an unreadable body, 400 "Invalid request" exactly for a missing or zero video id or an unknown vote; accepted otherwise |
| Likes.LikeOf | VibeTube/src/routes/api/likes/+server.ts:65-88 | the user's vote on the video, or null when there is no database, user or video id |
| Likes.LikesTable.Post | VibeTube/src/routes/api/likes/+server.ts:7-63 | refused exactly as `LikeRefusal` says, with votes untouched; otherwise the toggle is applied and its action reported |
| Likes.PostThenGet | VibeTube/src/routes/api/likes/+server.ts:7-88 | after a vote, GET shows it, or null when it was removed |
| Subscriptions.SubscribeRefusal | VibeTube/src/routes/api/subscriptions/+server.ts:6-37 | 401 without a user, 500 "Failed to process subscription" for an unreadable body, 400 "Channel ID is required" for a missing or zero channel, 400 "Cannot subscribe to yourself"; accepted exactly for a nonzero channel other than the user's own |
| Subscriptions.Flip | VibeTube/src/routes/api/subscriptions/+server.ts:24-32 | removes an existing subscription or adds a missing one, and reports whether the user is now subscribed |
| Subscriptions.FlipTwice | VibeTube/src/routes/api/subscriptions/+server.ts:24-32 | two posts restore the subscriptions, with opposite answers |
| Subscriptions.Subscribed | VibeTube/src/routes/api/subscriptions/+server.ts:39-50 | subscribed exactly when a user and channel are given and the pair is stored |
| Subscriptions.FlipKeepsNoSelf | VibeTube/src/routes/api/subscriptions/+server.ts:20-32 | no accepted post makes a user subscribe to themself |
| Subscriptions.SubscriptionsTable.Post | VibeTube/src/routes/api/subscriptions/+server.ts:6-37 | refused exactly as `SubscribeRefusal` says, pairs untouched; otherwise the flip is applied and reported, keeping the no-self invariant |
| Subscriptions.PostThenGet | VibeTube/src/routes/api/subscriptions/+server.ts:6-50 | GET after a post reports what the post answered |
| Comments.InOrderTotal | VibeTube/src/routes/api/comments/+server.ts:22 | any two comments are comparable in each listing order |
| Comments.InOrderTransitive | VibeTube/src/routes/api/comments/+server.ts:22 | the listing orders are transitive |
| Comments.Insert | VibeTube/src/routes/api/comments/+server.ts:22 | inserting into a sorted list keeps it sorted and adds exactly that comment |
| Comments.SortBy | VibeTube/src/routes/api/comments/+server.ts:22-34 | `ORDER BY` yields a sorted permutation |
| Comments.Select | VibeTube/src/routes/api/comments/+server.ts:21-33 | `WHERE` keeps exactly the rows satisfying the condition, with their multiplicities |
| Comments.ListComments | VibeTube/src/routes/api/comments/+server.ts:7-41 | 400 without a video id; otherwise exactly the video's top-level comments, pinned first then newest, each with exactly its replies, oldest first |
| Comments.CsrfRefusal | VibeTube/src/routes/api/comments/+server.ts:45-48 | 403, with the CSRF check's message, exactly when that check fails |
| Comments.FindComment | VibeTube/src/routes/api/comments/+server.ts:108 | the first row with the id, or the table's length when none |
| Comments.PostRefusal | VibeTube/src/routes/api/comments/+server.ts:43-90 | the CSRF refusal first, then 401, 500 "Failed to create comment" for an unreadable body, 400 "Video ID and content are required", 400 "Comment content cannot be empty"; accepted exactly when none applies |
| Comments.ParentOf | VibeTube/src/routes/api/comments/+server.ts:74 | `parentId \|\| null`: a reply exactly for a nonzero parent id |
| Comments.PostEffect | VibeTube/src/routes/api/comments/+server.ts:43-90 | refused exactly as `PostRefusal` says, table untouched; otherwise 201 and the appended row has the next id, the author, the sanitized content and the parent, unpinned |
| Comments.AppendFresh | VibeTube/src/routes/api/comments/+server.ts:71-74 | appending a row with the next id keeps ids unique and below the last id |
| Comments.PostKeepsValid | VibeTube/src/routes/api/comments/+server.ts:71-74 | posting preserves the table invariant |
| Comments.DeleteRefusal | VibeTube/src/routes/api/comments/+server.ts:92-123 | the CSRF refusal first, then 401, 400 "Comment ID required", 404 "Comment not found", 403 "Not authorized to delete this comment"; accepted exactly for an existing comment of the requesting user |
| Comments.DeleteEffect | VibeTube/src/routes/api/comments/+server.ts:92-123 | refused exactly as `DeleteRefusal` says, table untouched; otherwise `{ success: true }` |
| Comments.RemoveAt | VibeTube/src/routes/api/comments/+server.ts:117 | removing one row keeps the invariant and drops exactly the rows with its id |
| Comments.DeleteRemovesOwnComment | VibeTube/src/routes/api/comments/+server.ts:108-118 | a successful delete removed exactly the user's own comment with that id and nothing else |
| Comments.EditRefusal | VibeTube/src/routes/api/comments/+server.ts:125-166 | the CSRF refusal first, then 401, 500 "Failed to edit comment", 400 "Comment ID and content required", 400 "Comment content cannot be empty", 404 "Comment not found", 403 "Not authorized to edit this comment"; accepted exactly when none applies |
| Comments.EditEffect | VibeTube/src/routes/api/comments/+server.ts:125-166 | refused exactly as `EditRefusal` says, table untouched; otherwise only that comment's content changes, to the sanitized text |
| Comments.EditKeepsValid | VibeTube/src/routes/api/comments/+server.ts:160 | editing preserves the table invariant |
| Comments.ForeignCommentUntouched | VibeTube/src/routes/api/comments/+server.ts:113-115 | another user's comment is neither deleted nor edited, and deleting it answers 403 |
| Comments.CsrfCheckedFirst | VibeTube/src/routes/api/comments/+server.ts:45-48 | a failed CSRF check answers 403 for post, delete and edit alike |
| Comments.CommentsTable.constructor | VibeTube/src/routes/api/comments/+server.ts:71-74 | the comments table starts empty |
| Comments.CommentsTable.Post | VibeTube/src/routes/api/comments/+server.ts:43-90 | applies `PostEffect` in place and advances the last id on success |
| Comments.CommentsTable.Delete | VibeTube/src/routes/api/comments/+server.ts:92-123 | applies `DeleteEffect` in place |
| Comments.CommentsTable.Edit | VibeTube/src/routes/api/comments/+server.ts:125-166 | applies `EditEffect` in place |
| Videos.QueryMarks | VibeTube/src/routes/api/videos/+server.ts:24-47 | the query text has one `?` per bound parameter: 1 for a user filter, 2 for a search, 0 otherwise, plus 2 for paging |
| Videos.ListVideosQuery | VibeTube/src/routes/api/videos/+server.ts:13-52 | 500 without a database; otherwise the query has as many `?` as parameters, ends with limit and offset, and binds the user id or the `%search%` pattern twice |
| Videos.DefaultPage | VibeTube/src/routes/api/videos/+server.ts:19-20 | a missing or empty paging parameter falls back to its default |
| Videos.UploadRefusal | VibeTube/src/routes/api/videos/+server.ts:59-153 | in the source's order: 500 configuration error, 401 "Unauthorized", 500 "Upload failed" for an unreadable form, 400 "Title and video are required", 400 "Title cannot be empty" when the sanitized title is blank; accepted exactly when none applies |
| Videos.ThumbnailKey | VibeTube/src/routes/api/videos/+server.ts:103 | a thumbnail key exactly when a thumbnail was sent |
| Videos.VideoKey | VibeTube/src/routes/api/videos/+server.ts:97-102 | the video key lies in the uploader's `videos/<id>/` folder and keeps the uploaded file's extension |
| Videos.Duration | VibeTube/src/routes/api/videos/+server.ts:119 | `parseInt(…) \|\| 0`: 0 for a missing field or one that does not parse; a field of decimal digits is stored as the number it denotes |
| Videos.DigitsRead | VibeTube/src/routes/api/videos/+server.ts:119 | `parseInt` reads a field of decimal digits in full |
| Videos.Stored | VibeTube/src/routes/api/videos/+server.ts:102-116 | after the `put`s the bucket holds the old keys plus the new ones, the video under its key and the thumbnail under its own, and every other object unchanged |
| Videos.DurationReadBack | VibeTube/src/routes/api/videos/+server.ts:119 | a duration sent as decimal text is stored as that number |
| Videos.UploadEffect | VibeTube/src/routes/api/videos/+server.ts:59-153 | refused exactly when `UploadRefusal` says so, with its status and message, rows and bucket untouched; otherwise 201, one row appended carrying the next id, and the bucket is exactly `Stored` of the old one with the uploaded files |
| Videos.UploadPointsAtStoredObjects | VibeTube/src/routes/api/videos/+server.ts:97-137 | the new row names the uploader and time, holds the title sanitized to 200 (nonblank) and the description to 5000, the parsed duration, and URLs of the video and thumbnail objects just stored under those keys |
| Videos.ThumbnailKeyDiffers | VibeTube/src/routes/api/videos/+server.ts:102-103 | the thumbnail never overwrites the video object |
| Videos.UploadKeepsValid | VibeTube/src/routes/api/videos/+server.ts:125-139 | uploading preserves the table invariant |
| Videos.VideoStore.constructor | VibeTube/src/routes/api/videos/+server.ts:125-137 | the store starts with no rows and an empty bucket |
| Videos.VideoStore.Upload | VibeTube/src/routes/api/videos/+server.ts:59-153 | applies `UploadEffect` in place, to the rows and the bucket, and advances the last id on success |

## Left out

- **Cryptography, JSON and cookie parsing** are parameters, each with the property the code relies on:
  - `crypto.subtle` HMAC-SHA-256 (`IsHmac`: deterministic, a function of the signed text);
  - `JSON.stringify` / `JSON.parse` (`IsJson`: parse inverts stringify);
  - bcrypt (`IsBcrypt`: compare accepts the hash of the same password);
  - the `cookie` library's `parse` (a map of cookies on the request).
  - `getJwtKey` and the secrets are not modelled.
- **Awaits.** `generateToken` and `getUserFromRequest` are `async`, but the route handlers call them without `await`. As written, handlers would see a Promise: always truthy, with no `id`, and a token text of `[object Promise]`. The model gives handlers the resolved claims and token, as the code evidently intends.
- **Missing import in comments.** The comment handlers call `validateCsrfForRequest` without importing it, which throws before any other check runs. The model performs the check as if it were imported.
- **Database bindings.** `db.ts` has no default export: its `export default` line is commented out and only `initDatabase` is exported (VibeTube/src/lib/db.ts:108-126). The comments and subscriptions routes `import db from '$lib/db'` and use the synchronous SQLite API, so as written they fail when the module loads. The model gives them a working table instead. Those handlers have no "database missing" branch, and other handlers take a `hasDb` / `configured` flag.
- Accounts.UpdateEffect: the clash check and the final read call `.get()` (VibeTube/src/routes/api/user/update/+server.ts:56 and 117), which is not a method of a D1 prepared statement. As written, every update that passes the earlier checks throws at line 56 and answers 500 "Failed to update profile" without writing anything. The model follows the evidently intended `.first()`: it answers 409 on a clash, otherwise writes the row and answers 200 with the profile; when the user's row is missing it answers 500 unless both images were sent, in which case the UPDATE matches nothing and the answer is 200 `{ user: null }`. The bucket writes that precede a thrown 500 are not modelled.
- Accounts.UsersTable.UpdateProfile: the same `.get()` calls; the method applies `UpdateEffect`, so it inherits the `.first()` reading.
- Videos.UploadEffect: the read of the inserted row calls `.get()` (VibeTube/src/routes/api/videos/+server.ts:146), not a D1 method. As written, the upload throws after both objects are stored and the row is inserted, and answers 500 "Upload failed" while those writes remain. The model answers 201 with the row, as `.first()` would.
- **Non-text JSON fields.** A field that is present and truthy but not a string (a number, an object, `true`) is modelled as missing, so the model answers the handler's 400 for a missing field. The source would instead pass such a value on: login binds a numeric e-mail as is (401 when no row matches) and bcrypt's compare throws on a numeric password (500 "Login failed"); register's `sanitizeInput` throws on `.trim()` (500), and a numeric password passes the length test and reaches the hash, which throws. This concerns the text fields of the login, register, profile update and comment bodies; ids are modelled as integers (see SQL above).
- Exceptions caught by the handlers' `try` blocks (JSON parse failures, storage errors) are not modelled. A body that fails to parse is `None`, which leads to the handlers' own error answers.
- **Lenient base64 decoding.** `Buffer.from(…, 'base64')` skips invalid characters and stray padding, and `.buffer` may expose a pooled `ArrayBuffer`. The model decodes strictly, returning no bytes for malformed text, and returns exactly the decoded bytes.
- **Text encoding.** Strings are sequences of characters. UTF-16 surrogates, `TextEncoder` beyond ASCII and Unicode case mapping are not modelled: `toLowerCase` is ASCII-only, and white space is the JavaScript set of single characters.
- **CSRF token randomness.** `crypto.randomBytes(32)` is a parameter.
- **Constant-time compare.** `timingSafeEqual` is modelled as equality of equal-length texts. Its timing is not modelled.
- `initDatabase` and the schema are not part of this model. Initialisation is a call count plus a success flag.
- **Number precision.** Numbers are modelled as unbounded integers. The source's JavaScript numbers are doubles, which agree with them only for magnitudes below 2^53; `${n}` also switches to exponential notation from 1e21.
- Text.ParseIntRoundTrip: holds for every integer in the model; in the source `parseInt` of a numeral above 2^53 returns the nearest double (`parseInt("9007199254740993")` is 9007199254740992).
- Videos.DurationReadBack: the same limit, since the duration is read with `parseInt`.
- TimeFormat.DurationRoundTrip: the `Math.floor` divisions and the numeral of `formatDuration` are exact only below 2^53 seconds; the model proves the round trip for every non-negative integer.
- **SQL.**
  - Queries are modelled by their effect on sequences, sets and maps of rows.
  - The videos query text is modelled with its whitespace collapsed, to count its `?` marks.
  - JOINed user columns and the like/dislike/reply counts are not modelled.
  - Nor are SQLite type affinity and non-integer JSON ids: ids are integers.
  - `created_at` is an integer time.
  - `ON DELETE CASCADE` of replies is not modelled.
- **R2 objects.** Objects are recorded by key. Streams and content types are not modelled.
- **Uploaded files.** The avatar and banner files of the profile update get a URL, but the bucket writes of that route are not modelled.
- `formatViews` is not part of this model: it needs floating-point `toFixed`.
- **Time-ago dates.** The date parsing and the clock of `formatTimeAgo` are replaced by the difference in whole seconds.
- `sanitizeHtml`: its DOM branch (`textContent` / `innerHTML` in the browser) is not modelled, only the server-side replace chain.
- **Concurrency.** Requests are applied one at a time, so concurrent handlers are not modelled.
- **Pass-through handlers.** The SvelteKit `resolve` and the `json` helper are not modelled: an outcome and a status/value pair stand in for them.
- The translation tables' contents are not part of this model. `T` is proved for any pair of tables.
- The theme and language stores' `subscribe` is not modelled, and nor is the browser's `document.cookie` beyond its text.

## Findings

| source | as written | input that shows it | evidently intended | confidence | as-written member | corrected member |
|---|---|---|---|---|---|---|
| VibeTube/src/lib/utils.ts:79-91 | months are `floor(days / 30)` once weeks reach 4 (28 days), and years are `floor(days / 365)` once months reach 12 (360 days) | a date 28 days ago reads "0 months ago"; 360 days ago reads "0 years ago" | weeks until 30 days, months until 365 days, so no count is ever 0 | not executed | TimeFormat.ZeroMonthsAgo | TimeFormat.FormatTimeAgoFixed |
