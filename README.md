# R6 stats bot core, modelled in Dafny

This project models the two small pieces of logic in the core of a chat bot that shows Rainbow Six Siege player statistics:

- **Operator images** (`operator_images.js`). `slugify` turns an operator name into a key made only of `[a-z0-9]`. It lower-cases the name, applies NFD decomposition, deletes the combining marks U+0300–U+036F and then deletes every other character outside `[a-z0-9]`. `getOperatorImage` turns a non-empty slug into `{icon, figure}`, two copies of one URL under a fixed base; an empty slug gives `null`.
- **Stats client** (`r6_api.js`). `fetchStats` builds the profile path for a player and sends one request. It maps the JSON answer to a flat record: it selects the "overview" segment, reads each stat through `displayValue ?? value ?? null`, writes rank lines, and substitutes default operators. Around the request sits a demo/error policy. An empty list of challenges and the canned demo record complete the module.

Both files are pure apart from the one awaited request. The whole model is made of datatypes, functions and lemmas. `fetchStats` is the total function `R6Api.FetchStats`. Its inputs are the configuration, the caller's arguments and the service's answer, typed `Result<JVal, Err>`. It returns the path it would request (`None` when it makes no request) together with the record or the error.

Modules:

- `Wrappers`: `Option` and `Result`.
- `Text`: per-character rewriting and filtering of strings, and the ASCII classes.
- `NumberFormat`: decimal digits and the `en-US` comma grouping of `toLocaleString`.
- `Unicode`: `toLowerCase` and `normalize('NFD')` as explicit per-character tables.
- `Uri`: `encodeURIComponent` over real UTF-8 encoding, plus the matching decoder.
- `JsValue`: JSON values and the JavaScript operators applied to them, namely truthiness, `||`, `??`, `?.`, `String()` and `Number()`.
- `OperatorImages`: `slugify` and `getOperatorImage`.
- `R6Api`: `fetchStats`, its mapping and policy, `demoData` and `fetchChallenges`.
- `Composition`: how the command layer uses the record's operator names as picture keys.

Behaviour of the code that the model keeps:

- `getOperatorImage(null)` returns the URL of `null.png`, because `String(null)` is `"null"` (`OperatorImages.NullNameHasImage`).
- The lookup builds a URL from every non-empty slug; there is no table of known operators or alias spellings.
- NFD does not decompose `ß` or `ø`, so the slug deletes them: "straße" becomes "strae" and "Nøkk" becomes "nkk" (`OperatorImages.NokkExample`). The name is not trimmed, but spaces are deleted by the last step anyway.
- Mapping a body can throw a `TypeError`. Within the model this happens when `segments` is truthy but not an array, or when the search meets a malformed segment before the first match: a `null` segment, or an object whose `type` is truthy but not a string (`R6Api.MapResponse`). That error reaches the same `catch` as a failed request.
- Without an API key, demo mode returns the demo record at once. With demo mode off, the request is sent without the key header; if it fails, the error is rethrown.
- A rank is returned as the text `name — N RP`, or `null`.

`get('mmr')` prefers `displayValue`. If the service writes that value with a comma (say `"3,444"`), `Number()` reads it as `NaN`, and the rank line ends in `— NaN RP` (`R6Api.RankTextOfGroupedDisplayValue`). The payload's format is not part of this repository, so whether the service writes such values is not known here.

## Model

| member | source | states |
|---|---|---|
| `OperatorImages.ArgumentText` | operator_images.js:7-8 | a missing argument gives `''`, `null` gives "null", a string gives itself |
| `OperatorImages.Canonicalize` | operator_images.js:8-12 | the slug contains only characters in `a`–`z` and `0`–`9` |
| `OperatorImages.Slugify` | operator_images.js:7-13 | `slugify(name)` applies `String(name)`, with `''` for a missing argument; the result is over `[a-z0-9]` |
| `OperatorImages.CanonicalizeAppend` | operator_images.js:8-12 | every stage works per character, so the slug of `a + b` is the slug of `a` followed by the slug of `b` |
| `OperatorImages.CanonicalizeSlug` | operator_images.js:9-12 | a string over `[a-z0-9]` is its own slug |
| `OperatorImages.CanonicalizeIdempotent` | operator_images.js:7-13 | `slugify(slugify(x)) == slugify(x)` |
| `OperatorImages.SlugifyIdempotent` | operator_images.js:7-13 | slugifying the slug of any argument gives the same slug |
| `OperatorImages.CaseInsensitive` | operator_images.js:9 | two names that differ only in ASCII letter case have the same slug |
| `OperatorImages.CanonicalizeMark` | operator_images.js:11 | a single combining mark U+0300–U+036F has the empty slug |
| `OperatorImages.MarksIgnored` | operator_images.js:10-11 | deleting the marks U+0300–U+036F from a name does not change its slug |
| `OperatorImages.DifferOnlyInMarks` | operator_images.js:10-11 | two names that agree once their combining marks are deleted have the same slug |
| `OperatorImages.AsciiSlug` | operator_images.js:8-12 | for ASCII input the slug is the ASCII-lower-cased input with every character outside `[a-z0-9]` deleted, in the original order |
| `OperatorImages.PrecomposedSlug` | operator_images.js:9-11 | every precomposed Latin-1 letter, capital or small, has the slug of its base letter |
| `OperatorImages.AccentsIgnored` | operator_images.js:9-11 | replacing every precomposed letter of a name by its base letter leaves the slug unchanged |
| `OperatorImages.DifferOnlyInAccentsOrCase` | operator_images.js:9-11 | names that agree once accents (precomposed or as marks) are removed and ASCII case is ignored have the same slug |
| `Unicode.LowerThenDecompose` | operator_images.js:9-10 | lower-casing a Latin-1 capital and then decomposing it gives the lower-cased base letter and the same mark |
| `OperatorImages.UmlautSlug` | operator_images.js:10-11 | `ä` and `Ä` both slug to `a` |
| `OperatorImages.UndecomposedSlug` | operator_images.js:12 | `ø` and `ß` do not decompose and are deleted |
| `OperatorImages.AshExample` | operator_images.js:6 | "ash" slugs to "ash" |
| `OperatorImages.JagerExample` | operator_images.js:6 | precomposed "jäger" slugs to "jager" |
| `OperatorImages.DecomposedJagerExample` | operator_images.js:10-11 | "ja" + U+0308 + "ger" slugs to "jager" |
| `OperatorImages.UpperJagerExample` | operator_images.js:9-11 | "JÄGER" slugs to "jager" |
| `OperatorImages.CapitalJagerExample` | operator_images.js:9-11 | "Jäger" slugs to "jager" |
| `OperatorImages.NokkExample` | operator_images.js:12 | "Nøkk" slugs to "nkk" |
| `OperatorImages.SlugAround` | operator_images.js:8-12 | a piece between two `[a-z0-9]` stretches contributes exactly its own slug |
| `OperatorImages.SlugSuffix` | operator_images.js:8-12 | a piece followed by a `[a-z0-9]` stretch contributes exactly its own slug |
| `OperatorImages.ImageUrl` | operator_images.js:23 | the URL is the base, `/`, the slug and `.png`, each at its place |
| `OperatorImages.GetOperatorImage` | operator_images.js:19-28 | the result is `null` exactly when the slug is empty; otherwise `icon == figure == BASE + "/" + slug + ".png"` |
| `OperatorImages.ImageUrlRoundTrip` | operator_images.js:23 | the slug can be read back out of the picture URL |
| `OperatorImages.SameImageIffSameSlug` | operator_images.js:19-28 | two names get the same result exactly when they have the same slug |
| `OperatorImages.ImageOfSlug` | operator_images.js:20-27 | a name with a known non-empty slug gets the picture named after that slug |
| `OperatorImages.MissingNameHasNoImage` | operator_images.js:7 | a missing argument, defaulting to `''`, gives `null` |
| `OperatorImages.PunctuationHasNoImage` | operator_images.js:12 | a name made only of ASCII punctuation, digits excepted, gives `null` |
| `OperatorImages.NullNameHasImage` | operator_images.js:8 | `null` becomes the text "null" and gets `null.png` |
| `OperatorImages.CanonicalizeChar` | operator_images.js:9-12 | the slug of one character is its decomposition with marks and non-`[a-z0-9]` characters deleted |
| `Unicode.LowerChar` | operator_images.js:9 | lower-casing leaves `[a-z0-9]` and combining marks unchanged and maps ASCII upper case to lower case |
| `Unicode.Decompose` | operator_images.js:10 | NFD leaves `[a-z0-9]` and marks unchanged; a decomposed character is an ASCII base letter followed by a mark |
| `Unicode.FixesSlugStrings` | operator_images.js:9-10 | `toLowerCase` and `normalize('NFD')` both leave a string over `[a-z0-9]` unchanged |
| `Unicode.ToLowerAscii` | operator_images.js:9 | on ASCII text, `toLowerCase` is the ASCII letter mapping |
| `Unicode.ToLowerIdempotent` | operator_images.js:9 | `toLowerCase` of a lower-cased string changes nothing |
| `Unicode.ToLowerLength` | operator_images.js:9 | `toLowerCase` never shortens a string and at most doubles it (`İ` becomes two characters) |
| `Unicode.NfdIdempotent` | operator_images.js:10 | `normalize('NFD')` of a normalized string changes nothing |
| `Unicode.NfdLength` | operator_images.js:10 | `normalize('NFD')` never shortens a string and at most doubles it on the modelled range |
| `Unicode.DecomposeExamples` | operator_images.js:10 | `ä` is `a` + U+0308, `ã` is `a` + U+0303, `ç` is `c` + U+0327; `ø` and `ß` do not decompose |
| `Uri.EncodeURIComponent` | r6_api.js:26 | the output contains only unreserved characters and `%`, and never `/` |
| `Uri.EncodeUnreserved` | r6_api.js:26 | a string of unreserved characters is its own encoding |
| `Uri.Utf8RoundTrip` | r6_api.js:26 | UTF-8 decoding undoes the UTF-8 encoding that the escapes carry |
| `Uri.DecodeEncode` | r6_api.js:26 | decoding `encodeURIComponent(s)` gives `s` back |
| `Uri.EncodeInjective` | r6_api.js:26 | distinct strings have distinct encodings |
| `R6Api.RequestPath` | r6_api.js:26 | the path starts with `/r6siege/standard/profile/`; after it the first `/` ends the encoded platform; everything after the prefix is unreserved, `%` or `/` |
| `R6Api.RequestPathInjective` | r6_api.js:26 | the request path `/r6siege/standard/profile/` + enc(platform) + `/` + enc(username) determines both the platform and the user name |
| `R6Api.Get` | r6_api.js:35-38 | `get(k)` returns `displayValue` when it is present and not null, else `value` when present and not null, else `null`; a missing key gives `null` |
| `R6Api.IsOverview` | r6_api.js:32 | the callback throws exactly on a `null` segment and on an object whose `type` is truthy but not a string, and then with a `TypeError`; it accepts a segment exactly when the segment is an object whose `type` is a string that lower-cases to "overview", so a segment with no `type` or a falsy one is rejected |
| `R6Api.FindOverview` | r6_api.js:32 | `find` returns the first segment whose lower-cased type is "overview", every earlier one being rejected; it reports no match only when every segment is rejected; it throws the first exception met before any match, always a `TypeError` |
| `R6Api.FindOverviewThrows` | r6_api.js:32 | the search throws exactly when a malformed segment comes before the first match |
| `R6Api.OverviewTypeIgnoresCase` | r6_api.js:32 | an ASCII `type`, the empty one included, matches exactly when its lower-case form is "overview" |
| `R6Api.Segments` | r6_api.js:31 | `d.segments \|\| []`: always truthy; `[]` when `segments` is missing or falsy, else `segments` itself |
| `R6Api.SelectSegment` | r6_api.js:31-32 | the overview segment if there is one, else a truthy `segments[0]`, else `{}`; a truthy non-array `segments` throws; the result is always truthy |
| `R6Api.NoSegmentsAllNull` | r6_api.js:31-38 | with no segments the empty object is selected and every stat reads `null` |
| `R6Api.LocaleNumber` | r6_api.js:18 | `Number(n).toLocaleString('en-US')` is "NaN" exactly for `NaN`; for a non-negative integer it is exactly the en-US comma-grouped form `NumberFormat.Grouped`, a numeral that reads back as the number |
| `R6Api.FmtRP` | r6_api.js:18 | `null` exactly for `null`; otherwise text ending in " RP", which for a non-negative integer is the comma-grouped number |
| `R6Api.RankText` | r6_api.js:40-46 | the line is present exactly when the name (or, if that is falsy, the fallback name) is truthy and the points are truthy; it is then the whole `name — fmtRP(points)`, the first name preferred |
| `R6Api.RankTextIntegerPoints` | r6_api.js:40-42 | with integer points the line is name, separator, grouped points and " RP", and the grouped points read back as the points |
| `R6Api.FmtRPOfNaN` | r6_api.js:18 | points that `Number()` cannot read are shown as "NaN RP" |
| `R6Api.RankTextOfGroupedDisplayValue` | r6_api.js:41 | comma-grouped points given as text give "NaN RP" |
| `R6Api.ResolveUsername` | r6_api.js:53 | `platformInfo.platformUserHandle` if it is non-null, else `userInfo.username` if it is non-null, else the caller's user name |
| `R6Api.MapStats` | r6_api.js:40-66 | each field as the source builds it: `kd` is `kd` if truthy else `kdr`, and likewise `wl`; `trnElo` is the `trnRating` stat when that is truthy and `null` otherwise; the rank lines follow `RankText`; the operator names are the stat if truthy, else "Ash" / "Jäger"; each `*Line` equals its name |
| `R6Api.DataOf` | r6_api.js:30 | `data?.data \|\| {}` is the body's `data` member when that is truthy and `{}` otherwise, so it is always truthy and reading it never throws |
| `R6Api.MapResponse` | r6_api.js:30-66 | the mapping throws exactly when `segments` is truthy and not an array or a malformed segment comes before the first match, and what it throws is always a `TypeError`; otherwise it returns the record of the selected segment's `stats` (or `{}`) |
| `R6Api.WellShapedBodyMaps` | r6_api.js:30-33 | a body whose segment list is an array of readable segments maps without throwing |
| `R6Api.MalformedSegmentsThrow` | r6_api.js:31-32 | a string `segments` throws |
| `R6Api.NullSegmentThrows` | r6_api.js:32 | a `null` segment throws |
| `R6Api.EmptyBodyRecord` | r6_api.js:30-66 | an empty body gives every stat `null`, no rank lines, the default operators and the caller's user name |
| `R6Api.FetchStats` | r6_api.js:21-72 | no request is made exactly when there is no key and demo mode is on |
| `R6Api.NoKeyInDemoModeMakesNoRequest` | r6_api.js:23 | without a key in demo mode the result is `demoData(username)` and no request is made |
| `R6Api.RequestIsTheProfilePath` | r6_api.js:21-26 | otherwise the request is the profile path of the given platform, or of the default one when it is missing |
| `R6Api.FailureInDemoModeGivesDemoData` | r6_api.js:67-69 | a failed request in demo mode yields `demoData(username)` |
| `R6Api.FailureOutsideDemoModeRethrows` | r6_api.js:67-70 | a failed request outside demo mode rethrows the same error |
| `R6Api.AnswerIsMapped` | r6_api.js:28-71 | an answer yields the mapped record; a mapping error is handled like a failed request |
| `R6Api.DemoModeNeverThrows` | r6_api.js:23-71 | in demo mode the call never throws |
| `R6Api.PlaylistIsIgnored` | r6_api.js:21-66 | the playlist changes neither the request nor the result |
| `R6Api.DemoData` | r6_api.js:79-81 | the demo record echoes the caller's user name |
| `R6Api.DemoDataIsConstant` | r6_api.js:79-94 | apart from the user name the demo record is the same for everyone (kills 1833, deaths 1773, kd "1.03", …) |
| `R6Api.RankLineOfFourDigits` | r6_api.js:40-42 | for a truthy name and four-digit points, the rank line is the name, " — ", the thousands digit, a comma, the last three digits and " RP" |
| `R6Api.DemoRankTextsAreFormatted` | r6_api.js:88-89 | the canned rank lines are exactly what `RankText` writes for "Platinum I" with 3444 and 3460 points |
| `R6Api.FirstSlash` | r6_api.js:26 | the index of the first `/`: every earlier character is not `/`, and the character there is `/` unless the index is the length (no `/` at all) |
| `R6Api.SplitAtSlash` | r6_api.js:26 | two slash-free components joined by `/` can be recovered |
| `R6Api.FetchChallenges` | r6_api.js:74-76 | the challenge list is empty |
| `NumberFormat.GroupedValue` | r6_api.js:18 | round trip: the comma-grouped digits of `n` read back as `n` |
| `NumberFormat.GroupedShape` | r6_api.js:18 | the commas sit exactly at every fourth position from the end |
| `NumberFormat.Grouped` | r6_api.js:18 | the grouped form starts with a digit, has only digits and commas, and starts with `0` only for zero |
| `NumberFormat.LocaleInt` | r6_api.js:18 | `toLocaleString('en-US')` of an integer: `Grouped(n)` for a non-negative one and `-` + `Grouped(-n)` for a negative one, a numeral that reads back as the number |
| `NumberFormat.IntToString` | r6_api.js:41 | `String(n)` of an integer: for a non-negative one a numeral with no leading zero (except `0`) that reads back as `n`; for a negative one `-` followed by a non-zero digit; only digits and a leading `-` |
| `NumberFormat.DecimalValue` | r6_api.js:41 | the decimal digits of `n` read back as `n` |
| `JsValue.NumberOfString` | r6_api.js:18 | `Number(String(n)) == n` for every integer |
| `JsValue.DigitsNumber` | r6_api.js:18 | `Number(s)` of a string of decimal digits is the number those digits denote |
| `JsValue.GroupedIsNaN` | r6_api.js:18 | `Number("3,444")` is `NaN` |
| `JsValue.CommaIsNaN` | r6_api.js:18 | `Number(s)` is `NaN` for every string containing a comma |
| `JsValue.StringToNumber` | r6_api.js:18 | `Number(s)` of a string of white space is 0; a negative result needs a `-` in the text |
| `JsValue.ToNumber` | r6_api.js:18 | `Number(v)` is the number itself for a JSON number; only strings, arrays and objects can give `NaN` |
| `JsValue.ToJsString` | r6_api.js:41 | `String(v)` is the string itself for a string, "null" for `null`, "true" or "false" for a boolean, "[object Object]" for an object, and for an integer its decimal numeral `NumberFormat.IntToString`, which `Number()` reads back as the integer |
| `JsValue.FalsyValues` | r6_api.js:40 | the falsy JSON values are exactly `null`, `false`, `0` and `""` |
| `JsValue.Or` | r6_api.js:49 | `a \|\| b` is `a` when `a` is truthy and `b` otherwise, so it is truthy exactly when one operand is |
| `JsValue.OrElse` | r6_api.js:30-33 | `o \|\| d` with `o` possibly undefined: truthy exactly when `o` or `d` is, and it returns `o` when `o` is truthy, else `d` |
| `JsValue.Coalesce` | r6_api.js:37 | `a ?? b` is nullish exactly when both are, and it returns `a` unless `a` is nullish |
| `JsValue.Prop` | r6_api.js:36 | `v[k]` is defined exactly for an own key of an object, and is then that key's value |
| `JsValue.OptProp` | r6_api.js:37 | `o?.k` is defined exactly when `o` is a non-nullish object with own key `k`, and is then that key's value |
| `Composition.DefaultAttackerHasImage` | r6_api.js:49 | the default attacker "Ash" has the picture `ash.png` |
| `Composition.DefaultDefenderHasImage` | r6_api.js:50 | the default defender "Jäger" has the picture `jager.png` |
| `Composition.FallbackOperatorsHaveImages` | r6_api.js:49-50 | when the service names no top operators, both names in the live record have pictures |

## Left out

- Full Unicode behaviour of `toLowerCase` and `normalize('NFD')`. The tables cover Basic Latin, Latin-1 Supplement and `İ` (U+0130). Every other character is treated as its own lower case, with no decomposition. Context-dependent lower-casing (final sigma) and multi-level decompositions are not modelled.
- Canonical reordering of combining marks in NFD is not modelled. It only permutes marks, and every mark is deleted on the way to the slug.
- The HTTP transport, the 15-second timeout and the request headers (r6_api.js:9-16, 29). The service's answer is an input; a transport failure is `Err.RequestFailed`.
- Reading the environment (r6_api.js:4-6). Whether a key is set, whether demo mode is on and the default platform are the fields of `Config`.
- The `async`/`await` protocol. A call that resolves is `Success`; a call that rejects is `Failure`.
- JSON numbers with a fraction: `JVal` numbers are integers. JavaScript's 53-bit precision limit and negative zero are not modelled, nor is the exponent notation `String(n)` switches to for |n| ≥ 10^21 (`NumberFormat.IntToString` always writes all the digits).
- `JsValue.StringToNumber`: strings that hold a decimal fraction, an exponent, a hex, octal or binary prefix, or `Infinity` are read as `NaN`. JavaScript reads them as numbers. The non-integer results of `Number()` are outside the model.
- `R6Api.FmtRP`: its contract pins the text down only for non-negative integer points. For other values it states only the " RP" ending, following the locale formatting above.
- `JsValue.ToJsString`, `JsValue.ToNumber`: a JSON object whose own keys shadow `toString` or `valueOf` is not modelled. Take `{"toString": 1}`. JavaScript's conversion to a primitive throws a `TypeError` for it in three places: the rank-name template (r6_api.js:41, 45), `Number()` in `fmtRP` (r6_api.js:18) and `String(name)` (operator_images.js:8). The model always turns an object into "[object Object]" and `NaN`, so these throws are missing.
- Properties inherited from `Object.prototype`. `Get` and the other property reads see only a JSON object's own keys. None of the keys the code reads is a prototype property.
- `encodeURIComponent` throws `URIError` on a lone surrogate. Dafny strings cannot contain one, so that error is not modelled.
- `fetchChallenges` returns a promise of `{ items: [] }`. The model returns the sequence `[]`.
- index.js is not part of this model. That covers command registration, event dispatch and embed building. It also covers the `iconUrl`/`figureUrl` keys that index.js reads: `getOperatorImage` returns `icon`/`figure`.
