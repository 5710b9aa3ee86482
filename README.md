# Translation manager, modelled in Dafny

The modelled program is a small browser-side translation manager (`src/app.js`).
A `TranslationManager` keeps an in-memory cache from language code to a parsed
JSON translation bundle. `loadTranslation(lang)` serves a language from that
cache, or fetches `${basePath}/${lang}.json`, stores the parsed bundle and
returns it. On any failure it returns `null` and caches nothing.
`translate(translations, key, params = {})` walks the dotted key through the
bundle. A missing or falsy value gives back the key itself. A string value has
its `{name}` placeholders replaced from `params` in one left-to-right pass.

The model has five modules:

- `Json` (`json.dfy`): JSON values and JavaScript truthiness. `None` stands for
  `undefined`.
- `KeyPath` (`key_path.dfy`): `key.split(".")` as `Split`, with its inverse
  `Join`. The `reduce` over `obj?.[k]` is the left fold `Walk`, and
  `Resolve(translations, key)` is what a key names.
- `Placeholders` (`placeholders.dfy`): the regex `/{(\w+)}/g` as a scan over
  the string. `Tokenize` splits the string into literal characters and whole
  placeholders, leftmost match first. `Render` applies the replacement
  callback, and `Interpolate` is `Render` after `Tokenize`.
- `Translation` (`translate.dfy`): `Translate` returns `Returned(text)`, or
  `TypeError(value)` when `value.replace` would throw because the key names a
  truthy non-string. `translate` reads no state of the manager. It is
  therefore a function with an empty frame, and it cannot change the cache.
- `Cache` (`cache.dfy`) and `App` (`app.dfy`): the cache discipline.
  - `Cache.Load` is one call of `loadTranslation` as a function.
  - `Cache.Replay` is the state of a fresh manager after a sequence of calls.
  - `App.TranslationManager` is the class. Its real field `cache` is a
    `map<string, Json>` that `LoadTranslation` updates in place.
  - The class has two ghost fields. `calls` records the calls made so far and
    `fetched` records the network requests. `Valid()` ties `cache` and
    `fetched` to `Replay(calls)`, so the lemmas about `Replay` hold of every
    manager.

The network is a parameter. `LoadTranslation(lang, response)` receives a
`FetchResult`: what the network would answer for `ResourcePath(lang)`. That is
either `NetworkError` or `Response(status, body)`. In a response, `body` is
`None` when `response.json()` rejects. The method consults `response` only on
a cache miss, and it logs each requested resource `${basePath}/${lang}.json`
in `fetched`.

Two behaviours of the code are easy to miss:

- The code calls `value.replace` on any truthy value. A key that names an
  object, an array, a non-zero number or `true` therefore throws a
  `TypeError`. The model returns `TypeError(value)` for these keys. It does not
  treat them as "not found".
- `response.json()` may successfully parse the body `null`. The code then
  caches `null` for that language and returns it from the cache on every
  later call, without fetching again. The model does the same: `Json.Null` is
  an ordinary bundle value in the cache.

## Model

| member | source | states |
|---|---|---|
| `Json.Truthy` | src/app.js:32 | defines the truthiness that `!value` tests: `undefined`, `null`, `false`, `0` and `""` are falsy; arrays and objects are truthy even when empty. `TranslateFalsyValue` and `TranslateNonString` state both sides |
| `KeyPath.Join` | src/app.js:30 | defines joining segments with dots, the inverse of `Split`, as `JoinSplit` and `SplitJoin` state |
| `KeyPath.Lookup` | src/app.js:30 | defines `obj?.[k]` on own properties of objects; anything else gives `undefined`. `WalkDefinedIff` states when each step succeeds |
| `KeyPath.Walk` | src/app.js:30 | defines the `reduce` as a left fold of `Lookup`. Its behaviour is stated by `WalkUndefined`, `WalkAppend` and `WalkDefinedIff` |
| `KeyPath.Resolve` | src/app.js:30 | defines what a key names in a bundle: `Walk` over `Split(key)`. Its behaviour is stated by `ResolveMissingSegment` and `ResolveSingleSegment` |
| `KeyPath.Split` | src/app.js:30 | `key.split(".")` yields at least one segment, and no segment contains a dot |
| `KeyPath.JoinSplit` | src/app.js:30 | joining the segments of a key with dots gives back the key, so splitting loses nothing |
| `KeyPath.SplitJoin` | src/app.js:30 | splitting the dot-join of dot-free segments gives back those segments, so `Split` is a bijection onto non-empty dot-free segment lists |
| `KeyPath.WalkUndefined` | src/app.js:30 | once `obj?.[k]` yields `undefined`, every later step of the reduce stays `undefined` |
| `KeyPath.WalkAppend` | src/app.js:30 | the reduce is compositional: walking `a + b` is walking `a`, then walking `b` from there |
| `KeyPath.WalkDefinedIff` | src/app.js:30 | the walk yields a value if and only if it starts from a value and every step stands on an object that owns the next segment |
| `KeyPath.ResolveMissingSegment` | src/app.js:30 | a key whose i-th segment is missing, or whose i-th step is not an object, resolves to `undefined` |
| `KeyPath.ResolveSingleSegment` | src/app.js:30 | a key without dots is a single property access on the bundle |
| `Placeholders.IsWordChar` | src/app.js:34 | defines `\w` without the `u` flag: ASCII letters, digits and underscore |
| `Placeholders.Tokenize` | src/app.js:34 | defines the left-to-right scan of the global regex. `TokenizeUnparse`, `TokenizeCanonical`, `TokenizeUnique` and `TokenizeAppend` characterise it |
| `Placeholders.Render` | src/app.js:34-35 | defines the replacement callback over the scanned pieces: a known name gives its value, anything else stays as matched. `RenderAppend` states it is piecewise |
| `Placeholders.Interpolate` | src/app.js:34-36 | defines `value.replace(...)` as `Render` after `Tokenize`. Its behaviour is stated by `InterpolateAnywhere`, `InterpolateKeepsUnknown`, `InterpolateNoRescan` and the other `Interpolate*` lemmas |
| `Placeholders.WordRun` | src/app.js:34 | greedy `\w*`: every character counted is a word character, and the character after the run is not one |
| `Placeholders.MatchAt` | src/app.js:34 | a match at the start of a string captures a non-empty `\w+` name, and the string begins with that name in braces |
| `Placeholders.MatchAtComplete` | src/app.js:34 | whenever a string begins with `{name}`, the regex matches there and captures exactly `name` |
| `Placeholders.TokenizeUnparse` | src/app.js:34-35 | the scan keeps every character outside placeholders unchanged and in order: unparsing the pieces gives back the string |
| `Placeholders.TokenizeCanonical` | src/app.js:34 | every placeholder piece has a `\w+` name, and no literal `{` piece stands where a placeholder begins (leftmost matching) |
| `Placeholders.TokenizeUnique` | src/app.js:34 | the scan is the only well-formed, leftmost, non-overlapping decomposition of the string |
| `Placeholders.InterpolatePlaceholder` | src/app.js:34-35 | a leading `{name}` becomes `params[name]` when defined, and stays verbatim otherwise; the scan resumes after the match, not inside the value |
| `Placeholders.InterpolateBraceFree` | src/app.js:34-35 | text without `{` is copied as it is, and the scan continues after it |
| `Placeholders.InterpolateWithoutBraces` | src/app.js:34-36 | a string without `{` comes back unchanged |
| `Placeholders.InterpolateLiteral` | src/app.js:34-35 | a leading character that does not begin a placeholder is copied, and the scan continues at the next character |
| `Placeholders.InterpolateKeepsUnknown` | src/app.js:35 | when no placeholder in the string names a key of `params`, every placeholder stays verbatim with its braces, and the string comes back unchanged |
| `Placeholders.InterpolateNoPlaceholder` | src/app.js:34-36 | a string without any `{word}` placeholder comes back exactly as stored, whatever `params` is |
| `Placeholders.InterpolateEmptyParams` | src/app.js:29 | with the default `params = {}` (own keys only), interpolation returns every string unchanged |
| `Placeholders.InterpolateAnywhere` | src/app.js:34-35 | a `{name}` anywhere in a string becomes `params[name]` when defined and stays verbatim otherwise, while the text before and after it is interpolated independently |
| `Placeholders.InterpolateNoRescan` | src/app.js:34-36 | a substituted value is not scanned again: a `{other}` inside the value of any placeholder, at any position, appears literally in the output where the value was inserted, even when `other` is a key of `params` |
| `Placeholders.TokenizeAppend` | src/app.js:34 | the scan of `a` followed by text that starts with `{` is the scan of `a` followed by the scan of that text: no match crosses into a `{` |
| `Placeholders.RenderAppend` | src/app.js:34-35 | the replacement callback is applied to each piece independently |
| `Translation.Translate` | src/app.js:29-37 | defines `translate`: the key back when the resolved value is falsy, the interpolated string when it is a string, and a `TypeError` otherwise. Its behaviour is stated by the `Translate*` and `Example*` lemmas |
| `Translation.TranslateNullBundle` | src/app.js:30-32 | with a `null` bundle, every key translates to itself, whatever `params` is |
| `Translation.TranslateMissingSegment` | src/app.js:30-32 | if any segment of the key is missing, or any step is not an object, the key translates to itself, whatever `params` is |
| `Translation.TranslateFalsyValue` | src/app.js:32 | a key present with a falsy value (`null`, `false`, `0`, `""`) also translates to itself: present-but-falsy is not told apart from missing |
| `Translation.TranslateNonString` | src/app.js:34 | a key naming a truthy non-string (`true`, a non-zero number, an array, an object) makes `value.replace` throw a `TypeError` |
| `Translation.TranslatePlainString` | src/app.js:34-36 | a non-empty stored string without placeholders is returned exactly as stored |
| `Translation.TranslateKeepsUnknown` | src/app.js:35 | a non-empty stored string whose placeholders all name keys absent from `params` is returned verbatim, braces included |
| `Translation.ExampleWelcome` | src/app.js:47-50 | in the example bundle, `translate(b, "welcome")` is `"Hello!"` |
| `Translation.ExampleGreeting` | src/app.js:51-55 | in the example bundle, `translate(b, "greeting", {name: "John"})` is `"Hi, John!"` |
| `Translation.ExampleMissingKey` | src/app.js:30-32 | in the example bundle, `translate(b, "missing.key")` is `"missing.key"` |
| `Cache.IsOk` | src/app.js:16 | defines `response.ok`: a status from 200 to 299 |
| `Cache.Fetched` | src/app.js:13-20 | turns a network error, a non-ok status and a rejected `response.json()` into no bundle, and an ok, parsed response into its bundle. `LoadSuccess` and `LoadFailure` state this |
| `Cache.Load` | src/app.js:9-26 | defines one call of `loadTranslation` on a cache: hit, successful fetch, or failure. Its behaviour is stated by `LoadStaysCached`, `LoadSuccess`, `LoadFailure`, `LoadNeverEvicts`, `LoadTwice` and `RetryAfterFailure` |
| `Cache.LoadStaysCached` | src/app.js:9-11 | whatever a call leaves cached for a language is what it returned, and the next call for that language on the cache it leaves returns that entry, fetches nothing and changes nothing, whatever the network would answer (`ReplayLaterCallsHit` gives every later call) |
| `Cache.Replay` | src/app.js:7-27 | defines the cache and request log of a fresh manager after a sequence of calls. Its behaviour is stated by `ReplayCacheIsFirstSuccess`, `ReplayFetchCount`, `ReplayKeepsEntries` and `ReplayLaterCallsHit` |
| `Cache.LoadSuccess` | src/app.js:20-22 | on a successful fetch the cache gains exactly `lang -> bundle`, no other entry changes, and the bundle is returned |
| `Cache.LoadFailure` | src/app.js:13-26 | a network error, a non-ok status or an unparsable body each give `null` and leave the cache unchanged (the fetch was still made) |
| `Cache.LoadNeverEvicts` | src/app.js:9-22 | no call drops or overwrites a cache entry, and only the requested language can be added |
| `Cache.LoadTwice` | src/app.js:9-22 | loading a language twice in a row, the first time successfully, fetches once; the second call returns the same bundle |
| `Cache.RetryAfterFailure` | src/app.js:13-26 | a failed load is not cached: the next call for that language fetches again, exactly as if the failure had not happened |
| `Cache.ReplayCacheIsFirstSuccess` | src/app.js:7-27 | after any sequence of calls, a language has a cache entry if and only if some call for it succeeded, and the entry is the bundle of the first success |
| `Cache.ReplayFetchCount` | src/app.js:7-27 | after any sequence of calls, the network was asked for a language once per call up to and including its first success, and never after it |
| `Cache.ReplayKeepsEntries` | src/app.js:7-27 | an entry present after some prefix of the calls is still present, unchanged, after all of them |
| `Cache.ReplayLaterCallsHit` | src/app.js:9-11 | once a language is cached after some prefix of the calls, every later call for it is a hit: it returns the entry cached then and fetches nothing |
| `App.TranslationManager.constructor` | src/app.js:2-5 | a new manager has the given base path (default `/translations`), an empty cache and no requests |
| `App.TranslationManager.LoadTranslation` | src/app.js:7-27 | hit: the cached bundle, no request, nothing changes. Miss: one request for `${basePath}/${lang}.json`; on success the cache gains `lang -> bundle` and the bundle is returned; on failure the result is `null` and the cache is unchanged. The cache always equals what `Replay` of the calls gives |
| `App.TranslationManager.ResourcePath` | src/app.js:14 | builds `${basePath}/${lang}.json`, with `lang` used as given. `ResourcePathInjective`, `RequestCount` and `FetchCount` state its behaviour |
| `App.ResourcePathInjective` | src/app.js:14 | distinct language codes give distinct resource paths `${basePath}/${lang}.json` |
| `App.RequestCount` | src/app.js:14 | in a log of requests, the resource path of a language occurs exactly as often as the language occurs in the list it was built from |
| `App.FetchCount` | src/app.js:7-27 | on any manager, `${basePath}/${lang}.json` was requested once per call for `lang` up to and including the first successful load, and never after it |

## Left out

- The `fetch` call itself, `response.status` and `response.json()` parsing are network I/O and library parsing. They become the `FetchResult` parameter. The model keeps the `response.ok` test (status 200 to 299) and the three failure modes.
- `async`/`await` and concurrency are left out. Two concurrent loads of the same uncached language both fetch, and the later one overwrites the cache entry. The model runs one call at a time, so it never overwrites an entry.
- `loadTranslation` returns the very object it stores in the cache. A caller that mutates the returned bundle changes what every later cache hit returns. In the model a `Json` bundle is an immutable value, so this aliasing is not captured.
- `console.error` logging is output only.
- `main`, `document.getElementById(...).innerHTML` and the top-level `main()` call are user-interface glue. Their two `translate` calls appear as `ExampleWelcome` and `ExampleGreeting`, over assumed contents of `en.json`; `ExampleMissingKey` adds a missing key.
- `KeyPath.Lookup`: property access is modelled only on JSON objects and their own keys. JavaScript would also index into strings and arrays (`"abc"["0"]`, `[1, 2]["length"]`) and would find keys inherited from `Object.prototype` (`toString`, `constructor`). In the model all of these give `undefined`.
- `Placeholders.Render`: `params` is a `map<string, string>`. The model does not cover keys inherited from `Object.prototype`, nor non-string values that JavaScript would convert to strings.
- `Json.Num`: JSON numbers are exact reals. Rounding to IEEE doubles is left out, including a tiny literal that rounds to `0` and so becomes falsy.
- JavaScript strings are UTF-16 code units, while Dafny `char` is a Unicode scalar value. `\w` is ASCII-only either way, so matching is unaffected.
