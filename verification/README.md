# Language resolution of the Iris i18n middleware, in Dafny

This project models `I18n.Serve` from `go-i18n/i18n.go`. The handler picks one
language per request and remembers it in a cookie. It looks at four sources in
order:

1. a language an earlier handler already put in the request's value store;
2. the URL parameter (named `lang` by `New`);
3. the language cookie;
4. the `Accept-Language` header, matched against the bundle's language tags.

The decision is the pure function `I18n.Resolve`. It returns an `Outcome` with
three parts: the resolved language, the cookie value written (if any), and the
value left in the store. `I18n.Serve` is a method that follows the handler's
own mutable variables and nesting, and it is proved equal to `Resolve`.
`I18n.ScanAcceptLanguage` is the loop over header entries as the code writes
it. For each entry it runs the inner loop over tags, `I18n.ScanTags`, whose
`break` leaves only that inner loop. The entry loop is proved equal to the
fold `I18n.ScanEntries`. Lemmas then pin down what that fold returns.

`GoStrings` models the two Go library functions the scan calls:
`strings.Split` with a one-character separator, and `strings.Contains`. The
handler never calls `strings.Join`; `GoStrings.Join` is there only as the
inverse that pins down what `Split` computes. `Split(s, sep)[0]` is
`FirstField`: the part before the
first `sep`, or all of `s`. Go strings are bytes. Every separator here is
ASCII, and a substring test on valid UTF-8 agrees with one on code points, so
the model works on `string` (`seq<char>`).

`Translation` models the closure `Serve` binds for later handlers. The
description passed to the catalog is the first argument when that argument is
a string, and `""` otherwise. A lookup error comes back as its text instead of
a translation. The catalog's `LocalizeMessage` is a function parameter.

The model follows the code, including where the code departs from what the
middleware seems meant to do:

- A language already in the store is not kept. It is replaced by the
  configured `Default`, and no cookie is written (lines 46-49).
- `Default` is used only in that case. When no source yields anything, the
  result is `""`, and `""` is written to the cookie.
- The `break` on line 68 leaves only the loop over tags. So the last matching
  header entry decides, not the first.
- Quality values are ignored and entries are not trimmed. After `", "`, an
  entry starts with a space and can only match a tag that contains a space.
- An entry's primary code is tested for substring containment in each tag;
  this is not the lookup or filtering scheme of RFC 4647. The result is the
  entry's own text before `;`, region included, never the tag it matched.
- An entry with an empty range matches any tag, because `""` is contained in
  every string. A trailing comma therefore makes the header yield `""`.
- A follow-up request reproduces a resolved language from the cookie only
  when that language is non-empty. A cookie holding `""` counts as absent,
  so the next request is resolved again from scratch.

## Model

| member | source | states |
|---|---|---|
| GoStrings.Contains | go-i18n/i18n.go:66 | `strings.Contains(tag, code)`: the empty code is always contained, and a contained code is never longer than the tag |
| GoStrings.ContainsIsSubstring | go-i18n/i18n.go:66 | `strings.Contains(tag, code)` holds exactly when `code` occurs as a contiguous piece of `tag` |
| GoStrings.ContainsEmpty | go-i18n/i18n.go:66 | the empty code is contained in every tag |
| GoStrings.Split | go-i18n/i18n.go:62 | splitting on a separator gives at least one piece; no piece contains the separator; rejoining the pieces with it gives back the input |
| GoStrings.SplitJoin | go-i18n/i18n.go:62 | the other direction of the round trip: splitting a join of separator-free pieces gives back exactly those pieces |
| GoStrings.SplitTrailingSeparator | go-i18n/i18n.go:62 | a trailing separator adds exactly one empty piece at the end |
| GoStrings.FirstField | go-i18n/i18n.go:63-65 | the part of `s` before the first `sep` is a prefix of `s` that does not contain `sep`, and is either all of `s` or followed by `sep` |
| GoStrings.FirstFieldIsSplitHead | go-i18n/i18n.go:63-65 | that part is exactly `strings.Split(s, sep)[0]`, the first piece the code takes |
| GoStrings.FirstFieldUnique | go-i18n/i18n.go:63-65 | those three conditions determine the first field uniquely |
| I18n.New | go-i18n/i18n.go:35-39 | the configuration `New` returns has default language `"en-US"` and URL parameter name `"lang"` |
| I18n.LanguageRange | go-i18n/i18n.go:63 | an entry's range is the prefix before its first `;` (the quality value is dropped): free of `;`, and all of the entry or followed by `;` |
| I18n.PrimaryCode | go-i18n/i18n.go:65 | a range's code is the prefix before its first `-`: free of `-`, and all of the range or followed by `-` |
| I18n.AnyTagContainsSome | go-i18n/i18n.go:64-69 | the tag loop, trying the tags in order, succeeds exactly when some tag contains the code |
| I18n.ScanTags | go-i18n/i18n.go:64-69 | the tag loop as written, with its `break`, returns the entry's range when some tag contains its code and leaves the language unchanged otherwise |
| I18n.EntryMatchesIsSubstring | go-i18n/i18n.go:64-69 | the tag loop for one entry finds a tag exactly when the entry's code occurs as a contiguous piece of some tag |
| I18n.ScanEntriesYieldsEntryRange | go-i18n/i18n.go:62-71 | the loop over entries leaves either the starting language or the `;`-prefix of one of the header's entries |
| I18n.ScanEntriesLastMatch | go-i18n/i18n.go:62-71 | the header scan returns the `;`-prefix of the last entry whose `-`-prefix is contained in some tag |
| I18n.ScanEntriesNoMatch | go-i18n/i18n.go:61-72 | when no entry matches, the scan leaves the language as it was |
| I18n.LastMatchExists | go-i18n/i18n.go:62-71 | if any entry matches there is a last matching one, so the two lemmas above cover every header |
| I18n.ScanAcceptLanguage | go-i18n/i18n.go:60-72 | the entry loop, running the tag loop (whose `break` leaves only that loop) on each entry, returns the `;`-prefix of the last matching entry, or the starting value when none matches, and agree with the fold over entries |
| I18n.Resolve | go-i18n/i18n.go:44-83 | the store always ends up holding the resolved language; a cookie is written exactly when the store was empty and the cookie was not the source, and it holds the resolved language |
| I18n.Serve | go-i18n/i18n.go:43-83 | the handler's step-by-step control flow yields exactly the outcome of `Resolve` |
| I18nProperties.StoredValueYieldsDefault | go-i18n/i18n.go:46-49 | a non-empty stored language is replaced by the configured default, the store is overwritten with it, and no cookie is written |
| I18nProperties.NewConfigStoredYieldsEnUS | go-i18n/i18n.go:35-49 | with the configuration `New` builds (`"en-US"`, `"lang"`), a stored language always becomes `"en-US"` |
| I18nProperties.ConfigIrrelevantWhenStoreEmpty | go-i18n/i18n.go:46-79 | with an empty store the configured default plays no part in the outcome |
| I18nProperties.UrlParamWins | go-i18n/i18n.go:51-52 | with an empty store, a non-empty URL parameter is the result whatever the cookie and header, and it is written to the cookie |
| I18nProperties.CookieWins | go-i18n/i18n.go:54-58 | with an empty store and no URL parameter, a non-empty cookie is the result and no cookie is written |
| I18nProperties.HeaderLastMatchWins | go-i18n/i18n.go:60-77 | with only the header left, the result and the cookie written are the `;`-prefix of the last matching header entry |
| I18nProperties.NoSourceYieldsEmpty | go-i18n/i18n.go:51-77 | with an empty store, URL parameter and cookie, and an empty or non-matching header, the result is `""` (not the default) and `""` is written to the cookie |
| I18nProperties.EmptyHeaderScanIsEmpty | go-i18n/i18n.go:60-62 | scanning an empty header would also give `""`, so the length guard does not change the result |
| I18nProperties.HeaderResultIsEntryRange | go-i18n/i18n.go:62-67 | a header-derived language is `""` or the raw `;`-prefix of one header entry, and contains no `,` or `;` |
| I18nProperties.EntryMatchesSameTags | go-i18n/i18n.go:64-66 | whether an entry matches depends only on which tags the bundle has |
| I18nProperties.ScanEntriesSameTags | go-i18n/i18n.go:62-71 | the header scan does not depend on the order or repetition of the tags |
| I18nProperties.TagOrderIrrelevant | go-i18n/i18n.go:44-83 | reordering the bundle's tags never changes the outcome |
| I18nProperties.LeadingSpaceNeverMatches | go-i18n/i18n.go:63-66 | entries are not trimmed: an entry starting with a space matches no tag that is free of spaces |
| I18nProperties.EmptyRangeMatchesAnyTag | go-i18n/i18n.go:63-66 | an entry whose `;`-prefix is empty matches as soon as the bundle has any tag |
| I18nProperties.TrailingCommaYieldsEmpty | go-i18n/i18n.go:62-77 | with only the header left, a header ending in `,` yields `""`, whatever precedes the comma |
| I18nProperties.CookieReplay | go-i18n/i18n.go:54-77 | a follow-up request whose cookie carries a non-empty language the first request wrote, with no URL parameter, resolves to that language with no new write |
| I18nProperties.TwoEntryHeader | go-i18n/i18n.go:62-71 | for a header `a,b`, the second entry decides when it matches, the first only when the second does not, else `""` |
| I18nProperties.LaterMatchWins | go-i18n/i18n.go:62-77 | for a header `a,b` whose second entry matches, that entry's `;`-prefix is the result, whatever the first entry is |
| I18nProperties.SingleEntryHeader | go-i18n/i18n.go:60-77 | a one-entry header that matches yields that entry's `;`-prefix, written to the cookie and store |
| I18nProperties.RegionKeptExample | go-i18n/i18n.go:60-77 | with tags `en-US` and `fr-FR` and only the header left, the header `fr-CA` yields `fr-CA` (a value that is not a tag) as result, cookie write and stored value, not the tag `fr-FR` it matched |
| I18nProperties.LaterEntryWinsExample | go-i18n/i18n.go:60-77 | with tags `en-US` and `fr-FR` and only the header left, both entries of the header `fr-CA,en-GB` match, and the result is `en-GB`, not the first match |
| I18nProperties.SpaceAfterCommaExample | go-i18n/i18n.go:60-77 | with the single tag `fr` and only the header left, neither entry of the header `de, fr` matches (the second keeps its leading space), and the result is `""` |
| Translation.Description | go-i18n/i18n.go:87-92 | the description is the first argument exactly when that argument is a string; otherwise it is `""` |
| Translation.Translate | go-i18n/i18n.go:94-98 | the result is the text the catalog returned, whether a translation or an error's text; the call itself never fails |
| Translation.TranslateIgnoresLaterArgs | go-i18n/i18n.go:87-92 | arguments after the first never affect the translation |
| Translation.TranslateNonStringFirstArg | go-i18n/i18n.go:88-92 | a first argument that is not a string counts as no description |
| Translation.TranslateErrorDegrades | go-i18n/i18n.go:94-97 | a catalog error comes back as its text in place of the translation |

## Left out

- Host plumbing is not modelled. Each of these is an input or an output of `Resolve`: `ctx.Values()` reads and writes, `GetCookie` and `SetCookieKV`, `GetHeader`, `ctx.Next()`, and the two context keys from the application configuration.
- The URL parameter is passed in as its value. Looking it up under `Config.urlParameter` is done by the host.
- Bundle construction and `MustLoadMessageFile` in `New` are left out, because they are file I/O in a third-party library. `Bundle.LanguageTags()` is an input: a sequence of tag strings.
- Building the localizer with `i18n.NewLocalizer` and `LocalizeMessage` is left out, because both are third-party code. `Translation.Translate` takes the localizer as a function parameter.
- Translation.Translate: does not promise that an error's text is non-empty, because that text comes from the catalog library.
- Concurrency is left out. Each request is handled independently and the configuration is read-only.
