# Site-build logic of an Eleventy blog, modelled in Dafny

This project models the logic-bearing parts of a personal blog's Eleventy configuration:

- **Visibility filters** (`removeDrafts`, `removeScheduled`, `removePrivate`). In production they keep the published items, the items dated no later than now, and the non-private items. Otherwise they return the collection unchanged. The production flag (`ELEVENTY_PRODUCTION`) and "now" are explicit parameters.
- **The content tree builder** (`sortByParent`). Each note is an `Item` object whose `children` field is reassigned in place. The first pass empties every item's `children` and indexes the item by its `fileSlug`; a later item with the same slug overwrites an earlier one. The second pass appends each item to the roots, or to the `children` of the item its `parent` slug indexes. A parent slug missing from the index makes the call throw. This is modelled as `Err(MissingParent(slug))`, and the pushes made before it are specified too.
- **The Cloudinary image shortcode.** `transformCloudinaryImage` inserts `w_<width>,f_auto,q_auto,dpr_2.0/` after the first `upload/`, else `fetch/`, else `youtube/`, and only in URLs that mention `cloudinary`. `image` wraps the result in `<img>`, inside a `<figure>` with a `<figcaption>` when the caption is truthy.
- **The inline config pieces:** the `posts` collection (filter, then reverse) and the `head`, `getAllTags` and `filterTagList` filters. `head` follows `Array.prototype.slice` as ECMAScript defines it. `getAllTags` is a loop that fills a JavaScript `Set`; it is proved equal to an insertion-ordered de-duplication.
- **The drafts and private-notes plugins.** Each has two computed-data getters over an explicit environment variable, and a class holding the variable, the log-once latch and the console lines.

JavaScript values are modelled explicitly:
- A present-or-absent value is an `Option`.
- Truthiness is explicit (`Js.Truthy`, `Js.TruthyStr`).
- An environment variable is an `Option<string>`, truthy when present and non-empty. Node stores a boolean assigned to `process.env` as the string `"true"` or `"false"` (`Js.EnvAssignBool`).
- The front-matter values `published` and `private` are kept as their truthiness (`bool`).
- Item dates are integers: milliseconds since the epoch.

The tree builder, as the code has it:
- Slugs are matched exactly, with no case folding (`Collections.NoCaseFolding`).
- An item whose parent is missing is not silently dropped: the builder throws (after logging).
- So removing a private parent before building the tree makes the whole call fail, rather than orphaning its children (`Collections.PrivateParentFailsTree`, and the notes collection under "## Findings").
- A self-referencing parent puts the item into its own `children`, with no cycle check (`Collections.SelfParent`).

## Model

| member | source | states |
|---|---|---|
| `Js.EnvAssignBool` | src/config/plugin.drafts.js:22 | assigning a boolean to `process.env` stores `"true"` or `"false"`, and both are truthy |
| `Js.Truthy` | src/config/plugin.drafts.js:5 | a value is truthy iff it is none of `undefined`, `null`, `false`, `0` and `""` |
| `Js.TruthyStrIsTruthy` | src/config/plugin.private.js:5 | a possibly missing string (an environment variable, a slug, a caption) is truthy iff, read as `undefined` or as that string, it is truthy |
| `Seqs.Filter` | eleventy.config.js:48-50 | `filter` keeps only elements satisfying the predicate and never lengthens the array |
| `Seqs.Reverse` | eleventy.config.js:56 | `reverse` keeps the length and puts element `k` at position `len - 1 - k` |
| `Collections.RemoveDrafts` | src/config/collections.js:7-8 | flag unset: the input unchanged; flag set: exactly the published items, each as often as in the input, as a subsequence in input order; never longer than the input |
| `Collections.RemoveScheduled` | src/config/collections.js:16-17 | flag unset: the input unchanged; flag set: exactly the items with `date <= now`, each as often as in the input, in input order; never longer |
| `Collections.RemovePrivate` | src/config/collections.js:25-26 | flag unset: the input unchanged; flag set: exactly the items not marked private, each as often as in the input, in input order; never longer |
| `Collections.RemoveDraftsIdempotent` | src/config/collections.js:7-8 | applying `removeDrafts` twice equals applying it once |
| `Collections.RemoveScheduledIdempotent` | src/config/collections.js:16-17 | applying `removeScheduled` twice (same flag and clock) equals applying it once |
| `Collections.RemovePrivateIdempotent` | src/config/collections.js:25-26 | applying `removePrivate` twice equals applying it once |
| `Collections.Index` | src/config/collections.js:33-36 | the slug index holds every item's slug, and each entry is an item of the collection carrying that slug |
| `Collections.IndexLastWins` | src/config/collections.js:35 | a slug maps to the last item carrying it: later items overwrite earlier ones |
| `Collections.Roots` | src/config/collections.js:41-50 | the roots are exactly the items with a falsy parent, each as often as in the input, in input order |
| `Collections.ChildrenOf` | src/config/collections.js:47 | an item's children are exactly the items whose parent slug indexes it, each as often as in the input, in input order |
| `Collections.FirstUnresolvedFrom` | src/config/collections.js:42-47 | finds the first item, from a position on, whose truthy parent slug is not in the index; none before it fails |
| `Collections.IndexItems` | src/config/collections.js:33-36 | the first pass: every item's `children` is emptied and the index is built with last-write-wins |
| `Collections.ConnectChildren` | src/config/collections.js:39-53 | the second pass stops at the end or at an unresolved item, with every earlier parent resolved; at the end it returns the roots, otherwise the missing slug of the item it stopped at; every item's `children` holds exactly what the items before the stop pushed into it |
| `Collections.ConnectItem` | src/config/collections.js:41-50 | one resolving item: a root is appended to the roots, any other item to its parent's `children`, so both now reflect one more item |
| `Collections.SecondPassStops` | src/config/collections.js:39-53 | where the second pass stops is the first unresolved position (or none), and its result is `TreeResult` of the collection |
| `Collections.SortByParent` | src/config/collections.js:28-54 | no unresolved parent: returns the roots, and every item's `children` is exactly the items attached to it (earlier children discarded); otherwise throws on the first unresolved parent, with the earlier pushes in place; the result is always `TreeResult(collection)` |
| `Collections.ExactlyOneParent` | src/config/collections.js:41-50 | when the build succeeds, an item with a parent is not a root and lies in the children of exactly one item, the last one with its parent slug |
| `Collections.SelfParent` | src/config/collections.js:47 | an item naming its own slug as parent (and last with that slug) is in its own children |
| `Collections.NoCaseFolding` | src/config/collections.js:42 | parent `"A"` does not find the note `"a"`: the lookup fails and the call throws |
| `Collections.PrivateParentFailsTree` | src/config/collections.js:42-47 | in production, removing a private parent before building the tree leaves its public child with a missing parent, so the builder throws |
| `Collections.TreeResult` | src/config/collections.js:28-54 | `SortByParent`'s result, as a function: it succeeds exactly when every truthy parent slug resolves, and then holds the roots; otherwise it fails with the slug of the first item whose parent does not resolve |
| `Collections.NotesAsWritten` | .eleventy.js:84 | the notes collection as written: outside production the tree builder's result unchanged; it succeeds exactly when the tree over the public notes resolves; whatever it returns holds only roots and, in production, no private note |
| `Collections.NotesIntended` | .eleventy.js:83 | the order the comment describes: outside production the tree builder's result unchanged; it succeeds exactly when the tree over all notes resolves; whatever it returns holds only roots and, in production, no private note |
| `Collections.NotesAsWrittenFailsOnPrivateParent` | .eleventy.js:84 | as written, a private root with a public child makes the notes collection throw in production |
| `Collections.NotesIntendedPrunesPrivateParent` | .eleventy.js:83 | with the tree built from every note, the same notes give an empty collection: the public child leaves with its private parent |
| `Collections.NotesIntendedPublicRoots` | .eleventy.js:83 | with the correction, a resolving tree yields exactly the public roots: no private note and no note with a parent |
| `Shortcodes.IndexOfFrom` | src/config/shortcodes.js:10-19 | the first occurrence of a pattern at or after a position, or none at all, as `includes` and `replace` search |
| `Shortcodes.ContainsIffOccurs` | src/config/shortcodes.js:10-17 | `includes` holds iff the pattern occurs at some position |
| `Shortcodes.ReplaceFirst` | src/config/shortcodes.js:12 | `replace` with a string pattern rewrites only the first occurrence, or nothing if there is none |
| `Shortcodes.ReplaceInserts` | src/config/shortcodes.js:12 | replacing the first `marker` by `marker + p` inserts `p` right after that occurrence |
| `Shortcodes.InsertionPoint` | src/config/shortcodes.js:10-22 | there is a rewrite iff the URL contains `cloudinary` and one of the markers; it goes after the first `upload/`, else the first `fetch/`, else the first `youtube/` |
| `Shortcodes.TransformCloudinaryImage` | src/config/shortcodes.js:7-23 | the URL unchanged when there is no insertion point; otherwise the URL with the one parameter segment inserted at the insertion point |
| `Shortcodes.RemovingParamsRestoresUrl` | src/config/shortcodes.js:12-18 | the output carries the segment at the insertion point, and deleting it gives back the original URL |
| `Shortcodes.Decimal` | src/config/shortcodes.js:12 | a width prints as decimal digits, with no leading zero, that denote the width |
| `Shortcodes.WidthText` | src/config/shortcodes.js:8 | `width ?? 'auto'`: `auto` when missing, else the digits denoting the width; never empty and never containing `/` |
| `Shortcodes.Params` | src/config/shortcodes.js:12 | the inserted text starts with `w_` and is exactly one URL path segment: it ends in `/` and contains no other `/` |
| `Shortcodes.ParamsAuto` | src/config/shortcodes.js:8 | a missing width gives the segment `w_auto,f_auto,q_auto,dpr_2.0/` |
| `Shortcodes.Params800` | src/config/shortcodes.js:29 | the shortcode's width 800 gives the segment `w_800,f_auto,q_auto,dpr_2.0/` |
| `Shortcodes.ImgTag` | src/config/shortcodes.js:36 | the `<img>` element carries the source and alt text verbatim, with no escaping, as the `src` and `alt` attribute values |
| `Shortcodes.Image` | src/config/shortcodes.js:28-37 | the `<img>` of the URL transformed at width 800, with alt `alt ?? ''`; inside a `<figure>` with the caption as `<figcaption>` iff the caption is truthy |
| `Shortcodes.ImageIsFigureIffCaption` | src/config/shortcodes.js:32-36 | the output starts with `<figure>` iff the caption is truthy, and a figure ends with `</figcaption></figure>` |
| `Shortcodes.MissingAltIsEmpty` | src/config/shortcodes.js:30 | a missing alt gives the same markup as an empty alt |
| `EleventyConfig.SliceIndex` | eleventy.config.js:89-90 | a negative relative index gives `len - min(-relative, len)`; a non-negative one gives `min(relative, len)` |
| `EleventyConfig.Slice` | eleventy.config.js:89-90 | `slice(start, end)` holds the elements from the clamped start up to the clamped end (the length when `end` is absent), and nothing when the start is not below the end |
| `EleventyConfig.Head` | eleventy.config.js:87-91 | `[]` for a non-array or empty input; the whole array when `n` is undefined; the last `min(-n, len)` elements when `n < 0`; else the first `min(n, len)`; never longer than the input |
| `EleventyConfig.TagsOf` | eleventy.config.js:100 | `item.data.tags \|\| []`: an item's tags, or none when it has no `tags` |
| `EleventyConfig.TagOccurrencesKeepsEveryTag` | eleventy.config.js:99-100 | every occurrence of a tag in one item is among the collection's tag occurrences |
| `EleventyConfig.SetAdd` | eleventy.config.js:100 | `Set.add` appends a new value at the end of the insertion order and leaves the set unchanged for a value already present |
| `EleventyConfig.FirstIndex` | eleventy.config.js:98-102 | the first position of a value in a sequence, with no earlier occurrence |
| `EleventyConfig.DedupMembership` | eleventy.config.js:98-102 | a value survives de-duplication iff it occurs in the input |
| `EleventyConfig.DedupNoDuplicates` | eleventy.config.js:98-102 | the de-duplicated list has no repeated element |
| `EleventyConfig.DedupFirstAppearance` | eleventy.config.js:98-102 | the distinct values come out in the order of their first appearance |
| `EleventyConfig.TagOccurrencesMembership` | eleventy.config.js:99-100 | a tag occurs in the collection iff some item's `tags` lists it; items without `tags` contribute nothing |
| `EleventyConfig.GetAllTags` | eleventy.config.js:97-103 | the loop over items and tags yields the insertion-ordered set: no duplicates; a tag is in it iff some item lists it; ordered by first appearance |
| `EleventyConfig.AllTagsSpec` | eleventy.config.js:97-103 | `Array.from` of the filled `Set` has no duplicates, holds a tag iff some item lists it, and orders tags by first appearance |
| `EleventyConfig.FilterTagList` | eleventy.config.js:105-107 | `[]` for a missing list; exactly the input tags other than `all`, `nav`, `post`, `posts`, each as often as in the input, in input order |
| `EleventyConfig.FilterTagListIdempotent` | eleventy.config.js:105-107 | applying `filterTagList` twice equals applying it once |
| `EleventyConfig.Posts` | eleventy.config.js:46-59 | exactly the glob items whose category is `posts`, each as often as in the input, with the input order reversed |
| `EleventyConfig.ReversedFilter` | eleventy.config.js:50-56 | the reverse of a filter holds exactly the kept elements, with their counts, in reverse input order |
| `PluginDrafts.GetPermalink` | src/config/plugin.drafts.js:3-5 | `false` when the page date and `BUILD_DRAFTS` are both falsy; otherwise the page's own permalink |
| `PluginDrafts.GetExcludeFromCollections` | src/config/plugin.drafts.js:9-11 | `true` under the same guard; otherwise the page's own `eleventyExcludeFromCollections` |
| `PluginDrafts.PermalinkForcedIffExcluded` | src/config/plugin.drafts.js:5-11 | for a page that does not set these itself, the permalink is forced to `false` iff the exclusion is forced to `true`, iff it is a hidden draft |
| `PluginDrafts.DraftsMessage` | src/config/plugin.drafts.js:26 | the logged line is the site prefix with `Excluding drafts.` iff the run mode is `build`, and with `Including drafts.` otherwise |
| `PluginDrafts.DraftsFlag` | src/config/plugin.drafts.js:22 | the handler stores `"false"` in build mode and `"true"` in any other mode; either is truthy |
| `PluginDrafts.DraftsFlagIntended` | src/config/plugin.drafts.js:21-22 | the corrected flag is truthy iff the run mode is not `build` |
| `PluginDrafts.AsWrittenBuildShowsDrafts` | src/config/plugin.drafts.js:5-22 | with the flag as written, no run mode suppresses any page's permalink or collection setting |
| `PluginDrafts.AsWrittenBuildPublishesUndatedPage` | src/config/plugin.drafts.js:5-22 | a build-mode run keeps the permalink `/draft/` of an undated page |
| `PluginDrafts.IntendedBuildHidesDrafts` | src/config/plugin.drafts.js:5-22 | with the corrected flag, a page is hidden and excluded iff the mode is `build` and the page is undated |
| `PluginDrafts.DraftsPlugin.constructor` | src/config/plugin.drafts.js:18 | the latch starts open (`logged` is false) with nothing logged |
| `PluginDrafts.DraftsPlugin.OnBefore` | src/config/plugin.drafts.js:20-29 | sets `BUILD_DRAFTS` as written; logs the message only while the latch is open, then closes it; at most one line is ever logged |
| `PluginDrafts.DraftsPlugin.OnBeforeIntended` | src/config/plugin.drafts.js:20-29 | the same handler with the corrected flag |
| `PluginPrivate.GetPermalink` | src/config/plugin.private.js:3-5 | `false` whenever `BUILD_PRIVATE` is falsy; otherwise the page's own permalink |
| `PluginPrivate.GetExcludeFromCollections` | src/config/plugin.private.js:7-9 | `true` whenever `BUILD_PRIVATE` is falsy; otherwise the page's own value |
| `PluginPrivate.IgnoresDate` | src/config/plugin.private.js:3-9 | neither getter depends on the page's date |
| `PluginPrivate.IsLocalBuild` | src/config/plugin.private.js:18 | holds iff the run mode is `serve` or `watch`; `build` and any other mode are not local |
| `PluginPrivate.PrivateMessage` | src/config/plugin.private.js:24 | the logged line is the site prefix with `Including private notes...` iff the run is local, and with `Excluding private notes...` otherwise |
| `PluginPrivate.PrivateFlag` | src/config/plugin.private.js:20 | the handler stores `"true"` for a local run and `"false"` otherwise; either is truthy |
| `PluginPrivate.PrivateFlagIntended` | src/config/plugin.private.js:18-20 | the corrected flag is truthy iff the run is local |
| `PluginPrivate.AsWrittenBuildShowsPrivate` | src/config/plugin.private.js:5-20 | with the flag as written, no run mode suppresses any page's permalink or collection setting |
| `PluginPrivate.AsWrittenBuildPublishesPrivatePage` | src/config/plugin.private.js:5-20 | a build-mode run keeps the permalink `/private/` |
| `PluginPrivate.IntendedBuildHidesPrivate` | src/config/plugin.private.js:5-20 | with the corrected flag, pages are hidden and excluded iff the run is not local |
| `PluginPrivate.PrivatePlugin.constructor` | src/config/plugin.private.js:15 | the latch starts open (`loggedPrivate` is false) with nothing logged |
| `PluginPrivate.PrivatePlugin.OnBefore` | src/config/plugin.private.js:17-27 | reassigns `BUILD_PRIVATE` on every event as written; logs only while the latch is open, then closes it; at most one line is ever logged |
| `PluginPrivate.PrivatePlugin.OnBeforeIntended` | src/config/plugin.private.js:17-27 | the same handler with the corrected flag |

## Left out

- `console.log` in the tree builder (src/config/collections.js:44) is not modelled. The error value carries the missing slug instead. The plugins' log lines are modelled, as each plugin's `console` field.
- The tree index is modelled as a map. The source uses a plain `{}` object, so a parent slug naming an inherited property (`constructor`, `toString`) finds a function instead of `undefined`. The call then still throws, but without the log line. A `__proto__` slug is not modelled either.
- JavaScript values of other types are not modelled: a numeric `parent`, a string `tags`, or a non-string `url` (which makes `url.includes` throw). Invalid `Date`s, whose comparison is always false, are left out too.
- `EleventyConfig.Head`: `head(list, null)` is not modelled. There `slice(0, null)` gives `[]`, whereas a missing `n` (`None`) stands for `undefined` only.
- `Collections.RemoveScheduled`: the source calls `Date.now()` once per item. The model takes a single `now` for the whole call, so an item dated during the call is not modelled.
- Fractional, `NaN` or infinite `n` in `head`, and non-integer or negative widths in `transformCloudinaryImage`, are not modelled. Widths are natural numbers below 2^53, printed in decimal. A template string prints integers of 10^21 and above in exponent form, and loses precision above 2^53; `Shortcodes.Decimal` prints every digit. `image` only ever uses 800.
- `Shortcodes.ReplaceFirst`: `$` patterns in a replacement string are not interpreted. The source's replacements never contain `$`.
- The `readableDate` and `htmlDateString` filters are left out: they depend on Luxon and time zones.
- The `min` filter is left out: it is `Math.min` over floating-point numbers.
- The `notes` collections' locale-dependent `localeCompare` sort and their glob and `destination` filters are not part of this model. Of the `.eleventy.js` variants of the collections, only the order of `removePrivate` and `sortByParent` in its notes collection is modelled (`Collections.NotesAsWritten`, `Collections.NotesIntended`).
- Plugin and library registration, passthrough copy, Markdown setup and the returned configuration object are left out: they are framework glue. `eleventy.config.drafts.js` and `eleventy.config.images.js` are not part of this model.
- SendGrid email, static site data, PostCSS and Tailwind configuration are left out: they are I/O or do not behave.
- Eleventy's event loop itself is not modelled: which run modes arrive, and when computed data is evaluated. Each handler is a method, and the getters take the current environment value as a parameter. Each plugin owns the one environment variable it writes.

## Findings

| source | as written | input that shows it | evidently intended | confidence | as-written member | corrected member |
|---|---|---|---|---|---|---|
| src/config/plugin.drafts.js:22 | `process.env.BUILD_DRAFTS = runMode === 'build' ? false : true` stores the string `"false"`, which is truthy, so `!process.env.BUILD_DRAFTS` is never true after the handler | run mode `build`, a page without a date, with permalink `/draft/`: it keeps `/draft/` and stays in collections | drafts hidden in build mode: the flag falsy when `runMode === 'build'` | high (Node documents the string coercion); not executed | `PluginDrafts.AsWrittenBuildPublishesUndatedPage` | `PluginDrafts.IntendedBuildHidesDrafts` |
| src/config/plugin.private.js:20 | `process.env.BUILD_PRIVATE = isLocalBuild ? true : false` stores `"false"` for non-local runs, which is truthy, so the getters never hide anything | run mode `build`, a page with permalink `/private/`: it keeps `/private/` | pages hidden outside watch/serve: the flag falsy when the run is not local | high (Node documents the string coercion); not executed | `PluginPrivate.AsWrittenBuildPublishesPrivatePage` | `PluginPrivate.IntendedBuildHidesPrivate` |
| .eleventy.js:84 | `removePrivate(sortByParent(removePrivate(notes)))` removes private notes before building the tree, so in production a public note under a private parent names a missing parent and `sortByParent` throws; the outer `removePrivate` never gets to drop it | a private root note `p` and a public note `q` with parent `p`, in production | as the comment at line 83 says, build the tree from every note and remove private notes afterwards, so that a private note's public children leave with it. Private notes nested under a public parent then stay in that parent's `children` | medium (the two comments at lines 82-83 describe both orders); not executed | `Collections.NotesAsWrittenFailsOnPrivateParent` | `Collections.NotesIntendedPrunesPrivateParent` |
