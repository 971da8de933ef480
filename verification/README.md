# Sitcom shuffle: a Dafny model of the episode list, its pages and its ids

This project models the logic of three files of a Stremio add-on. The add-on
serves the episodes of the sitcoms on a Trakt list in shuffled order.

- **index.js** is the Trakt add-on.
  - `getShowSeasons` drops the specials (season 0). A failed request gives `[]`.
  - `getAllEpisodes` turns the list's shows into one record per episode: list order, then season, then episode. It sits behind a one-hour cache held in two module-level variables.
  - `getRandomEpisodes` picks the first `count` episodes of a shuffled copy.
  - The meta handler answers with the first record whose id matches.
- **api/index.js** is the serverless entry point.
  - `episodeToMeta` builds a meta named by the composite id `imdb:season:episode:index`, or `null` for an incomplete entry.
  - The catalog path serves 50 entries of the shuffled list from `skip`, each tagged with its absolute position.
  - The meta path splits the id on `:`, parses the parts and finds the entry at the named position.
- **addon.js** is the add-on handler over the key-value store. It serves 100 stored episodes from `skip` and converts every one of them. The name carries the zero-padded `SxxEyy` code. The description carries the 1-based shuffle position.

The JavaScript behaviour these files rely on is written out in `JsText`:

- `String(n)`, `padStart(2, '0')` and `parseInt`, including leading white space, a sign, `0x`, a digit prefix, and `NaN` as `None`;
- `parseInt(x) || 0`;
- `split`;
- `slice`, with negative and out-of-range bounds;
- `filter(Boolean)`;
- `encodeURIComponent`, over UTF-8;
- template text of a missing value (`undefined`);
- truthiness.

The files are:

| file | module | models |
|---|---|---|
| `wrappers.dfy` | `Wrappers` | `Option`: a value or `undefined`/`null` |
| `js_text.dfy` | `JsText` | the JavaScript string and number operations listed above |
| `episode_code.dfy` | `EpisodeCode` | the `SxxEyy` text, padded and unpadded, and reading it back |
| `trakt_episodes.dfy` | `TraktEpisodes` | index.js: seasons, expansion, cache (class `EpisodeCache`), random pick, meta lookup |
| `stored_episodes.dfy` | `StoredEpisodes` | the stored episode objects read by api/index.js and addon.js |
| `shuffle_api.dfy` | `ShuffleApi` | api/index.js |
| `shuffle_addon.dfy` | `ShuffleAddon` | addon.js |

`getAllEpisodes` updates state, so it is the method `EpisodeCache.GetAllEpisodes`, which works on the fields `episodesCache` and `cacheTimestamp`. Its three nested loops (items, seasons, episodes, each pushing onto one array) are the methods `CollectEpisodes`, `PushSeasons` and `PushEpisodes`. Each loop is proved against the left-recursive specification function `Expand`, which the lemmas below are about. Everything else in the three files is an expression over lists and strings, and is modelled as functions.

The model's inputs stand in for the network, the store and the clock:

- The Trakt list fetch is an `Option` (`None` when it throws).
- The seasons of each show are a map keyed by Trakt id. A show whose request failed has no key.
- `Date.now()` is the parameter `now`.
- The `Math.random` order is a parameter `shuffled`, which may be any rearrangement of the list.
- The stored list read by api/index.js is an input.
- The key-value read of addon.js is a `StoreRead`: it failed, found nothing, or found a list.

## Model

| member | source | states |
|---|---|---|
| TraktEpisodes.RegularSeasons | index.js:96 | definition: `seasons.filter(season => season.number > 0)`, in response order |
| TraktEpisodes.GetShowSeasons | index.js:96-99 | a failed seasons request gives no seasons |
| TraktEpisodes.RegularSeasonsMembers | index.js:96 | a season is kept exactly when it is in the response and its number is at least 1 |
| TraktEpisodes.RegularSeasonsAppend | index.js:96 | the filter works piecewise on a concatenation, so the kept seasons stay in response order |
| TraktEpisodes.RegularSeasonsKeepsRegular | index.js:96 | a response without specials passes through unchanged |
| TraktEpisodes.MakeRecord | index.js:147-172 | the record's id is `ShowRecordId` of the show: its IMDb id when truthy, else `trakt:` and the Trakt id; poster, background and logo are present exactly when the IMDb id is truthy; season, episode and show title are copied; `releaseInfo` is the padded `SxxEyy` code |
| TraktEpisodes.RecordsAt | index.js:146-173 | record `k` is the record of source `k`: one record per episode, in order |
| TraktEpisodes.PushEpisodes | index.js:145-175 | the inner loop appends one record per episode of the season, in order |
| TraktEpisodes.PushSeasons | index.js:144-176 | the season loop appends the records of every season, in order; a season with missing or empty `episodes` adds none |
| TraktEpisodes.Expand | index.js:132-184 | definition: the records of the list's episodes, item after item, regular season after season, episode after episode; items without a show and shows without a seasons response add nothing |
| TraktEpisodes.AllEpisodesResult | index.js:110-197 | definition: what `getAllEpisodes` returns: the cache while fresh, `[]` for a failed or empty list fetch, else `Expand` |
| TraktEpisodes.CollectEpisodes | index.js:132-184 | the loop over the list items builds exactly `Expand(items, fetched)` |
| TraktEpisodes.SkippedItemAddsNothing | index.js:96-135 | an item without a show, or a show whose seasons request failed, adds no record |
| TraktEpisodes.ShowSourcesAppend | index.js:144 | a show's episodes split over a concatenation of seasons, so season order is kept |
| TraktEpisodes.ExpandLength | index.js:134-176 | the number of records is the sum, over the items with a show, of the episode counts of their regular seasons |
| TraktEpisodes.FailedShowIsolated | index.js:97-99 | when one show's request fails, the result is the same as when that show is removed from the list: every other show is still fully collected |
| TraktEpisodes.ExpandHasNoSpecials | index.js:96-168 | no record has season 0 or below |
| TraktEpisodes.CachedListServedForAnHour | index.js:114-117 | a list cached at a non-zero time is returned unchanged to an unforced call less than an hour later; a forced or later call does not use it |
| TraktEpisodes.EpisodeCache.constructor | index.js:13-14 | the cache starts empty, with no timestamp |
| TraktEpisodes.EpisodeCache.GetAllEpisodes | index.js:110-197 | the result is the fresh cache, `[]` for a failed or empty list fetch, else the expansion; the cache and timestamp become the result and `now` exactly after a pass over a non-empty list, and are otherwise unchanged |
| TraktEpisodes.RepeatedReadsAgree | index.js:114-190 | after a successful forced read, an unforced read less than an hour later returns the same list, whatever Trakt answers then |
| TraktEpisodes.RandomEpisodes | index.js:104-107 | the pick has `min(count, n)` episodes for a count of at least 0; it is a prefix of the shuffled copy, and no episode occurs more often than in the list |
| TraktEpisodes.FirstWithId | index.js:259 | the position found holds the id and no earlier position does; no position is found only when no record holds the id |
| TraktEpisodes.MetaFor | index.js:259-287 | definition: the first record with the id, else the placeholder carrying the id |
| TraktEpisodes.EpisodeCache.Meta | index.js:254-288 | the answer is the first record of the list `getAllEpisodes` gives with that id, else the placeholder for the id; the cache and timestamp change exactly as an unforced `getAllEpisodes` changes them |
| TraktEpisodes.SameShowSameId | index.js:152 | two records built for the same show carry the same id, the show's IMDb id or else `trakt:` and its Trakt id |
| TraktEpisodes.FirstOfSharedId | index.js:259 | when `first` is the first position holding the id of position `later`, the meta handler answers that id with record `first` |
| TraktEpisodes.MetaOfRecordIsFirstOfShow | index.js:152-259 | over the records of a sequence of episodes, the meta of any episode is the record of the first episode of its show, unless an earlier show has the same id |
| TraktEpisodes.MetaOfEpisodeIsFirstOfShow | index.js:110-259 | the same over the list `getAllEpisodes` builds: the meta handler serves the first episode of a show for the id of any of its episodes |
| EpisodeCode.PaddedRoundTrip | index.js:148-166 | the padded `SxxEyy` text reads back to its season and episode |
| EpisodeCode.UnpaddedRoundTrip | addon.js:35 | the unpadded `SxEy` text reads back to the same season and episode as the padded one |
| JsText.ParseInt | api/index.js:84-86 | definition: `parseInt(s)`: leading white space, an optional sign, `0x` for base 16, the longest digit prefix; `None` for `NaN` |
| JsText.ParseIntOrZero | api/index.js:61 | definition: `parseInt(x) \|\| 0`, where a missing `x` and `NaN` give 0 |
| JsText.SkipOfMinusOne | api/index.js:61 | the query value `-1` gives `skip` `-1` |
| JsText.Split | api/index.js:81 | definition: `s.split(sep)` for a one-character separator |
| JsText.Slice | api/index.js:64 | definition: `s.slice(start, end)`: a negative bound counts from the end, bounds are clamped to the list, and a start at or past the end gives `[]` |
| JsText.EncodeURIComponent | addon.js:32-33 | definition: `encodeURIComponent` over the UTF-8 bytes of the text, keeping the unreserved characters |
| JsText.FilterPresent | api/index.js:65-67 | definition: `filter(Boolean)` over values that are objects or `null` |
| JsText.Pad2Shape | index.js:148-149 | `padStart(2, '0')` prepends `0` exactly to the numbers 0 to 9 |
| JsText.ParseIntOfIntToString | api/index.js:83-86 | `parseInt(String(n))` is `n`, for negative numbers too |
| JsText.ParseIntOfPad2 | index.js:148-149 | `parseInt` of a zero-padded number is the number |
| JsText.SplitOfJoin | api/index.js:81 | splitting parts joined by a separator that none of them contains gives back the parts |
| JsText.EncodedIsUriSafe | addon.js:32-33 | `encodeURIComponent` output holds only unreserved characters and `%` escapes |
| JsText.EncodeUnreserved | addon.js:32-33 | text made only of unreserved characters is left as it is |
| JsText.FilterPresentPositions | api/index.js:65-67 | `filter(Boolean)` keeps one value per present entry, at increasing positions |
| JsText.FilterPresentAllSome | api/index.js:65-67 | with no `null` entry, `filter(Boolean)` keeps every value in place |
| JsText.PageBounds | api/index.js:64 | `slice(skip, skip + size)` with `skip >= 0` has `min(size, n - skip)` elements (none past the end) and is the run of the list from `skip` |
| ShuffleApi.MetaIdRoundTrip | api/index.js:20-86 | the composite id splits and parses back to the IMDb id, season, episode and index, when the IMDb id has no `:` |
| ShuffleApi.EpisodeToMeta | api/index.js:17 | there is a meta exactly when the entry is not `null` and has `ids`, `showIds` and a non-empty `showIds.imdb` |
| ShuffleApi.MetaNamedByCompositeId | api/index.js:20-36 | the meta's id is `imdb:season:episode:index`, and its one video carries that id, season and episode |
| ShuffleApi.MetaFallbacks | api/index.js:26-38 | the poster is the show poster, else the placeholder; the background is the fanart, else the poster; the description is the show overview, else `A random episode from` and the show title; `releaseInfo` is the year as text when there is one; the video title is the episode title, else `Episode` and its number; the video overview and thumbnail fall back to empty and to the show poster |
| ShuffleApi.PageMetaAt | api/index.js:65-67 | meta `k` of a page is the meta of the `k`-th presentable entry, built with that entry's absolute position |
| ShuffleApi.PageKeepsOrder | api/index.js:65-67 | each meta comes from its own entry, and the entries' positions increase: relative order is kept |
| ShuffleApi.PageKeepsPresentable | api/index.js:65-67 | every presentable entry of the page gives a meta |
| ShuffleApi.PageMetasAllPresentable | api/index.js:65-67 | a page of presentable entries gives one meta per entry, in order, each tagged `skip + idx` |
| ShuffleApi.CatalogPage | api/index.js:64-67 | definition: the metas of `all.slice(skip, skip + 50)`, each built with `skip + idx`, with `null` results filtered out |
| ShuffleApi.CatalogAsWritten | api/index.js:61-67 | definition: the catalog path with `skip = parseInt(req.query.skip) \|\| 0`, a negative value included |
| ShuffleApi.Catalog | api/index.js:61-67 | definition: the catalog path with a negative `skip` read as 0 |
| ShuffleApi.CatalogBounds | api/index.js:61-64 | a page of the catalog as written holds at most 50 metas, a negative `skip` included; a page of the corrected catalog holds at most 50 metas, none once `skip` reaches the end, and a missing or non-numeric `skip` gives the first page |
| ShuffleApi.CatalogAgreesWhenNotNegative | api/index.js:61-66 | for a `skip` that is missing or not negative, the corrected catalog is the catalog as written |
| ShuffleApi.MetaLookup | api/index.js:76-97 | definition: split and parse the id, `find` the first entry matching show, season, episode and position (a `null` entry before it throws), answer its meta, else the 404 not-found; an empty id is not looked up |
| ShuffleApi.LookupOnlyAtNamedPosition | api/index.js:81-91 | a lookup succeeds only at the position the id names, on an entry that matches show, season and episode, and answers with that entry's meta |
| ShuffleApi.LookupAtPosition | api/index.js:81-97 | with no `null` entry up to the named position, the lookup succeeds exactly when the entry there matches |
| ShuffleApi.LookupOfOwnId | api/index.js:20-91 | the meta built for position `p` is what the meta path answers for its own id |
| ShuffleApi.CatalogLookupRoundTrip | api/index.js:61-91 | the id of every meta on the page at `skip` is answered with that same meta |
| ShuffleApi.CatalogRoundTrip | api/index.js:61-91 | the same holds for every page the corrected catalog serves |
| ShuffleApi.NegativeSkipBreaksLookup | api/index.js:61-87 | as written, `skip=-1` serves a meta whose id the meta path does not find |
| ShuffleAddon.AddonId | addon.js:29 | the id is `tt` and then the IMDb id when truthy, else the Trakt id |
| ShuffleAddon.EpisodeToMeta | addon.js:27-38 | for every entry the model can represent, a meta is built exactly when the entry is not `null` and has `ids`; anything else throws |
| ShuffleAddon.DescriptionCarriesPosition | addon.js:34 | the description's last line reads back to the position `index + 1` |
| ShuffleAddon.NameCarriesEpisode | addon.js:31 | the name's last word is the zero-padded `SxxEyy` code of the episode's season and number, and it reads back to that season and number |
| ShuffleAddon.MetaShape | addon.js:29-35 | `releaseInfo` and the name name the same episode; the id reads back to the IMDb or Trakt id; the pictures carry the percent-encoded show title; the description carries `index + 1` |
| ShuffleAddon.PageMetasOnePerEntry | addon.js:63-65 | a page that converts gives one meta per entry, in order, each built with `skip + idx` |
| ShuffleAddon.PageMetasPositions | addon.js:34-65 | meta `i` of a page carries the shuffle position `skip + i + 1` |
| ShuffleAddon.PageMetasAllOrNothing | addon.js:63-72 | one entry that fails to convert makes the whole page `[]` |
| ShuffleAddon.Handler | addon.js:41-73 | definition: `[]` for another catalog, a failed or empty store read or an empty list; else the metas of `list.slice(skip, skip + 100)`, each built with `skip + idx`, or `[]` when one conversion throws |
| ShuffleAddon.CatalogAsWritten | addon.js:58-65 | definition: the handler with `skip = parseInt(extra.skip) \|\| 0`, a negative value included |
| ShuffleAddon.Catalog | addon.js:58-65 | definition: the handler with a negative `skip` read as 0 |
| ShuffleAddon.EmptyCases | addon.js:42-72 | a wrong catalog, a failed read, nothing stored or an empty list give no metas |
| ShuffleAddon.CatalogBounds | addon.js:58-60 | a page of the handler as written holds at most 100 metas, a negative `skip` included; a page of the corrected handler holds at most 100 metas, none once `skip` reaches the end, and a missing or non-numeric `skip` gives the first page |
| ShuffleAddon.PageAtEntry | addon.js:60-65 | when every entry of the page converts, meta `i` of the page at `skip` is the meta of list entry `skip + i`, with shuffle position `skip + i + 1` |
| ShuffleAddon.HandlerPositions | addon.js:52-65 | when every entry of the page converts, the page at `skip` has `max(0, min(100, n - skip))` metas, and meta `i` is the meta of list entry `skip + i`, with shuffle position `skip + i + 1` |
| ShuffleAddon.CatalogPositions | addon.js:58-65 | when every entry of the page converts, the same holds for every page the corrected handler serves |
| ShuffleAddon.CatalogAgreesWhenNotNegative | addon.js:58-65 | for a `skip` that is missing or not negative, the corrected handler is the handler as written |
| ShuffleAddon.NegativeSkipMislabelsPosition | addon.js:58-65 | as written, `skip=-1` over any two-episode list serves one meta, the second episode's, with shuffle position 0 |

## Left out

- The HTTP layer is not modelled: the stremio-addon-sdk builder, the manifests, the health check, the CORS headers, the logging, and the URL routing of api/index.js. The handlers take the values the routing would pass them.
- The Trakt requests, the key-value store and the unused `getTraktLists` are not modelled; their results are inputs.
- api/cron.js is not part of this model. `getShuffledEpisodes`, which api/index.js calls, is not defined in these files: its list is an input.
- `Math.random`: the order of the shuffled copy is the parameter `shuffled`. Only length, prefix and multiset facts are stated, since the comparator sort is not a uniform shuffle.
- The 100 ms `setTimeout` pause between shows is not modelled.
- The `new Date().toISOString()` fallback for a video's `released` is not modelled: the model gives `None` where that clock value would stand.
- The index.js catalog handler (index.js:200-251) is modelled only through `RandomEpisodes`. Its missing-configuration, empty-list and error placeholder metas are localized text and are left out. So is the placeholder text of the meta handler. The placeholder's id is modelled.
- TraktEpisodes.MakeRecord: the localized `description` and `runtime` texts (index.js:165, 167) and the constant `type`/`posterShape` fields are not modelled. They are served: the catalog handler serves the records themselves as metas (index.js:239), and the meta handler copies `description` and `runtime` into its answer (index.js:270, 272). They are left out as localized display text that no other part of these files reads.
- TraktEpisodes.EpisodeCache.GetAllEpisodes: a list fetch that succeeds but whose items are not a list, and a seasons response whose seasons lack a `number`, are not modelled. The model's types rule them out. Each call is modelled as running alone. In the source the freshness check (index.js:114) and the cache write (index.js:189-190) are separated by the awaits at index.js:123, 141 and 179, so two calls that both find the cache stale both fetch from Trakt; the one that finishes last wins the write, with the `now` it read at its own start (index.js:111). A call whose list fetch fails can likewise return after another call has changed both fields, so the model's "otherwise unchanged" holds only for a call that no other call overlaps. The list items' `show.title` and `show.ids.trakt` are always present in the model (`Show.title` is a string, `ShowIds.trakt` an integer). In the source a missing title gives a record whose `name` is the text `undefined` (index.js:154), and a missing Trakt id requests `/shows/undefined/seasons` (index.js:86), which fails, so that show adds nothing.
- TraktEpisodes.CollectEpisodes: the exception paths inside the item loop are not modelled. A list item whose show has no `ids` throws at index.js:136, outside the per-show `try`, so the whole pass returns `[]` and the cache is not written (index.js:193-196). A `null` entry in a season's `episodes` throws at index.js:147-149, and the per-show catch (index.js:180-182) keeps the records already pushed for that show, so such a show adds only its earlier episodes. In the model every show has `ids` and every episode is an object, so neither path arises. A failed seasons request is modelled: `getShowSeasons` catches it itself (index.js:97-99) and the show adds nothing.
- TraktEpisodes.Expand: the seasons responses are a map keyed by Trakt id, so two list items of the same show share one response. The source sends one request per item, and the two answers could differ.
- ShuffleApi.MetaIdRoundTrip and ShuffleApi.CatalogLookupRoundTrip assume the show's IMDb id has no `:` and there is no `null` entry before the meta's position. Without these, `split` or `find` behaves differently, as the source does.
- Stored numbers (`season`, `episode`, the Trakt id, the years) are integers in this model. JavaScript's number range and non-integer values, and `parseInt` results too large for a double, are not modelled.
- ShuffleAddon.Description: a stored field that is absent and one stored as `null` are the same `None` in this model, and both print as `undefined`. In the source, a `title`, `overview` or `showYear` stored as JSON `null` prints as `null` in the description (addon.js:34). The position read back from the description is not affected.
- `episode.showTitle` is always a string in this model, in addon.js (addon.js:31-34) and in api/index.js (api/index.js:25, 28). A missing one would print as `undefined`. `episode.ids.trakt` in addon.js (addon.js:29) is always present in this model, a number; a missing one would print as `undefined`.
- ShuffleAddon.EpisodeToMeta: text is modelled as sequences of Unicode code points, so a `showTitle` holding a lone UTF-16 surrogate, which a JavaScript string and the JSON in the store can carry, cannot arise. In the source such a title makes `encodeURIComponent` throw a `URIError` (addon.js:32-33), so the `map` throws and the catch (addon.js:69-72) makes the whole page `[]`. No other operation of these files sees the difference: `split`, `parseInt`, template text and truthiness treat such text as the model does.
- `extra` is always present in the addon.js handler. A missing `extra` would throw, and that is caught as an empty page.

## Findings

| source | as written | input that shows it | evidently intended | confidence | as-written member | corrected member |
|---|---|---|---|---|---|---|
| api/index.js:61-66 | `parseInt(req.query.skip) \|\| 0` lets a negative `skip` through; `slice(-1, 49)` takes the list's last entry, and it is tagged with index `-1` | `skip=-1` over a one-entry list | a negative `skip` is read as 0, so every served id names its real position and the meta path finds it | not executed | ShuffleApi.CatalogAsWritten, ShuffleApi.NegativeSkipBreaksLookup | ShuffleApi.Catalog, ShuffleApi.CatalogRoundTrip |
| addon.js:58-65 | `parseInt(extra.skip) \|\| 0` lets a negative `skip` through; `slice(-1, 99)` takes the last entry, and its description says shuffle position `skip + idx + 1 = 0` | `skip=-1` over a two-entry list | a negative `skip` is read as 0, so each description gives the entry's real 1-based position | not executed | ShuffleAddon.CatalogAsWritten, ShuffleAddon.NegativeSkipMislabelsPosition | ShuffleAddon.Catalog, ShuffleAddon.CatalogPositions |
