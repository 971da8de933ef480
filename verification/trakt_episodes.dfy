/**
 * The Trakt add-on (index.js): the seasons of a show without the specials,
 * the expansion of a Trakt list into one record per episode, the one-hour
 * cache in front of that expansion, the random pick the catalog serves and
 * the lookup of the meta handler.
 *
 * The network is not modelled: the list fetch is an input (`None` when it
 * fails), and so are the seasons of every show, keyed by Trakt id (a show
 * whose seasons request fails has no key). `Date.now()` is the input `now`.
 */
module TraktEpisodes {
  import opened Wrappers
  import opened JsText
  import EpisodeCode

  /** `show.ids`: the Trakt id and, when Trakt knows it, the IMDb id. */
  datatype ShowIds = ShowIds(trakt: int, imdb: Option<string>)

  datatype Show = Show(ids: ShowIds, title: string, year: Option<int>)

  /** An entry of a Trakt list; an entry that is not a show has no `show`. */
  datatype ListItem = ListItem(show: Option<Show>)

  datatype TraktEpisode = TraktEpisode(number: int, title: Option<string>)

  /** A season as Trakt sends it; `episodes` may be missing. Season 0 holds the specials. */
  datatype Season = Season(number: int, episodes: Option<seq<TraktEpisode>>)

  /** The record built for one episode; every episode of a show gets the show's id. */
  datatype EpisodeRecord = EpisodeRecord(
    id: string,
    name: string,
    poster: Option<string>,
    background: Option<string>,
    logo: Option<string>,
    releaseInfo: string,
    season: int,
    episode: int,
    showTitle: string,
    episodeTitle: Option<string>,
    year: Option<int>)

  /** The meta handler's answer: the record found, or a placeholder carrying the requested id. */
  datatype MetaResponse = Found(record: EpisodeRecord) | Placeholder(id: string)

  /** One hour, in milliseconds. */
  const CacheDuration: int := 3600000

  // ---------------------------------------------------------------------------
  // Seasons of a show

  /** `seasons.filter(season => season.number > 0)`. */
  function RegularSeasons(seasons: seq<Season>): (r: seq<Season>)
    ensures |r| <= |seasons|
  {
    if seasons == [] then []
    else
      var last := seasons[|seasons| - 1];
      RegularSeasons(seasons[..|seasons| - 1]) + (if last.number > 0 then [last] else [])
  }

  /** `getShowSeasons`: the seasons of a successful response without the specials, `[]` on a failed request. */
  function GetShowSeasons(response: Option<seq<Season>>): (r: seq<Season>)
    ensures response.None? ==> r == []
  {
    match response
    case None => []
    case Some(seasons) => RegularSeasons(seasons)
  }

  /** The filter keeps exactly the regular seasons: those with a number of at least 1. */
  lemma {:induction false} RegularSeasonsMembers(seasons: seq<Season>)
    ensures forall s :: s in RegularSeasons(seasons) <==> s in seasons && s.number > 0
    decreases |seasons|
  {
    if seasons != [] {
      var init := seasons[..|seasons| - 1];
      RegularSeasonsMembers(init);
      assert seasons == init + [seasons[|seasons| - 1]];
    }
  }

  /** The filter keeps the order of the seasons: it works piecewise on a concatenation. */
  lemma {:induction false} RegularSeasonsAppend(a: seq<Season>, b: seq<Season>)
    ensures RegularSeasons(a + b) == RegularSeasons(a) + RegularSeasons(b)
    decreases |b|
  {
    if b == [] {
      assert a + b == a;
    } else {
      var init := b[..|b| - 1];
      assert (a + b)[..|a + b| - 1] == a + init;
      RegularSeasonsAppend(a, init);
    }
  }

  /** A response without specials passes through unchanged. */
  lemma {:induction false} RegularSeasonsKeepsRegular(seasons: seq<Season>)
    requires forall i :: 0 <= i < |seasons| ==> seasons[i].number > 0
    ensures RegularSeasons(seasons) == seasons
  {
    if seasons != [] {
      var init := seasons[..|seasons| - 1];
      RegularSeasonsKeepsRegular(init);
      assert init + [seasons[|seasons| - 1]] == seasons;
    }
  }

  // ---------------------------------------------------------------------------
  // One record per episode

  const ArtworkHost: string := "https://images.metahub.space/"
  const ArtworkSize: string := "/medium/"
  const ArtworkSuffix: string := "/img"

  /** A picture from the artwork service, present exactly when the show has an IMDb id. */
  function Artwork(kind: string, imdb: Option<string>): Option<string> {
    if Truthy(imdb) then Some(ArtworkHost + kind + ArtworkSize + imdb.value + ArtworkSuffix)
    else None
  }

  /** Which episode a record is built for: the show, the season's number and the Trakt episode. */
  datatype EpisodeSource = EpisodeSource(show: Show, seasonNumber: int, episode: TraktEpisode)

  /** The id every record of a show carries: the IMDb id when truthy, else `trakt:` and the Trakt id. */
  function ShowRecordId(show: Show): string {
    if Truthy(show.ids.imdb) then show.ids.imdb.value else "trakt:" + IntToString(show.ids.trakt)
  }

  /** The object pushed for one episode of one season of a show. */
  function MakeRecord(source: EpisodeSource): (r: EpisodeRecord)
    ensures r.id == ShowRecordId(source.show)
    ensures r.poster.Some? == Truthy(source.show.ids.imdb)
    ensures r.background.Some? == Truthy(source.show.ids.imdb) && r.logo.Some? == Truthy(source.show.ids.imdb)
    ensures r.season == source.seasonNumber && r.episode == source.episode.number
    ensures r.showTitle == source.show.title
    ensures r.releaseInfo == EpisodeCode.Padded(source.seasonNumber, source.episode.number)
  {
    var show := source.show;
    var imdb := show.ids.imdb;
    EpisodeRecord(
      id := ShowRecordId(show),
      name := show.title,
      poster := Artwork("poster", imdb),
      background := Artwork("background", imdb),
      logo := Artwork("logo", imdb),
      releaseInfo := EpisodeCode.Padded(source.seasonNumber, source.episode.number),
      season := source.seasonNumber,
      episode := source.episode.number,
      showTitle := show.title,
      episodeTitle := source.episode.title,
      year := show.year)
  }

  /** The records for a sequence of sources, one each, in order. */
  function Records(sources: seq<EpisodeSource>): (r: seq<EpisodeRecord>)
    ensures |r| == |sources|
  {
    if sources == [] then []
    else Records(sources[..|sources| - 1]) + [MakeRecord(sources[|sources| - 1])]
  }

  /** Concatenation is associative. */
  lemma ConcatAssoc<T>(x: seq<T>, y: seq<T>, z: seq<T>)
    ensures (x + y) + z == x + (y + z)
  {
  }

  lemma RecordsPush(sources: seq<EpisodeSource>, source: EpisodeSource)
    ensures Records(sources + [source]) == Records(sources) + [MakeRecord(source)]
  {
    assert (sources + [source])[..|sources|] == sources;
  }

  lemma {:induction false} RecordsAppend(a: seq<EpisodeSource>, b: seq<EpisodeSource>)
    ensures Records(a + b) == Records(a) + Records(b)
    decreases |b|
  {
    if b == [] {
      assert a + b == a;
    } else {
      var init, last := b[..|b| - 1], b[|b| - 1];
      assert a + b == (a + init) + [last] && b == init + [last];
      RecordsPush(a + init, last);
      RecordsPush(init, last);
      RecordsAppend(a, init);
      ConcatAssoc(Records(a), Records(init), [MakeRecord(last)]);
    }
  }

  lemma {:induction false} RecordsAt(sources: seq<EpisodeSource>, k: nat)
    requires k < |sources|
    ensures Records(sources)[k] == MakeRecord(sources[k])
    decreases |sources|
  {
    if k < |sources| - 1 {
      RecordsAt(sources[..|sources| - 1], k);
    }
  }

  /** The episodes of one season, in order. */
  function EpisodeSources(show: Show, seasonNumber: int, episodes: seq<TraktEpisode>): (r: seq<EpisodeSource>)
    ensures |r| == |episodes|
  {
    if episodes == [] then []
    else
      EpisodeSources(show, seasonNumber, episodes[..|episodes| - 1])
      + [EpisodeSource(show, seasonNumber, episodes[|episodes| - 1])]
  }

  /** A season contributes its episodes only when `episodes` is present and non-empty. */
  function SeasonSources(show: Show, season: Season): seq<EpisodeSource> {
    if season.episodes.Some? && |season.episodes.value| > 0
    then EpisodeSources(show, season.number, season.episodes.value)
    else []
  }

  /** The episodes of the seasons of a show, season after season. */
  function ShowSources(show: Show, seasons: seq<Season>): seq<EpisodeSource> {
    if seasons == [] then []
    else ShowSources(show, seasons[..|seasons| - 1]) + SeasonSources(show, seasons[|seasons| - 1])
  }

  /** The seasons response for a show: absent when its request failed. */
  function SeasonsResponse(show: Show, fetched: map<int, seq<Season>>): Option<seq<Season>> {
    if show.ids.trakt in fetched then Some(fetched[show.ids.trakt]) else None
  }

  /** What one list item contributes: nothing when it is not a show. */
  function ItemSources(item: ListItem, fetched: map<int, seq<Season>>): seq<EpisodeSource> {
    match item.show
    case None => []
    case Some(show) => ShowSources(show, GetShowSeasons(SeasonsResponse(show, fetched)))
  }

  /** The episodes of a whole list, item after item. */
  function ListSources(items: seq<ListItem>, fetched: map<int, seq<Season>>): seq<EpisodeSource> {
    if items == [] then []
    else ListSources(items[..|items| - 1], fetched) + ItemSources(items[|items| - 1], fetched)
  }

  /** The list `getAllEpisodes` builds: one record per episode of the list's shows. */
  function Expand(items: seq<ListItem>, fetched: map<int, seq<Season>>): seq<EpisodeRecord> {
    Records(ListSources(items, fetched))
  }

  lemma EpisodeSourcesStep(show: Show, seasonNumber: int, episodes: seq<TraktEpisode>, k: nat)
    requires k < |episodes|
    ensures EpisodeSources(show, seasonNumber, episodes[..k + 1])
         == EpisodeSources(show, seasonNumber, episodes[..k]) + [EpisodeSource(show, seasonNumber, episodes[k])]
  {
    assert episodes[..k + 1][..k] == episodes[..k];
  }

  lemma RecordsPushOnto(all: seq<EpisodeRecord>, done: seq<EpisodeSource>, source: EpisodeSource)
    ensures all + Records(done + [source]) == (all + Records(done)) + [MakeRecord(source)]
  {
    RecordsPush(done, source);
  }

  lemma RecordsAppendOnto(all: seq<EpisodeRecord>, done: seq<EpisodeSource>, more: seq<EpisodeSource>)
    ensures all + Records(done + more) == (all + Records(done)) + Records(more)
  {
    RecordsAppend(done, more);
  }

  lemma ShowSourcesStep(show: Show, seasons: seq<Season>, j: nat)
    requires j < |seasons|
    ensures ShowSources(show, seasons[..j + 1]) == ShowSources(show, seasons[..j]) + SeasonSources(show, seasons[j])
  {
    assert seasons[..j + 1][..j] == seasons[..j];
  }

  lemma ListSourcesStep(items: seq<ListItem>, fetched: map<int, seq<Season>>, i: nat)
    requires i < |items|
    ensures ListSources(items[..i + 1], fetched) == ListSources(items[..i], fetched) + ItemSources(items[i], fetched)
  {
    assert items[..i + 1][..i] == items[..i];
  }

  /** The innermost `forEach`: one push per episode of a season, in order. */
  method PushEpisodes(all: seq<EpisodeRecord>, show: Show, seasonNumber: int, episodes: seq<TraktEpisode>)
    returns (out: seq<EpisodeRecord>)
    ensures out == all + Records(EpisodeSources(show, seasonNumber, episodes))
  {
    out := all;
    var k := 0;
    while k < |episodes|
      invariant 0 <= k <= |episodes|
      invariant out == all + Records(EpisodeSources(show, seasonNumber, episodes[..k]))
    {
      var source := EpisodeSource(show, seasonNumber, episodes[k]);
      EpisodeSourcesStep(show, seasonNumber, episodes, k);
      RecordsPushOnto(all, EpisodeSources(show, seasonNumber, episodes[..k]), source);
      var record := MakeRecord(source);
      out := out + [record];
      k := k + 1;
    }
    assert episodes[..k] == episodes;
  }

  /** The `forEach` over the seasons of one show. */
  method PushSeasons(all: seq<EpisodeRecord>, show: Show, seasons: seq<Season>) returns (out: seq<EpisodeRecord>)
    ensures out == all + Records(ShowSources(show, seasons))
  {
    out := all;
    var j := 0;
    while j < |seasons|
      invariant 0 <= j <= |seasons|
      invariant out == all + Records(ShowSources(show, seasons[..j]))
    {
      var season := seasons[j];
      ShowSourcesStep(show, seasons, j);
      RecordsAppendOnto(all, ShowSources(show, seasons[..j]), SeasonSources(show, season));
      if season.episodes.Some? && |season.episodes.value| > 0 {
        out := PushEpisodes(out, show, season.number, season.episodes.value);
      }
      j := j + 1;
    }
    assert seasons[..j] == seasons;
  }

  /** The `for...of` loop of `getAllEpisodes`: items without a show are skipped. */
  method CollectEpisodes(items: seq<ListItem>, fetched: map<int, seq<Season>>) returns (all: seq<EpisodeRecord>)
    ensures all == Expand(items, fetched)
  {
    all := [];
    var i := 0;
    while i < |items|
      invariant 0 <= i <= |items|
      invariant all == Records(ListSources(items[..i], fetched))
    {
      var item := items[i];
      ListSourcesStep(items, fetched, i);
      RecordsAppend(ListSources(items[..i], fetched), ItemSources(item, fetched));
      if item.show.Some? {
        var show := item.show.value;
        var seasons := GetShowSeasons(SeasonsResponse(show, fetched));
        all := PushSeasons(all, show, seasons);
      }
      i := i + 1;
    }
    assert items[..i] == items;
  }

  // ---------------------------------------------------------------------------
  // What the expansion guarantees

  lemma ListSourcesPush(items: seq<ListItem>, item: ListItem, fetched: map<int, seq<Season>>)
    ensures ListSources(items + [item], fetched) == ListSources(items, fetched) + ItemSources(item, fetched)
  {
    assert (items + [item])[..|items|] == items;
  }

  /** An item that is not a show, or a show whose seasons request failed, adds no record. */
  lemma SkippedItemAddsNothing(items: seq<ListItem>, item: ListItem, fetched: map<int, seq<Season>>)
    requires item.show.None? || item.show.value.ids.trakt !in fetched
    ensures Expand(items + [item], fetched) == Expand(items, fetched)
  {
    ListSourcesPush(items, item, fetched);
    assert ItemSources(item, fetched) == [];
    assert ListSources(items, fetched) + [] == ListSources(items, fetched);
  }

  lemma ShowSourcesLast(show: Show, seasons: seq<Season>)
    requires seasons != []
    ensures ShowSources(show, seasons)
         == ShowSources(show, seasons[..|seasons| - 1]) + SeasonSources(show, seasons[|seasons| - 1])
  {
  }

  lemma {:induction false} ShowSourcesAppend(show: Show, a: seq<Season>, b: seq<Season>)
    ensures ShowSources(show, a + b) == ShowSources(show, a) + ShowSources(show, b)
    decreases |b|
  {
    if b == [] {
      assert a + b == a;
    } else {
      var init, last := b[..|b| - 1], b[|b| - 1];
      assert (a + b)[..|a + b| - 1] == a + init && (a + b)[|a + b| - 1] == last;
      ShowSourcesLast(show, a + b);
      ShowSourcesLast(show, b);
      ShowSourcesAppend(show, a, init);
      ConcatAssoc(ShowSources(show, a), ShowSources(show, init), SeasonSources(show, last));
    }
  }

  /** The number of episodes in the regular seasons of a response; missing `episodes` count as none. */
  function ResponseEpisodeCount(seasons: seq<Season>): nat {
    if seasons == [] then 0
    else
      var s := seasons[|seasons| - 1];
      ResponseEpisodeCount(seasons[..|seasons| - 1]) + (if s.number > 0 && s.episodes.Some? then |s.episodes.value| else 0)
  }

  /** The number of episodes of the list's shows whose seasons were fetched. */
  function ListEpisodeCount(items: seq<ListItem>, fetched: map<int, seq<Season>>): nat {
    if items == [] then 0
    else
      var n := match items[|items| - 1].show
        case None => 0
        case Some(show) => if show.ids.trakt in fetched then ResponseEpisodeCount(fetched[show.ids.trakt]) else 0;
      ListEpisodeCount(items[..|items| - 1], fetched) + n
  }

  lemma {:induction false} ShowSourcesLength(show: Show, seasons: seq<Season>)
    ensures |ShowSources(show, RegularSeasons(seasons))| == ResponseEpisodeCount(seasons)
    decreases |seasons|
  {
    if seasons != [] {
      var init := seasons[..|seasons| - 1];
      var last := seasons[|seasons| - 1];
      ShowSourcesLength(show, init);
      var kept := if last.number > 0 then [last] else [];
      assert RegularSeasons(seasons) == RegularSeasons(init) + kept;
      ShowSourcesAppend(show, RegularSeasons(init), kept);
      if last.number > 0 {
        assert [last][..0] == [];
      }
    }
  }

  /** The expansion has exactly one record per episode of every fetched show in the list. */
  lemma {:induction false} ExpandLength(items: seq<ListItem>, fetched: map<int, seq<Season>>)
    ensures |Expand(items, fetched)| == ListEpisodeCount(items, fetched)
    decreases |items|
  {
    if items != [] {
      ExpandLength(items[..|items| - 1], fetched);
      match items[|items| - 1].show
      case None =>
      case Some(show) =>
        ShowSourcesLength(show, if show.ids.trakt in fetched then fetched[show.ids.trakt] else []);
    }
  }

  /** The list without the items of the show with Trakt id `trakt`. */
  function WithoutShow(items: seq<ListItem>, trakt: int): (r: seq<ListItem>)
    ensures |r| <= |items|
  {
    if items == [] then []
    else
      var last := items[|items| - 1];
      WithoutShow(items[..|items| - 1], trakt)
        + (if last.show.Some? && last.show.value.ids.trakt == trakt then [] else [last])
  }

  lemma {:induction false} FailedShowSourcesIsolated(items: seq<ListItem>, fetched: map<int, seq<Season>>, trakt: int)
    ensures ListSources(items, fetched - {trakt}) == ListSources(WithoutShow(items, trakt), fetched)
    decreases |items|
  {
    if items != [] {
      var init := items[..|items| - 1];
      var last := items[|items| - 1];
      FailedShowSourcesIsolated(init, fetched, trakt);
      var kept := WithoutShow(init, trakt);
      if last.show.Some? && last.show.value.ids.trakt == trakt {
        assert SeasonsResponse(last.show.value, fetched - {trakt}) == None;
        assert ItemSources(last, fetched - {trakt}) == [];
        assert WithoutShow(items, trakt) == kept + [];
        assert kept + [] == kept;
      } else {
        assert WithoutShow(items, trakt) == kept + [last];
        assert (kept + [last])[..|kept|] == kept;
        if last.show.Some? {
          assert SeasonsResponse(last.show.value, fetched - {trakt}) == SeasonsResponse(last.show.value, fetched);
        }
      }
    }
  }

  /**
   * Failure isolation: when the seasons request of one show fails, the result
   * is the expansion of the list without that show. Every other show's
   * episodes are all still collected, in the same order.
   */
  lemma FailedShowIsolated(items: seq<ListItem>, fetched: map<int, seq<Season>>, trakt: int)
    ensures Expand(items, fetched - {trakt}) == Expand(WithoutShow(items, trakt), fetched)
  {
    FailedShowSourcesIsolated(items, fetched, trakt);
  }

  lemma {:induction false} EpisodeSourcesSeason(show: Show, seasonNumber: int, episodes: seq<TraktEpisode>)
    ensures forall s :: s in EpisodeSources(show, seasonNumber, episodes) ==> s.seasonNumber == seasonNumber
    decreases |episodes|
  {
    if episodes != [] {
      EpisodeSourcesSeason(show, seasonNumber, episodes[..|episodes| - 1]);
    }
  }

  lemma {:induction false} ShowSourcesRegular(show: Show, seasons: seq<Season>)
    requires forall s :: s in seasons ==> s.number > 0
    ensures forall s :: s in ShowSources(show, seasons) ==> s.seasonNumber > 0
    decreases |seasons|
  {
    if seasons != [] {
      var last := seasons[|seasons| - 1];
      ShowSourcesRegular(show, seasons[..|seasons| - 1]);
      assert last in seasons;
      if last.episodes.Some? {
        EpisodeSourcesSeason(show, last.number, last.episodes.value);
      }
    }
  }

  lemma {:induction false} ListSourcesRegular(items: seq<ListItem>, fetched: map<int, seq<Season>>)
    ensures forall s :: s in ListSources(items, fetched) ==> s.seasonNumber > 0
    decreases |items|
  {
    if items != [] {
      ListSourcesRegular(items[..|items| - 1], fetched);
      var last := items[|items| - 1];
      if last.show.Some? {
        var show := last.show.value;
        if show.ids.trakt in fetched {
          RegularSeasonsMembers(fetched[show.ids.trakt]);
        }
        ShowSourcesRegular(show, GetShowSeasons(SeasonsResponse(show, fetched)));
      }
    }
  }

  /** No record comes from a special: every record's season number is at least 1. */
  lemma ExpandHasNoSpecials(items: seq<ListItem>, fetched: map<int, seq<Season>>)
    ensures forall k :: 0 <= k < |Expand(items, fetched)| ==> Expand(items, fetched)[k].season > 0
  {
    var sources := ListSources(items, fetched);
    ListSourcesRegular(items, fetched);
    forall k | 0 <= k < |sources|
      ensures Records(sources)[k].season > 0
    {
      RecordsAt(sources, k);
      assert sources[k] in sources;
    }
  }

  // ---------------------------------------------------------------------------
  // The cache

  /**
   * The freshness test of `getAllEpisodes`: not forced, a cache present (an
   * empty array is truthy), a truthy (non-zero) timestamp, less than an hour old.
   */
  predicate UsesCache(cache: Option<seq<EpisodeRecord>>, timestamp: Option<int>, forceRefresh: bool, now: int) {
    !forceRefresh && cache.Some? && timestamp.Some? && timestamp.value != 0
    && now - timestamp.value < CacheDuration
  }

  /** Whether `getAllEpisodes` rebuilds and stores the list: the cache is not used and the list fetch gave items. */
  predicate Refreshes(
    cache: Option<seq<EpisodeRecord>>, timestamp: Option<int>, forceRefresh: bool, now: int,
    listItems: Option<seq<ListItem>>)
  {
    !UsesCache(cache, timestamp, forceRefresh, now) && listItems.Some? && listItems.value != []
  }

  /** What `getAllEpisodes` returns: the cache, `[]` for a failed or empty list fetch, else the expansion. */
  function AllEpisodesResult(
    cache: Option<seq<EpisodeRecord>>, timestamp: Option<int>, forceRefresh: bool, now: int,
    listItems: Option<seq<ListItem>>, fetched: map<int, seq<Season>>): seq<EpisodeRecord>
  {
    if UsesCache(cache, timestamp, forceRefresh, now) then cache.value
    else if listItems.None? || listItems.value == [] then []
    else Expand(listItems.value, fetched)
  }

  /**
   * A list stored at a non-zero time `stored` is served as it is, whatever
   * Trakt would answer, to every unforced call less than an hour later; a
   * forced call, or one an hour or more later, reads Trakt again.
   */
  lemma CachedListServedForAnHour(
    stored: int, list: seq<EpisodeRecord>, forceRefresh: bool, now: int,
    listItems: Option<seq<ListItem>>, fetched: map<int, seq<Season>>)
    requires stored != 0
    ensures !forceRefresh && now - stored < CacheDuration ==>
      AllEpisodesResult(Some(list), Some(stored), forceRefresh, now, listItems, fetched) == list
    ensures forceRefresh || now - stored >= CacheDuration ==>
      !UsesCache(Some(list), Some(stored), forceRefresh, now)
  {
  }

  /** The module-level `episodesCache` and `cacheTimestamp` of index.js. */
  class EpisodeCache {
    var episodesCache: Option<seq<EpisodeRecord>>
    var cacheTimestamp: Option<int>

    constructor ()
      ensures episodesCache == None && cacheTimestamp == None
    {
      episodesCache := None;
      cacheTimestamp := None;
    }

    /**
     * `getAllEpisodes(forceRefresh)`: serve the cache while fresh; otherwise
     * fetch, and store list and time only after a pass over a non-empty list.
     * A failed or empty list fetch returns `[]` and keeps the cache as it was.
     */
    method GetAllEpisodes(
      forceRefresh: bool, now: int, listItems: Option<seq<ListItem>>, fetched: map<int, seq<Season>>)
      returns (episodes: seq<EpisodeRecord>)
      modifies this
      ensures episodes == AllEpisodesResult(old(episodesCache), old(cacheTimestamp), forceRefresh, now, listItems, fetched)
      ensures Refreshes(old(episodesCache), old(cacheTimestamp), forceRefresh, now, listItems) ==>
        episodesCache == Some(episodes) && cacheTimestamp == Some(now)
      ensures !Refreshes(old(episodesCache), old(cacheTimestamp), forceRefresh, now, listItems) ==>
        episodesCache == old(episodesCache) && cacheTimestamp == old(cacheTimestamp)
    {
      if !forceRefresh && episodesCache.Some? && cacheTimestamp.Some? && cacheTimestamp.value != 0
        && now - cacheTimestamp.value < CacheDuration
      {
        return episodesCache.value;
      }
      if listItems.None? {
        return [];
      }
      if |listItems.value| == 0 {
        return [];
      }
      episodes := CollectEpisodes(listItems.value, fetched);
      episodesCache := Some(episodes);
      cacheTimestamp := Some(now);
    }

    /** The meta handler: the first record (of the list `getAllEpisodes` gives) whose id is `id`. */
    method Meta(id: string, now: int, listItems: Option<seq<ListItem>>, fetched: map<int, seq<Season>>)
      returns (response: MetaResponse)
      modifies this
      ensures response == MetaFor(id, AllEpisodesResult(old(episodesCache), old(cacheTimestamp), false, now, listItems, fetched))
      ensures Refreshes(old(episodesCache), old(cacheTimestamp), false, now, listItems) ==>
        episodesCache == Some(AllEpisodesResult(old(episodesCache), old(cacheTimestamp), false, now, listItems, fetched))
        && cacheTimestamp == Some(now)
      ensures !Refreshes(old(episodesCache), old(cacheTimestamp), false, now, listItems) ==>
        episodesCache == old(episodesCache) && cacheTimestamp == old(cacheTimestamp)
    {
      var episodes := GetAllEpisodes(false, now, listItems, fetched);
      response := MetaFor(id, episodes);
    }
  }

  /** Two unforced calls less than an hour apart, with a successful first pass, give the same list. */
  method RepeatedReadsAgree(
    cache: EpisodeCache, first: int, second: int,
    items: seq<ListItem>, fetched: map<int, seq<Season>>,
    laterItems: Option<seq<ListItem>>, laterFetched: map<int, seq<Season>>)
    returns (a: seq<EpisodeRecord>, b: seq<EpisodeRecord>)
    requires first != 0 && first <= second < first + CacheDuration && items != []
    modifies cache
    ensures a == b == Expand(items, fetched)
  {
    a := cache.GetAllEpisodes(true, first, Some(items), fetched);
    b := cache.GetAllEpisodes(false, second, laterItems, laterFetched);
  }

  // ---------------------------------------------------------------------------
  // The random pick and the lookup

  /**
   * `getRandomEpisodes(all, count)`: copy, reorder, keep the first `count`.
   * The order `Math.random` produces is the input `shuffled`, any
   * rearrangement of `all`.
   */
  function RandomEpisodes<T>(all: seq<T>, count: int, shuffled: seq<T>): (r: seq<T>)
    requires multiset(shuffled) == multiset(all)
    ensures |r| <= |shuffled|
    ensures count >= 0 ==> |r| == Min(count, |all|)
    ensures multiset(r) <= multiset(all)
    ensures r == shuffled[..|r|]
  {
    assert |shuffled| == |multiset(shuffled)| == |all|;
    var r := Slice(shuffled, 0, count);
    assert shuffled == r + shuffled[|r|..];
    r
  }

  /** `findIndex(ep => ep.id === id)`: the first position holding that id. */
  function FirstWithId(all: seq<EpisodeRecord>, id: string): (k: Option<nat>)
    ensures k.Some? ==> k.value < |all| && all[k.value].id == id
    ensures k.Some? ==> forall j :: 0 <= j < k.value ==> all[j].id != id
    ensures k.None? ==> forall j :: 0 <= j < |all| ==> all[j].id != id
  {
    if all == [] then None
    else if all[0].id == id then Some(0)
    else match FirstWithId(all[1..], id)
      case None => None
      case Some(k) => Some(k + 1)
  }

  /** The meta handler's answer for `id` over the list `all`. */
  function MetaFor(id: string, all: seq<EpisodeRecord>): MetaResponse {
    match FirstWithId(all, id)
    case None => Placeholder(id)
    case Some(k) => Found(all[k])
  }

  /** When `first` is the first position holding the id of position `later`, the meta for that id is record `first`. */
  lemma FirstOfSharedId(all: seq<EpisodeRecord>, first: nat, later: nat)
    requires first <= later < |all| && all[first].id == all[later].id
    requires forall j :: 0 <= j < first ==> all[j].id != all[first].id
    ensures MetaFor(all[later].id, all) == Found(all[first])
  {
  }

  /** All episodes of a show share one id: two records built for the same show carry the same id. */
  lemma SameShowSameId(a: EpisodeSource, b: EpisodeSource)
    requires a.show == b.show
    ensures MakeRecord(a).id == MakeRecord(b).id == ShowRecordId(a.show)
  {
  }

  /**
   * Over the records of a sequence of episodes, the meta of any episode is
   * the record of the first episode of its show, unless an earlier show
   * carries the same id.
   */
  lemma MetaOfRecordIsFirstOfShow(sources: seq<EpisodeSource>, first: nat, later: nat)
    requires first <= later < |sources| && sources[first].show == sources[later].show
    requires forall j :: 0 <= j < first ==> ShowRecordId(sources[j].show) != ShowRecordId(sources[first].show)
    ensures var all := Records(sources);
      first <= later < |all| && MetaFor(all[later].id, all) == Found(all[first])
  {
    var all := Records(sources);
    RecordsAt(sources, first);
    RecordsAt(sources, later);
    SameShowSameId(sources[first], sources[later]);
    forall j | 0 <= j < first
      ensures all[j].id != all[first].id
    {
      RecordsAt(sources, j);
      SameShowSameId(sources[j], sources[j]);
    }
    FirstOfSharedId(all, first, later);
  }

  /** The same over the list `getAllEpisodes` builds. */
  lemma MetaOfEpisodeIsFirstOfShow(items: seq<ListItem>, fetched: map<int, seq<Season>>, first: nat, later: nat)
    requires var sources := ListSources(items, fetched);
      first <= later < |sources| && sources[first].show == sources[later].show
      && forall j :: 0 <= j < first ==> ShowRecordId(sources[j].show) != ShowRecordId(sources[first].show)
    ensures var all := Expand(items, fetched);
      first <= later < |all| && MetaFor(all[later].id, all) == Found(all[first])
  {
    MetaOfRecordIsFirstOfShow(ListSources(items, fetched), first, later);
  }
}
