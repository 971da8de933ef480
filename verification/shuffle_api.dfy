/**
 * The serverless entry point api/index.js: the paged catalog over the
 * shuffled list and the meta lookup by the composite id
 * `imdb:season:episode:index`.
 *
 * The shuffled list is an input (where it comes from is not part of these
 * files). The routing on the request path is not modelled: the catalog takes
 * the `skip` query value, the meta path takes the id with `.json` removed.
 */
module ShuffleApi {
  import opened Wrappers
  import opened JsText
  import opened StoredEpisodes

  /** The catalog's page size. */
  const PageSize: int := 50

  const NoPoster: string := "https://via.placeholder.com/300x450?text=No+Poster"
  const FromPrefix: string := "A random episode from "
  const EpisodePrefix: string := "Episode "

  /**
   * The single video of a meta. `released` is `None` where the source puts
   * the time of the request (`firstAired` missing or empty).
   */
  datatype Video = Video(
    id: string,
    title: string,
    season: int,
    episode: int,
    released: Option<string>,
    overview: string,
    thumbnail: Option<string>)

  datatype Meta = Meta(
    id: string,
    name: string,
    poster: string,
    background: Option<string>,
    description: string,
    releaseInfo: Option<string>,
    videos: seq<Video>)

  // ---------------------------------------------------------------------------
  // The composite id

  /** `${imdb}:${season}:${episode}:${index}`. */
  function MetaId(imdb: string, season: int, episode: int, index: int): string {
    imdb + ":" + IntToString(season) + ":" + IntToString(episode) + ":" + IntToString(index)
  }

  /** `const [showId, season, episode, index] = id.split(':')`, with the numbers through `parseInt`. */
  datatype MetaKey = MetaKey(showId: string, season: Option<int>, episode: Option<int>, index: Option<int>)

  /** Part `k` of a split, `undefined` (`None`) past the end. */
  function Part(parts: seq<string>, k: nat): Option<string> {
    if k < |parts| then Some(parts[k]) else None
  }

  /** `parseInt` of a part that may be missing: `parseInt(undefined)` is `NaN`. */
  function ParsePart(part: Option<string>): Option<int> {
    match part
    case None => None
    case Some(text) => ParseInt(text)
  }

  function ParseMetaId(id: string): MetaKey {
    var parts := Split(id, ':');
    MetaKey(parts[0], ParsePart(Part(parts, 1)), ParsePart(Part(parts, 2)), ParsePart(Part(parts, 3)))
  }

  /** Round trip: an id built from an IMDb id without `:` reads back to its four components. */
  lemma MetaIdRoundTrip(imdb: string, season: int, episode: int, index: int)
    requires ':' !in imdb
    ensures ParseMetaId(MetaId(imdb, season, episode, index)) == MetaKey(imdb, Some(season), Some(episode), Some(index))
  {
    var s, e, i := IntToString(season), IntToString(episode), IntToString(index);
    IntToStringHasNo(season, ':');
    IntToStringHasNo(episode, ':');
    IntToStringHasNo(index, ':');
    assert MetaId(imdb, season, episode, index) == imdb + [':'] + (s + [':'] + (e + [':'] + i));
    SplitAtFirstSeparator(imdb, ':', s + [':'] + (e + [':'] + i));
    SplitAtFirstSeparator(s, ':', e + [':'] + i);
    SplitAtFirstSeparator(e, ':', i);
    SplitWithoutSeparator(i, ':');
    ParseIntOfIntToString(season);
    ParseIntOfIntToString(episode);
    ParseIntOfIntToString(index);
  }

  // ---------------------------------------------------------------------------
  // `episodeToMeta`

  /** The guard of `episodeToMeta`: an entry with `ids`, `showIds` and a non-empty `showIds.imdb`. */
  predicate Presentable(entry: Entry) {
    entry.Some? && entry.value.ids.Some? && entry.value.showIds.Some? && Truthy(entry.value.showIds.value.imdb)
  }

  /** The IMDb id of the show of a presentable entry. */
  function ShowImdb(entry: Entry): string
    requires Presentable(entry)
  {
    entry.value.showIds.value.imdb.value
  }

  /** `episodeToMeta(episode, index)`: `null` exactly for an entry that fails the guard. */
  function EpisodeToMeta(entry: Entry, index: int): (r: Option<Meta>)
    ensures r.Some? <==> Presentable(entry)
  {
    if !Presentable(entry) then None
    else
      var ep := entry.value;
      var id := MetaId(ShowImdb(entry), ep.season, ep.episode, index);
      var video := Video(
        id := id,
        title := OrString(ep.title, EpisodePrefix + IntToString(ep.episode)),
        season := ep.season,
        episode := ep.episode,
        released := if Truthy(ep.firstAired) then ep.firstAired else None,
        overview := OrString(ep.overview, ""),
        thumbnail := OrOption(ep.thumbnail, ep.showPoster));
      Some(Meta(
        id := id,
        name := ep.showTitle,
        poster := OrString(ep.showPoster, NoPoster),
        background := OrOption(ep.showFanart, ep.showPoster),
        description := OrString(ep.showOverview, FromPrefix + ep.showTitle),
        releaseInfo := match ep.year case None => None case Some(y) => Some(IntToString(y)),
        videos := [video]))
  }

  /** A meta is named by the composite id, and its one video carries the same id, season and episode. */
  lemma MetaNamedByCompositeId(entry: Entry, index: int)
    requires Presentable(entry)
    ensures var m := EpisodeToMeta(entry, index).value;
      m.id == MetaId(ShowImdb(entry), entry.value.season, entry.value.episode, index)
      && |m.videos| == 1 && m.videos[0].id == m.id
      && m.videos[0].season == entry.value.season && m.videos[0].episode == entry.value.episode
  {
  }

  /**
   * The fallbacks: the poster is the show's poster, else the placeholder; the
   * background is the fanart, else the poster; the description is the show's
   * overview, else a sentence naming the show; `releaseInfo` is the year as
   * text when there is one. The video's title is the episode title, else
   * `Episode ` and its number; its overview is the episode overview, else
   * empty; its thumbnail is the episode thumbnail, else the show poster.
   */
  lemma MetaFallbacks(entry: Entry, index: int)
    requires Presentable(entry)
    ensures var m := EpisodeToMeta(entry, index).value;
      var ep := entry.value;
      m.poster == (if Truthy(ep.showPoster) then ep.showPoster.value else NoPoster)
      && m.background == (if Truthy(ep.showFanart) then ep.showFanart else ep.showPoster)
      && m.description == (if Truthy(ep.showOverview) then ep.showOverview.value else FromPrefix + ep.showTitle)
      && (ep.year.Some? ==> m.releaseInfo == Some(IntToString(ep.year.value)))
      && (ep.year.None? ==> m.releaseInfo == None)
      && |m.videos| == 1
      && m.videos[0].title == (if Truthy(ep.title) then ep.title.value else EpisodePrefix + IntToString(ep.episode))
      && m.videos[0].overview == (if Truthy(ep.overview) then ep.overview.value else "")
      && m.videos[0].thumbnail == (if Truthy(ep.thumbnail) then ep.thumbnail else ep.showPoster)
      && |m.poster| > 0 && |m.description| > 0 && |m.videos[0].title| > 0
  {
  }


  // ---------------------------------------------------------------------------
  // The catalog path

  /** `page.map((ep, idx) => episodeToMeta(ep, base + idx))`. */
  function Tagged(page: seq<Entry>, base: int): (r: seq<Option<Meta>>)
    ensures |r| == |page|
  {
    if page == [] then []
    else Tagged(page[..|page| - 1], base) + [EpisodeToMeta(page[|page| - 1], base + |page| - 1)]
  }

  /** Entry `i` of the page is converted with the absolute index `base + i`. */
  lemma {:induction false} TaggedAt(page: seq<Entry>, base: int, i: nat)
    requires i < |page|
    ensures Tagged(page, base)[i] == EpisodeToMeta(page[i], base + i)
    decreases |page|
  {
    if i < |page| - 1 {
      TaggedAt(page[..|page| - 1], base, i);
    }
  }

  /** `page.map((ep, idx) => episodeToMeta(ep, base + idx)).filter(Boolean)`. */
  function PageMetas(page: seq<Entry>, base: int): (r: seq<Meta>)
    ensures |r| <= |page|
  {
    FilterPresent(Tagged(page, base))
  }

  /** Meta `k` of a page is the meta of the page's entry `PresentIndices(...)[k]`, built with its absolute index. */
  lemma PageMetaAt(page: seq<Entry>, base: int, k: nat)
    requires k < |PresentIndices(Tagged(page, base))|
    ensures var i := PresentIndices(Tagged(page, base))[k];
      k < |PageMetas(page, base)| && i < |page|
      && EpisodeToMeta(page[i], base + i) == Some(PageMetas(page, base)[k])
  {
    var tagged := Tagged(page, base);
    var metas := PageMetas(page, base);
    assert metas == FilterPresent(tagged);
    var i := PresentIndices(tagged)[k];
    FilterPresentAt(tagged, k);
    assert k < |metas|;
    TaggedAt(page, base, i);
  }

  /** The filter keeps order: one position per meta, and the positions increase. */
  lemma PageKeepsOrder(page: seq<Entry>, base: int)
    ensures |PresentIndices(Tagged(page, base))| == |PageMetas(page, base)|
    ensures var kept := PresentIndices(Tagged(page, base));
      forall k, l :: 0 <= k < l < |kept| ==> kept[k] < kept[l]
  {
    var tagged := Tagged(page, base);
    var metas := PageMetas(page, base);
    assert metas == FilterPresent(tagged);
    FilterPresentPositions(tagged);
  }

  /** Every presentable entry of the page gives a meta. */
  lemma PageKeepsPresentable(page: seq<Entry>, base: int, i: nat)
    requires i < |page| && Presentable(page[i])
    ensures i in PresentIndices(Tagged(page, base))
  {
    var tagged := Tagged(page, base);
    TaggedAt(page, base, i);
    FilterPresentPositions(tagged);
  }

  /** Without invalid entries nothing is filtered: meta `i` is the meta of entry `i`, tagged `base + i`. */
  lemma PageMetasAllPresentable(page: seq<Entry>, base: int)
    requires forall i :: 0 <= i < |page| ==> Presentable(page[i])
    ensures |PageMetas(page, base)| == |page|
    ensures forall i :: 0 <= i < |page| ==> Some(PageMetas(page, base)[i]) == EpisodeToMeta(page[i], base + i)
  {
    var tagged := Tagged(page, base);
    var metas := PageMetas(page, base);
    assert metas == FilterPresent(tagged);
    forall i | 0 <= i < |page|
      ensures tagged[i].Some?
    {
      TaggedAt(page, base, i);
    }
    FilterPresentAllSome(tagged);
    forall i | 0 <= i < |page|
      ensures Some(PageMetas(page, base)[i]) == EpisodeToMeta(page[i], base + i)
    {
      TaggedAt(page, base, i);
    }
  }

  /** A catalog page: the metas of `all.slice(skip, skip + 50)`, tagged from `skip`. */
  function CatalogPage(all: seq<Entry>, skip: int): seq<Meta> {
    PageMetas(Slice(all, skip, skip + PageSize), skip)
  }

  /** The catalog path as written: `skip` is `parseInt(req.query.skip) || 0`, negative values included. */
  function CatalogAsWritten(all: seq<Entry>, skipParam: Option<string>): seq<Meta> {
    CatalogPage(all, ParseIntOrZero(skipParam))
  }

  /** The catalog path with a negative `skip` read as 0. */
  function Catalog(all: seq<Entry>, skipParam: Option<string>): seq<Meta> {
    CatalogPage(all, CatalogSkip(skipParam))
  }

  /**
   * A page holds at most 50 metas, none once `skip` reaches the end of the
   * list; a missing or non-numeric `skip` gives the first page.
   */
  lemma CatalogBounds(all: seq<Entry>, skipParam: Option<string>)
    ensures |Catalog(all, skipParam)| <= PageSize
    ensures |CatalogAsWritten(all, skipParam)| <= PageSize
    ensures ParseIntOrZero(skipParam) >= |all| ==> Catalog(all, skipParam) == []
    ensures skipParam.None? || ParseInt(skipParam.value).None? ==> Catalog(all, skipParam) == CatalogPage(all, 0)
  {
    PageBounds(all, CatalogSkip(skipParam), PageSize);
    SliceLen(all, ParseIntOrZero(skipParam), PageSize);
  }

  /** For every `skip` the source is meant to receive (none, or not negative), the two catalogs agree. */
  lemma CatalogAgreesWhenNotNegative(all: seq<Entry>, skipParam: Option<string>)
    requires ParseIntOrZero(skipParam) >= 0
    ensures Catalog(all, skipParam) == CatalogAsWritten(all, skipParam)
  {
  }

  // ---------------------------------------------------------------------------
  // The meta path

  /** The `find` predicate: show, season, episode and position all match the id. */
  predicate Matches(ep: StoredEpisode, position: int, key: MetaKey) {
    ep.showIds.Some? && ep.showIds.value.imdb == Some(key.showId)
    && key.season == Some(ep.season) && key.episode == Some(ep.episode) && key.index == Some(position)
  }

  /** How `find` ends: at a matching position, past the end, or by throwing on a `null` entry. */
  datatype Search = Hit(position: nat) | Miss | Threw

  /** `all.find(...)` from position `i` on. */
  function FindFrom(all: seq<Entry>, key: MetaKey, i: nat): (s: Search)
    requires i <= |all|
    ensures s.Hit? ==> i <= s.position < |all| && all[s.position].Some? && Matches(all[s.position].value, s.position, key)
    decreases |all| - i
  {
    if i == |all| then Miss
    else if all[i].None? then Threw
    else if Matches(all[i].value, i, key) then Hit(i)
    else FindFrom(all, key, i + 1)
  }

  /** The meta path's answer: `{ meta }` (which may be `null`) with 200, or the 404 not-found. */
  datatype Lookup = Found(meta: Option<Meta>) | NotFound

  /** The meta path for the id `id`; an empty id is not looked up. */
  function MetaLookup(all: seq<Entry>, id: string): Lookup {
    if |id| == 0 then NotFound
    else
      var key := ParseMetaId(id);
      match FindFrom(all, key, 0)
      case Hit(p) => Found(EpisodeToMeta(all[p], key.index.value))
      case _ => NotFound
  }

  lemma {:induction false} FindFromReaches(all: seq<Entry>, key: MetaKey, i: nat, p: nat)
    requires i <= p < |all|
    requires forall j :: i <= j <= p ==> all[j].Some?
    requires forall j :: i <= j < p ==> !Matches(all[j].value, j, key)
    requires Matches(all[p].value, p, key)
    ensures FindFrom(all, key, i) == Hit(p)
    decreases p - i
  {
    if i < p {
      FindFromReaches(all, key, i + 1, p);
    }
  }

  /**
   * A lookup succeeds only at the position the id names, on an entry that
   * matches show, season and episode too; the answer is that entry's meta.
   */
  lemma LookupOnlyAtNamedPosition(all: seq<Entry>, id: string)
    requires MetaLookup(all, id).Found?
    ensures |id| > 0 && ParseMetaId(id).index.Some?
    ensures var p := ParseMetaId(id).index.value;
      0 <= p < |all| && all[p].Some? && Matches(all[p].value, p, ParseMetaId(id))
      && MetaLookup(all, id) == Found(EpisodeToMeta(all[p], p))
  {
  }

  /**
   * With no `null` entry up to the named position, the lookup succeeds
   * exactly when the entry there matches the id.
   */
  lemma LookupAtPosition(all: seq<Entry>, id: string, p: nat)
    requires |id| > 0 && ParseMetaId(id).index == Some(p) && p < |all|
    requires forall j :: 0 <= j <= p ==> all[j].Some?
    ensures MetaLookup(all, id).Found? <==> Matches(all[p].value, p, ParseMetaId(id))
  {
    var key := ParseMetaId(id);
    if Matches(all[p].value, p, key) {
      FindFromReaches(all, key, 0, p);
    }
  }

  /**
   * What the round trip needs of meta `k` of the page at `skip`: the list has
   * no `null` entry up to the meta's position, and the show's IMDb id has no `:`.
   */
  predicate RoundTripReady(all: seq<Entry>, skip: nat, k: nat) {
    var kept := PresentIndices(Tagged(Slice(all, skip, skip + PageSize), skip));
    k < |kept|
    && var p := skip + kept[k];
    p < |all| && (forall j :: 0 <= j <= p ==> all[j].Some?) && Presentable(all[p]) && ':' !in ShowImdb(all[p])
  }

  /**
   * The meta built for the entry at position `p`, with index `p`, is what the
   * meta path answers for its id, when no entry up to `p` is `null` and the
   * show's IMDb id has no `:`.
   */
  lemma LookupOfOwnId(all: seq<Entry>, p: nat, meta: Meta)
    requires p < |all| && (forall j :: 0 <= j <= p ==> all[j].Some?)
    requires Presentable(all[p]) && ':' !in ShowImdb(all[p])
    requires EpisodeToMeta(all[p], p) == Some(meta)
    ensures MetaLookup(all, meta.id) == Found(Some(meta))
  {
    var ep := all[p].value;
    MetaNamedByCompositeId(all[p], p);
    MetaIdRoundTrip(ShowImdb(all[p]), ep.season, ep.episode, p);
    var key := ParseMetaId(meta.id);
    assert key == MetaKey(ShowImdb(all[p]), Some(ep.season), Some(ep.episode), Some(p));
    FindFromReaches(all, key, 0, p);
  }

  /** Entry `i` of the page at `skip` is entry `skip + i` of the list. */
  lemma PageEntry(all: seq<Entry>, skip: nat, i: nat)
    requires i < |Slice(all, skip, skip + PageSize)|
    ensures skip + i < |all| && Slice(all, skip, skip + PageSize)[i] == all[skip + i]
  {
    PageBounds(all, skip, PageSize);
  }

  /** Round trip: on a page with a non-negative `skip`, the id of meta `k` looks up that very meta. */
  lemma CatalogLookupRoundTrip(all: seq<Entry>, skip: nat, k: nat)
    requires RoundTripReady(all, skip, k)
    ensures k < |CatalogPage(all, skip)|
    ensures MetaLookup(all, CatalogPage(all, skip)[k].id) == Found(Some(CatalogPage(all, skip)[k]))
  {
    var page := Slice(all, skip, skip + PageSize);
    assert CatalogPage(all, skip) == PageMetas(page, skip);
    PageMetaAt(page, skip, k);
    var i := PresentIndices(Tagged(page, skip))[k];
    PageEntry(all, skip, i);
    var meta := PageMetas(page, skip)[k];
    assert EpisodeToMeta(all[skip + i], skip + i) == Some(meta);
    LookupOfOwnId(all, skip + i, meta);
  }

  /** The round trip holds on every page the catalog path serves once a negative `skip` is read as 0. */
  lemma CatalogRoundTrip(all: seq<Entry>, skipParam: Option<string>, k: nat)
    requires RoundTripReady(all, CatalogSkip(skipParam), k)
    ensures k < |Catalog(all, skipParam)|
    ensures MetaLookup(all, Catalog(all, skipParam)[k].id) == Found(Some(Catalog(all, skipParam)[k]))
  {
    CatalogLookupRoundTrip(all, CatalogSkip(skipParam), k);
  }

  /** A presentable entry of IMDb id `tt1`, season 1, episode 2. */
  const Sample: StoredEpisode := StoredEpisode(
    Some(EpisodeIds(1, Some("tt1"))), Some(ShowIds(Some("tt1"))), 1, 2,
    None, None, "Show", None, None, None, None, None, None, None)

  /** As written, `?skip=-1` over a one-entry list serves that entry, tagged with index -1. */
  lemma NegativeSkipPage()
    ensures CatalogAsWritten([Some(Sample)], Some("-1")) == [EpisodeToMeta(Some(Sample), -1).value]
  {
    SkipOfMinusOne();
    var all := [Some(Sample)];
    assert Slice(all, -1, -1 + PageSize) == all;
    assert CatalogAsWritten(all, Some("-1")) == PageMetas(all, -1);
    PageMetasAllPresentable(all, -1);
  }

  /**
   * As written, `?skip=-1` over a one-entry list serves a meta whose id the
   * meta path answers with 404: the id names position -1.
   */
  lemma NegativeSkipBreaksLookup()
    ensures |CatalogAsWritten([Some(Sample)], Some("-1"))| == 1
    ensures MetaLookup([Some(Sample)], CatalogAsWritten([Some(Sample)], Some("-1"))[0].id) == NotFound
  {
    NegativeSkipPage();
    var all := [Some(Sample)];
    var meta := EpisodeToMeta(Some(Sample), -1).value;
    MetaNamedByCompositeId(Some(Sample), -1);
    MetaIdRoundTrip("tt1", 1, 2, -1);
    var key := ParseMetaId(meta.id);
    assert key.index == Some(-1);
    assert !Matches(Sample, 0, key);
    assert FindFrom(all, key, 1) == Miss;
  }
}
