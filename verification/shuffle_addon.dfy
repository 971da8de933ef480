/**
 * The add-on handler addon.js: the catalog over the shuffled list kept in
 * the key-value store, 100 episodes a page, one meta per stored episode.
 *
 * The store read is an input: it fails, finds nothing, or finds the list.
 */
module ShuffleAddon {
  import opened Wrappers
  import opened JsText
  import opened StoredEpisodes
  import EpisodeCode

  /** The catalog's page size. */
  const PageSize: int := 100

  const CatalogType: string := "series"
  const CatalogId: string := "shuffled-episodes"
  const PosterBase: string := "https://via.placeholder.com/300x450/1a1a2e/16213e?text="
  const BackgroundBase: string := "https://via.placeholder.com/1920x1080/1a1a2e/16213e?text="
  const ShowMark: string := "\n\n\U{1F4FA} "
  const PositionLabel: string := ")\n\U{1F3B2} Shuffle Position"
  const Genres: seq<string> := ["Comedy", "Sitcom"]

  datatype AddonMeta = AddonMeta(
    id: string,
    name: string,
    poster: string,
    background: string,
    description: string,
    releaseInfo: string,
    genres: seq<string>)

  /** `kv.get('shuffled-episodes')`: it throws, finds nothing, or finds a list. */
  datatype StoreRead = ReadFailed | Absent | Stored(list: seq<Entry>)

  /** `${s}` of a text that may be missing: a missing value prints as `undefined`. */
  function TemplateText(s: Option<string>): string {
    match s
    case None => "undefined"
    case Some(t) => t
  }

  /** `${n}` of a number that may be missing. */
  function TemplateNumber(n: Option<int>): string {
    match n
    case None => "undefined"
    case Some(v) => IntToString(v)
  }

  /** `tt` and the episode's IMDb id, or its Trakt id when the IMDb id is missing or empty. */
  function AddonId(ids: EpisodeIds): (id: string)
    ensures |id| >= 2 && id[..2] == "tt"
    ensures id == "tt" + (if Truthy(ids.imdb) then ids.imdb.value else IntToString(ids.trakt))
  {
    "tt" + if Truthy(ids.imdb) then ids.imdb.value else IntToString(ids.trakt)
  }

  /** The description up to the `:` that precedes the position. */
  function DescriptionHead(ep: StoredEpisode): string {
    TemplateText(ep.title) + "\n\n" + TemplateText(ep.overview) + ShowMark + ep.showTitle
    + " (" + TemplateNumber(ep.showYear) + PositionLabel
  }

  /** The description; its last line carries the 1-based position `index + 1`. */
  function Description(ep: StoredEpisode, index: int): string {
    DescriptionHead(ep) + ": " + IntToString(index + 1)
  }

  /** The name: the show title and the zero-padded `SxxEyy` code. */
  function Name(ep: StoredEpisode): string {
    ep.showTitle + " - " + EpisodeCode.Padded(ep.season, ep.episode)
  }

  /** An entry `episodeToMeta` can convert: not `null`, and with `ids` (anything else throws). */
  predicate Convertible(entry: Entry) {
    entry.Some? && entry.value.ids.Some?
  }

  /** `episodeToMeta(episode, index)`: `None` where reading `episode.ids.imdb` throws. */
  function EpisodeToMeta(entry: Entry, index: int): (r: Option<AddonMeta>)
    ensures r.Some? <==> Convertible(entry)
  {
    if !Convertible(entry) then None
    else
      var ep := entry.value;
      Some(AddonMeta(
        id := AddonId(ep.ids.value),
        name := Name(ep),
        poster := PosterBase + EncodeURIComponent(ep.showTitle),
        background := BackgroundBase + EncodeURIComponent(ep.showTitle),
        description := Description(ep, index),
        releaseInfo := EpisodeCode.Unpadded(ep.season, ep.episode),
        genres := Genres))
  }

  // ---------------------------------------------------------------------------
  // Reading a meta back

  /** The text after the last `sep`. */
  function LastPart(s: string, sep: char): string {
    var parts := Split(s, sep);
    parts[|parts| - 1]
  }

  /** The number after the last `:` of a description. */
  function DescriptionPosition(description: string): Option<int> {
    ParseInt(LastPart(description, ':'))
  }

  /** The season and episode of the `SxxEyy` word that ends a name. */
  function NameEpisode(name: string): Option<(int, int)> {
    EpisodeCode.Decode(LastPart(name, ' '))
  }

  /** The text after the last `:` of `head: number`, where `number` has no `:`. */
  lemma LastPartAfterColon(head: string, number: string)
    requires ':' !in number
    ensures LastPart(head + ": " + number, ':') == [' '] + number
  {
    assert head + ": " + number == head + [':'] + ([' '] + number);
    SplitLastPart(head, ':', [' '] + number);
  }

  /** The last word of `title - code`, where `code` has no space. */
  lemma LastWordAfterDash(title: string, code: string)
    requires ' ' !in code
    ensures LastPart(title + " - " + code, ' ') == code
  {
    assert title + " - " + code == (title + [' ', '-']) + [' '] + code;
    SplitLastPart(title + [' ', '-'], ' ', code);
  }

  /** The description carries the 1-based position: the number after its last `:` is `index + 1`. */
  lemma DescriptionCarriesPosition(ep: StoredEpisode, index: int)
    ensures DescriptionPosition(Description(ep, index)) == Some(index + 1)
  {
    var number := IntToString(index + 1);
    IntToStringHasNo(index + 1, ':');
    LastPartAfterColon(DescriptionHead(ep), number);
    ParseIntAfterSpace(' ', number);
    ParseIntOfIntToString(index + 1);
  }

  /** The name ends with the zero-padded `SxxEyy` of the episode, which reads back to season and episode. */
  lemma NameCarriesEpisode(ep: StoredEpisode)
    ensures LastPart(Name(ep), ' ') == EpisodeCode.Padded(ep.season, ep.episode)
    ensures NameEpisode(Name(ep)) == Some((ep.season, ep.episode))
  {
    EpisodeCode.CodeHasNo(ep.season, ep.episode, ' ');
    LastWordAfterDash(ep.showTitle, EpisodeCode.Padded(ep.season, ep.episode));
    EpisodeCode.PaddedRoundTrip(ep.season, ep.episode);
  }

  /** The meta of entry `index` carries the position `index + 1`. */
  lemma MetaPosition(entry: Entry, index: int)
    requires Convertible(entry)
    ensures DescriptionPosition(EpisodeToMeta(entry, index).value.description) == Some(index + 1)
  {
    DescriptionCarriesPosition(entry.value, index);
  }

  /**
   * A converted meta: its `releaseInfo` is the unpadded `SxEy`, naming the
   * same episode as the name; its id starts with `tt` and is the IMDb id
   * when there is one, and otherwise reads back to the Trakt id; the
   * placeholder pictures carry the show title percent-encoded; its
   * description carries the position `index + 1`.
   */
  lemma MetaShape(entry: Entry, index: int)
    requires Convertible(entry)
    ensures var m := EpisodeToMeta(entry, index).value;
      var ep := entry.value;
      EpisodeCode.Decode(m.releaseInfo) == Some((ep.season, ep.episode))
      && NameEpisode(m.name) == Some((ep.season, ep.episode))
      && (Truthy(ep.ids.value.imdb) ==> m.id == "tt" + ep.ids.value.imdb.value)
      && (!Truthy(ep.ids.value.imdb) ==> ParseInt(m.id[2..]) == Some(ep.ids.value.trakt))
      && m.poster == PosterBase + EncodeURIComponent(ep.showTitle)
      && m.background == BackgroundBase + EncodeURIComponent(ep.showTitle)
      && DescriptionPosition(m.description) == Some(index + 1)
  {
    var ep := entry.value;
    EpisodeCode.UnpaddedRoundTrip(ep.season, ep.episode);
    ParseIntOfIntToString(ep.ids.value.trakt);
    var m := EpisodeToMeta(entry, index).value;
    assert !Truthy(ep.ids.value.imdb) ==> m.id[2..] == IntToString(ep.ids.value.trakt);
    NameCarriesEpisode(ep);
    DescriptionCarriesPosition(ep, index);
  }

  // ---------------------------------------------------------------------------
  // The catalog handler

  /** Every entry of the page converts: `page.map(...)` does not throw. */
  predicate AllConvertible(page: seq<Entry>) {
    forall i :: 0 <= i < |page| ==> Convertible(page[i])
  }

  /** `page.map((ep, idx) => episodeToMeta(ep, base + idx))` over a page that converts. */
  function Metas(page: seq<Entry>, base: int): (r: seq<AddonMeta>)
    requires AllConvertible(page)
    ensures |r| == |page|
  {
    if page == [] then []
    else Metas(page[..|page| - 1], base) + [EpisodeToMeta(page[|page| - 1], base + |page| - 1).value]
  }

  /** The metas of a page, or `[]` when one conversion throws (the handler catches it). */
  function PageMetas(page: seq<Entry>, base: int): seq<AddonMeta> {
    if AllConvertible(page) then Metas(page, base) else []
  }

  /** The page at `skip`: `list.slice(skip, skip + 100)`. */
  function PageAt(list: seq<Entry>, skip: int): seq<AddonMeta> {
    PageMetas(Slice(list, skip, skip + PageSize), skip)
  }

  /** The handler around a page: wrong catalog, failed read, nothing stored or an empty list give `[]`. */
  function Handler(catalogType: string, id: string, read: StoreRead, skip: int): seq<AddonMeta> {
    if catalogType != CatalogType || id != CatalogId then []
    else match read
      case ReadFailed => []
      case Absent => []
      case Stored(list) => if |list| == 0 then [] else PageAt(list, skip)
  }

  /** The handler as written: `skip` is `parseInt(extra.skip) || 0`, negative values included. */
  function CatalogAsWritten(catalogType: string, id: string, read: StoreRead, skipParam: Option<string>): seq<AddonMeta> {
    Handler(catalogType, id, read, ParseIntOrZero(skipParam))
  }

  /** The handler with a negative `skip` read as 0. */
  function Catalog(catalogType: string, id: string, read: StoreRead, skipParam: Option<string>): seq<AddonMeta> {
    Handler(catalogType, id, read, CatalogSkip(skipParam))
  }

  /** Meta `i` of a page is the meta of entry `i` built with the absolute index `base + i`. */
  lemma {:induction false} MetasAt(page: seq<Entry>, base: int, i: nat)
    requires AllConvertible(page) && i < |page|
    ensures Some(Metas(page, base)[i]) == EpisodeToMeta(page[i], base + i)
    decreases |page|
  {
    if i < |page| - 1 {
      MetasAt(page[..|page| - 1], base, i);
    }
  }

  /** A page of convertible entries gives one meta per entry, in order, meta `i` built with index `base + i`. */
  lemma PageMetasOnePerEntry(page: seq<Entry>, base: int)
    requires forall i :: 0 <= i < |page| ==> Convertible(page[i])
    ensures |PageMetas(page, base)| == |page|
    ensures forall i :: 0 <= i < |page| ==> Some(PageMetas(page, base)[i]) == EpisodeToMeta(page[i], base + i)
  {
    forall i | 0 <= i < |page|
      ensures Some(PageMetas(page, base)[i]) == EpisodeToMeta(page[i], base + i)
    {
      MetasAt(page, base, i);
    }
  }

  /** Meta `i` of a page of convertible entries carries the position `base + i + 1`. */
  lemma PageMetasPositions(page: seq<Entry>, base: int)
    requires forall i :: 0 <= i < |page| ==> Convertible(page[i])
    ensures |PageMetas(page, base)| == |page|
    ensures forall i :: 0 <= i < |page| ==> DescriptionPosition(PageMetas(page, base)[i].description) == Some(base + i + 1)
  {
    PageMetasOnePerEntry(page, base);
    forall i | 0 <= i < |page|
      ensures DescriptionPosition(PageMetas(page, base)[i].description) == Some(base + i + 1)
    {
      MetaPosition(page[i], base + i);
    }
  }

  /** One entry of the page that cannot be converted empties the whole page. */
  lemma PageMetasAllOrNothing(page: seq<Entry>, base: int, bad: nat)
    requires bad < |page| && !Convertible(page[bad])
    ensures PageMetas(page, base) == []
  {
  }

  /** Wrong catalog, failed read, nothing stored, or an empty list: no metas. */
  lemma EmptyCases(catalogType: string, id: string, read: StoreRead, skipParam: Option<string>)
    requires catalogType != CatalogType || id != CatalogId || read.ReadFailed? || read.Absent?
      || (read.Stored? && read.list == [])
    ensures Catalog(catalogType, id, read, skipParam) == []
    ensures CatalogAsWritten(catalogType, id, read, skipParam) == []
  {
  }

  /** A page holds at most 100 metas, whatever `skip` is. */
  lemma PageAtBound(list: seq<Entry>, skip: int)
    ensures |PageAt(list, skip)| <= PageSize
  {
    SliceLen(list, skip, PageSize);
  }

  /**
   * A page holds at most 100 metas, and the corrected handler's none once
   * `skip` reaches the end of the list; a missing or non-numeric `skip`
   * gives the first page.
   */
  lemma CatalogBounds(list: seq<Entry>, skipParam: Option<string>)
    ensures |Catalog(CatalogType, CatalogId, Stored(list), skipParam)| <= PageSize
    ensures |CatalogAsWritten(CatalogType, CatalogId, Stored(list), skipParam)| <= PageSize
    ensures ParseIntOrZero(skipParam) >= |list| ==> Catalog(CatalogType, CatalogId, Stored(list), skipParam) == []
    ensures skipParam.None? || ParseInt(skipParam.value).None? ==>
      Catalog(CatalogType, CatalogId, Stored(list), skipParam) == Handler(CatalogType, CatalogId, Stored(list), 0)
  {
    var skip := CatalogSkip(skipParam);
    PageBounds(list, skip, PageSize);
    PageAtBound(list, ParseIntOrZero(skipParam));
  }

  /** The slice at `skip` holds the entries from position `skip` on, up to 100, all convertible. */
  lemma SliceFrom(list: seq<Entry>, skip: nat)
    requires forall j :: skip <= j < Min(skip + PageSize, |list|) ==> Convertible(list[j])
    ensures |Slice(list, skip, skip + PageSize)| == Max(0, Min(PageSize, |list| - skip))
    ensures AllConvertible(Slice(list, skip, skip + PageSize))
  {
    PageBounds(list, skip, PageSize);
  }

  /** The page at `skip` holds one meta per episode from position `skip` on, up to 100. */
  lemma PageAtLength(list: seq<Entry>, skip: nat)
    requires forall j :: skip <= j < Min(skip + PageSize, |list|) ==> Convertible(list[j])
    ensures |PageAt(list, skip)| == Max(0, Min(PageSize, |list| - skip))
  {
    SliceFrom(list, skip);
  }

  /** Meta `i` of the page at `skip` is the meta of the episode at `skip + i`, and carries the position `skip + i + 1`. */
  lemma PageAtEntry(list: seq<Entry>, skip: nat, i: nat)
    requires forall j :: skip <= j < Min(skip + PageSize, |list|) ==> Convertible(list[j])
    requires i < Min(PageSize, |list| - skip)
    ensures i < |PageAt(list, skip)|
    ensures Some(PageAt(list, skip)[i]) == EpisodeToMeta(list[skip + i], skip + i)
    ensures DescriptionPosition(PageAt(list, skip)[i].description) == Some(skip + i + 1)
  {
    var page := Slice(list, skip, skip + PageSize);
    SliceFrom(list, skip);
    PageItem(list, skip, PageSize, i);
    var metas := PageAt(list, skip);
    assert metas == Metas(page, skip);
    MetasAt(page, skip, i);
    MetaPosition(page[i], skip + i);
  }

  /**
   * For a non-negative `skip`, one meta per stored episode of the page, in
   * list order: meta `i` is the meta of the episode at position `skip + i`,
   * and its description carries the 1-based position `skip + i + 1`.
   */
  lemma HandlerPositions(list: seq<Entry>, skip: nat)
    requires forall j :: skip <= j < Min(skip + PageSize, |list|) ==> Convertible(list[j])
    ensures var metas := Handler(CatalogType, CatalogId, Stored(list), skip);
      |metas| == Max(0, Min(PageSize, |list| - skip))
      && forall i :: 0 <= i < |metas| ==>
        Some(metas[i]) == EpisodeToMeta(list[skip + i], skip + i)
        && DescriptionPosition(metas[i].description) == Some(skip + i + 1)
  {
    var metas := Handler(CatalogType, CatalogId, Stored(list), skip);
    if list != [] {
      assert metas == PageAt(list, skip);
      PageAtLength(list, skip);
      forall i | 0 <= i < |metas|
        ensures Some(metas[i]) == EpisodeToMeta(list[skip + i], skip + i)
        ensures DescriptionPosition(metas[i].description) == Some(skip + i + 1)
      {
        PageAtEntry(list, skip, i);
      }
    }
  }

  /** The positions hold on every page the handler serves once a negative `skip` is read as 0. */
  lemma CatalogPositions(list: seq<Entry>, skipParam: Option<string>)
    requires var skip := CatalogSkip(skipParam);
      forall j :: skip <= j < Min(skip + PageSize, |list|) ==> Convertible(list[j])
    ensures var skip := CatalogSkip(skipParam);
      var metas := Catalog(CatalogType, CatalogId, Stored(list), skipParam);
      |metas| == Max(0, Min(PageSize, |list| - skip))
      && forall i :: 0 <= i < |metas| ==>
        Some(metas[i]) == EpisodeToMeta(list[skip + i], skip + i)
        && DescriptionPosition(metas[i].description) == Some(skip + i + 1)
  {
    HandlerPositions(list, CatalogSkip(skipParam));
  }

  /** For every `skip` the handler is meant to receive (none, or not negative), the two handlers agree. */
  lemma CatalogAgreesWhenNotNegative(catalogType: string, id: string, read: StoreRead, skipParam: Option<string>)
    requires ParseIntOrZero(skipParam) >= 0
    ensures Catalog(catalogType, id, read, skipParam) == CatalogAsWritten(catalogType, id, read, skipParam)
  {
  }

  /** With fewer entries than a page, `slice(-1, 99)` is the last entry alone. */
  lemma LastEntryPage(list: seq<Entry>)
    requires 1 <= |list| < PageSize
    ensures Slice(list, -1, -1 + PageSize) == [list[|list| - 1]]
  {
  }

  /**
   * As written, `skip=-1` over a two-episode list serves the second episode
   * alone, and its description gives it shuffle position 0 where it is
   * episode 2 of the list.
   */
  lemma NegativeSkipMislabelsPosition(first: StoredEpisode, second: StoredEpisode)
    requires first.ids.Some? && second.ids.Some?
    ensures var metas := CatalogAsWritten(CatalogType, CatalogId, Stored([Some(first), Some(second)]), Some("-1"));
      && |metas| == 1
      && Some(metas[0]) == EpisodeToMeta(Some(second), -1)
      && DescriptionPosition(metas[0].description) == Some(0)
  {
    SkipOfMinusOne();
    var list := [Some(first), Some(second)];
    var page := Slice(list, -1, -1 + PageSize);
    LastEntryPage(list);
    assert AllConvertible(page);
    var metas := CatalogAsWritten(CatalogType, CatalogId, Stored(list), Some("-1"));
    assert metas == PageAt(list, -1);
    assert metas == Metas(page, -1);
    MetasAt(page, -1, 0);
    MetaPosition(page[0], -1);
  }
}
