/**
 * The episode objects of the shuffled list that api/index.js and addon.js
 * read: the list is written elsewhere, so any field may be missing and any
 * entry may be `null` (`None`).
 */
module StoredEpisodes {
  import opened Wrappers

  /** `episode.ids`: the episode's Trakt id and, when known, its IMDb id. */
  datatype EpisodeIds = EpisodeIds(trakt: int, imdb: Option<string>)

  /** `episode.showIds`: the show's IMDb id, when known. */
  datatype ShowIds = ShowIds(imdb: Option<string>)

  datatype StoredEpisode = StoredEpisode(
    ids: Option<EpisodeIds>,
    showIds: Option<ShowIds>,
    season: int,
    episode: int,
    title: Option<string>,
    overview: Option<string>,
    showTitle: string,
    showPoster: Option<string>,
    showFanart: Option<string>,
    showOverview: Option<string>,
    year: Option<int>,
    showYear: Option<int>,
    thumbnail: Option<string>,
    firstAired: Option<string>)

  /** A list entry as read back: `None` for a `null` entry. */
  type Entry = Option<StoredEpisode>
}
