/**
 * The `SxxEyy` text that names an episode by season and episode number:
 * zero-padded to two digits in the records of index.js and in the names of
 * addon.js, unpadded in the `releaseInfo` of addon.js. Both read back to the
 * same pair of numbers.
 */
module EpisodeCode {
  import opened Wrappers
  import opened JsText

  /** `S${pad2(season)}E${pad2(episode)}`. */
  function Padded(season: int, episode: int): string {
    "S" + Pad2(season) + "E" + Pad2(episode)
  }

  /** `S${season}E${episode}`. */
  function Unpadded(season: int, episode: int): string {
    "S" + IntToString(season) + "E" + IntToString(episode)
  }

  /** Reads season and episode back: an `S`, a number, an `E`, a number. */
  function Decode(text: string): Option<(int, int)> {
    if text == [] || text[0] != 'S' then None
    else
      var parts := Split(text[1..], 'E');
      if |parts| != 2 then None
      else match (ParseInt(parts[0]), ParseInt(parts[1]))
        case (Some(s), Some(e)) => Some((s, e))
        case _ => None
  }

  /** `Decode` of `"S" + a + "E" + b` for two numerals `a` and `b` without an `E`. */
  lemma DecodeOfParts(a: string, b: string, season: int, episode: int)
    requires 'E' !in a && 'E' !in b
    requires ParseInt(a) == Some(season) && ParseInt(b) == Some(episode)
    ensures Decode("S" + a + "E" + b) == Some((season, episode))
  {
    var text := "S" + a + "E" + b;
    assert text[1..] == a + ['E'] + b;
    SplitAtFirstSeparator(a, 'E', b);
    SplitWithoutSeparator(b, 'E');
  }

  /** The padded text names its season and episode unambiguously. */
  lemma PaddedRoundTrip(season: int, episode: int)
    ensures Decode(Padded(season, episode)) == Some((season, episode))
  {
    IntToStringHasNo(season, 'E');
    IntToStringHasNo(episode, 'E');
    ParseIntOfPad2(season);
    ParseIntOfPad2(episode);
    DecodeOfParts(Pad2(season), Pad2(episode), season, episode);
  }

  /** So does the unpadded text: both spellings name the same episode. */
  lemma UnpaddedRoundTrip(season: int, episode: int)
    ensures Decode(Unpadded(season, episode)) == Some((season, episode))
    ensures Decode(Unpadded(season, episode)) == Decode(Padded(season, episode))
  {
    IntToStringHasNo(season, 'E');
    IntToStringHasNo(episode, 'E');
    ParseIntOfIntToString(season);
    ParseIntOfIntToString(episode);
    DecodeOfParts(IntToString(season), IntToString(episode), season, episode);
    PaddedRoundTrip(season, episode);
  }

  /** Neither text contains `c`, a character that is not part of a number or of the `S`/`E` markers. */
  lemma CodeHasNo(season: int, episode: int, c: char)
    requires c != '-' && c != 'S' && c != 'E' && !IsDigitIn(c, 10)
    ensures c !in Padded(season, episode) && c !in Unpadded(season, episode)
  {
    IntToStringHasNo(season, c);
    IntToStringHasNo(episode, c);
  }
}
