/**
 * process_song_data: the songs and artists dimensions, each a plain
 * projection of the song records (the artists projection renames four
 * columns). Neither table is deduplicated.
 */
module SongCatalog {
  import opened Schema
  import opened Frames

  function SongOf(r: SongRecord): Song {
    Song(r.song_id, r.title, r.artist_id, r.year, r.duration)
  }

  function ArtistOf(r: SongRecord): Artist {
    Artist(r.artist_id, r.artist_name, r.artist_location, r.artist_latitude, r.artist_longitude)
  }

  /** The songs table: one row per song record, its five columns copied unchanged. */
  function SongsTable(records: seq<SongRecord>): (songs: seq<Song>)
    ensures |songs| == |records|
    ensures forall i :: 0 <= i < |records| ==>
      && songs[i].song_id == records[i].song_id
      && songs[i].title == records[i].title
      && songs[i].artist_id == records[i].artist_id
      && songs[i].year == records[i].year
      && songs[i].duration == records[i].duration
  {
    Select(records, SongOf)
  }

  /** The artists table: one row per song record, with the artist_* columns renamed. */
  function ArtistsTable(records: seq<SongRecord>): (artists: seq<Artist>)
    ensures |artists| == |records|
    ensures forall i :: 0 <= i < |records| ==>
      && artists[i].artist_id == records[i].artist_id
      && artists[i].name == records[i].artist_name
      && artists[i].location == records[i].artist_location
      && artists[i].latitude == records[i].artist_latitude
      && artists[i].longitude == records[i].artist_longitude
  {
    Select(records, ArtistOf)
  }

  function ArtistIdIs(id: string): Artist -> bool {
    (a: Artist) => a.artist_id == id
  }

  function RecordArtistIdIs(id: string): SongRecord -> bool {
    (r: SongRecord) => r.artist_id == id
  }

  /**
   * No deduplication by artist_id: the artist rows carrying `id` are exactly
   * the projections of the song records carrying `id`, one row per record,
   * so an artist with N songs has N rows.
   */
  lemma ArtistRowsPerArtistId(records: seq<SongRecord>, id: string)
    ensures Where(ArtistsTable(records), ArtistIdIs(id)) == ArtistsTable(Where(records, RecordArtistIdIs(id)))
    ensures |Where(ArtistsTable(records), ArtistIdIs(id))| == |Where(records, RecordArtistIdIs(id))|
  {
    WhereSelect(records, ArtistOf, ArtistIdIs(id), RecordArtistIdIs(id));
  }
}
