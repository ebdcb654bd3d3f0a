/**
 * The second half of process_log_data: the song-artist view (songs joined
 * with artists on artist_id) and the songplays fact table (song plays joined
 * with that view on song title, artist name and duration, all by exact
 * equality).
 */
module SongPlays {
  import opened Schema
  import opened Frames

  predicate SameArtist(s: Song, a: Artist) {
    s.artist_id == a.artist_id
  }

  /**
   * Pairs of the song-artist join: each (song, artist) pair with equal
   * artist_id, once for every occurrence of the song and of the artist.
   */
  function SongArtistPairs(songs: seq<Song>, artists: seq<Artist>): (ps: seq<(Song, Artist)>)
    ensures forall s, a :: multiset(ps)[(s, a)] ==
                           if SameArtist(s, a) then multiset(songs)[s] * multiset(artists)[a] else 0
  {
    JoinPairs(songs, artists, SameArtist)
  }

  function ViewRow(p: (Song, Artist)): SongArtist {
    SongArtist(p.0.song_id, p.0.title, p.1.artist_id, p.1.name, p.0.duration)
  }

  /**
   * The song-artist view: one row per joined pair, carrying the song's
   * song_id, title and duration and the artist's artist_id and name.
   */
  function SongArtistView(songs: seq<Song>, artists: seq<Artist>): (view: seq<SongArtist>)
    ensures |view| == |SongArtistPairs(songs, artists)|
    ensures forall i :: 0 <= i < |view| ==>
      var (s, a) := SongArtistPairs(songs, artists)[i];
      view[i] == SongArtist(s.song_id, s.title, a.artist_id, a.name, s.duration)
    ensures forall v :: v in view <==>
      exists s, a :: s in songs && a in artists && s.artist_id == a.artist_id &&
        v == SongArtist(s.song_id, s.title, a.artist_id, a.name, s.duration)
  {
    JoinSelectMembers(songs, artists, SameArtist, ViewRow);
    Select(SongArtistPairs(songs, artists), ViewRow)
  }

  /** The songplays join condition. */
  predicate Matches(e: TimedEvent, v: SongArtist) {
    e.event.song == v.title && e.event.artist == v.artist_name && e.event.length == v.duration
  }

  /**
   * Pairs of the songplays join: each (play, view row) pair that agrees on
   * title, artist name and duration, once per occurrence of each side.
   */
  function PlayPairs(timed: seq<TimedEvent>, view: seq<SongArtist>): (ps: seq<(TimedEvent, SongArtist)>)
    ensures forall e, v :: multiset(ps)[(e, v)] ==
                           if Matches(e, v) then multiset(timed)[e] * multiset(view)[v] else 0
  {
    JoinPairs(timed, view, Matches)
  }

  function PlayRow(p: (TimedEvent, SongArtist)): SongPlay {
    var (e, v) := p;
    SongPlay(e.timestamp, e.event.userId, e.event.level, v.song_id, v.artist_id,
             e.event.sessionId, e.event.location, e.event.userAgent)
  }

  /**
   * The songplays table. A row is present iff some play matches some view
   * row, and it carries the play's timestamp, userId, level, sessionId,
   * location and userAgent with the view row's song_id and artist_id.
   */
  function SongPlaysTable(timed: seq<TimedEvent>, view: seq<SongArtist>): (plays: seq<SongPlay>)
    ensures |plays| == |PlayPairs(timed, view)|
    ensures forall i :: 0 <= i < |plays| ==> plays[i] == PlayRow(PlayPairs(timed, view)[i])
    ensures forall p :: p in plays <==>
      exists e, v :: e in timed && v in view && Matches(e, v) &&
        p == SongPlay(e.timestamp, e.event.userId, e.event.level, v.song_id, v.artist_id,
                      e.event.sessionId, e.event.location, e.event.userAgent)
  {
    JoinSelectMembers(timed, view, Matches, PlayRow);
    Select(PlayPairs(timed, view), PlayRow)
  }

  /** The rows one play contributes: one per matching view row. */
  function RowsOfPlay(e: TimedEvent, view: seq<SongArtist>): (rows: seq<SongPlay>)
    ensures rows == [] <==> forall v :: v in view ==> !Matches(e, v)
    ensures forall p :: p in rows <==>
      exists v :: v in view && Matches(e, v) && p == PlayRow((e, v))
  {
    var ps := Matching(e, view, Matches);
    SelectMembers(ps, PlayRow);
    assert ps == [] <==> forall v :: v in view ==> !Matches(e, v) by {
      if ps != [] {
        assert ps[0] in ps;
      }
      if exists v :: v in view && Matches(e, v) {
        var v :| v in view && Matches(e, v);
        assert (e, v) in ps;
      }
    }
    Select(ps, PlayRow)
  }

  /**
   * Songplays is assembled play by play: a play's rows are its matches, and
   * a play that matches no view row contributes nothing.
   */
  lemma SongPlaysByPlay(e: TimedEvent, timed: seq<TimedEvent>, view: seq<SongArtist>)
    ensures SongPlaysTable([e] + timed, view) == RowsOfPlay(e, view) + SongPlaysTable(timed, view)
    ensures (forall v :: v in view ==> !Matches(e, v)) ==>
      SongPlaysTable([e] + timed, view) == SongPlaysTable(timed, view)
  {
    assert ([e] + timed)[1..] == timed;
    SelectAppend(Matching(e, view, Matches), JoinPairs(timed, view, Matches), PlayRow);
  }
}
