/**
 * The two processing steps and their composition: process_song_data builds
 * songs and artists from the song records; process_log_data builds users,
 * time and songplays from the log events and the catalog tables it reads
 * back. Every output is a bag of rows determined by the bags of its inputs.
 */
module Pipeline {
  import opened Schema
  import opened Frames
  import opened SongCatalog
  import opened ActivityLog
  import opened SongPlays
  import opened Partitions

  datatype SongTables = SongTables(songs: seq<Song>, artists: seq<Artist>)

  datatype LogTables = LogTables(users: seq<User>, time: seq<TimeEntry>, songplays: seq<SongPlayRow>)

  function ProcessSongData(records: seq<SongRecord>): SongTables {
    SongTables(SongsTable(records), ArtistsTable(records))
  }

  /**
   * The log step with the songplays write corrected: songplays carries the
   * year and month partition columns (see Partitions). As written, the step
   * stops at the songplays write, after users and time are written.
   */
  function ProcessLogData(log: seq<LogEvent>, catalog: SongTables): LogTables {
    var plays := SongPlayEvents(log);
    var timed := WithTimestamps(plays);
    var view := SongArtistView(catalog.songs, catalog.artists);
    LogTables(UsersTable(plays), TimeTable(timed), SongplaysForWrite(SongPlaysTable(timed, view)))
  }

  /** One run: the log step joins against the catalog tables the song step wrote. */
  function Run(records: seq<SongRecord>, log: seq<LogEvent>): (SongTables, LogTables) {
    var catalog := ProcessSongData(records);
    (catalog, ProcessLogData(log, catalog))
  }

  /** Only NextSong events reach the users table, and every one of them does. */
  lemma UsersComeFromSongPlays(log: seq<LogEvent>, catalog: SongTables)
    ensures forall u :: u in ProcessLogData(log, catalog).users <==>
      exists e :: e in log && e.page == Some("NextSong") && u == UserOf(e)
  {
    var plays := SongPlayEvents(log);
    forall u ensures u in UsersTable(plays) <==> exists e :: e in log && e.page == Some("NextSong") && u == UserOf(e) {
      if u in UsersTable(plays) {
        var e :| e in plays && u == UserOf(e);
        assert e in log && e.page == Some("NextSong");
      }
    }
  }

  /** The time table holds exactly the instants of the NextSong events. */
  lemma TimeComesFromSongPlays(log: seq<LogEvent>, catalog: SongTables)
    ensures forall row :: row in ProcessLogData(log, catalog).time ==>
      exists e :: e in log && e.page == Some("NextSong") && row.start_time == FromEpochMillis(e.ts)
    ensures forall e :: e in log && e.page == Some("NextSong") ==>
      TimeEntryOf(FromEpochMillis(e.ts)) in ProcessLogData(log, catalog).time
  {
    var plays := SongPlayEvents(log);
    var timed := WithTimestamps(plays);
    var time := TimeTable(timed);
    assert ProcessLogData(log, catalog).time == time;
    forall row | row in time
      ensures exists e :: e in log && e.page == Some("NextSong") && row.start_time == FromEpochMillis(e.ts)
    {
      var te :| te in timed && te.timestamp == row.start_time;
      assert te.event in plays;
    }
    forall e | e in log && e.page == Some("NextSong") ensures TimeEntryOf(FromEpochMillis(e.ts)) in time {
      assert TimedEvent(e, FromEpochMillis(e.ts)) in timed;
    }
  }

  /**
   * The songplays join condition, end to end: a NextSong event that agrees
   * with a cataloged song, and an artist of the same artist_id, on title,
   * artist name and duration.
   */
  predicate PlayResolves(e: LogEvent, s: Song, a: Artist, catalog: SongTables) {
    && e.page == Some("NextSong")
    && s in catalog.songs && a in catalog.artists && s.artist_id == a.artist_id
    && e.song == s.title && e.artist == a.name && e.length == s.duration
  }

  /** The row songplays holds for an event resolved to a song and an artist. */
  function ResolvedPlay(e: LogEvent, s: Song, a: Artist): SongPlay {
    SongPlay(FromEpochMillis(e.ts), e.userId, e.level, s.song_id, a.artist_id, e.sessionId, e.location, e.userAgent)
  }

  lemma ResolvedPlayInTable(log: seq<LogEvent>, catalog: SongTables, e: LogEvent, s: Song, a: Artist)
    requires e in log && PlayResolves(e, s, a, catalog)
    ensures ResolvedPlay(e, s, a) in SongPlaysTable(WithTimestamps(SongPlayEvents(log)), SongArtistView(catalog.songs, catalog.artists))
  {
    var plays := SongPlayEvents(log);
    var timed := WithTimestamps(plays);
    var view := SongArtistView(catalog.songs, catalog.artists);
    var te := TimedEvent(e, FromEpochMillis(e.ts));
    assert te in timed;
    var v := SongArtist(s.song_id, s.title, a.artist_id, a.name, s.duration);
    assert v in view;
    assert Matches(te, v);
  }

  lemma TableRowResolved(log: seq<LogEvent>, catalog: SongTables, p: SongPlay)
    requires p in SongPlaysTable(WithTimestamps(SongPlayEvents(log)), SongArtistView(catalog.songs, catalog.artists))
    ensures exists e, s, a :: e in log && PlayResolves(e, s, a, catalog) && p == ResolvedPlay(e, s, a)
  {
    var plays := SongPlayEvents(log);
    var timed := WithTimestamps(plays);
    var view := SongArtistView(catalog.songs, catalog.artists);
    var te, v :| te in timed && v in view && Matches(te, v) &&
      p == SongPlay(te.timestamp, te.event.userId, te.event.level, v.song_id, v.artist_id,
                    te.event.sessionId, te.event.location, te.event.userAgent);
    var e := te.event;
    assert e in plays;
    var s, a :| s in catalog.songs && a in catalog.artists && s.artist_id == a.artist_id &&
      v == SongArtist(s.song_id, s.title, a.artist_id, a.name, s.duration);
    assert PlayResolves(e, s, a, catalog) && p == ResolvedPlay(e, s, a);
  }

  /**
   * End to end, a songplays row exists iff some NextSong event resolves to
   * a cataloged song and artist; it carries the event's columns and the
   * catalog's song_id and artist_id.
   */
  lemma SongplaysResolveAgainstCatalog(log: seq<LogEvent>, catalog: SongTables)
    ensures forall p :: p in SongPlaysTable(WithTimestamps(SongPlayEvents(log)), SongArtistView(catalog.songs, catalog.artists)) <==>
      exists e, s, a :: e in log && PlayResolves(e, s, a, catalog) && p == ResolvedPlay(e, s, a)
  {
    forall p | p in SongPlaysTable(WithTimestamps(SongPlayEvents(log)), SongArtistView(catalog.songs, catalog.artists))
      ensures exists e, s, a :: e in log && PlayResolves(e, s, a, catalog) && p == ResolvedPlay(e, s, a)
    {
      TableRowResolved(log, catalog, p);
    }
    forall e, s, a | e in log && PlayResolves(e, s, a, catalog)
      ensures ResolvedPlay(e, s, a) in SongPlaysTable(WithTimestamps(SongPlayEvents(log)), SongArtistView(catalog.songs, catalog.artists))
    {
      ResolvedPlayInTable(log, catalog, e, s, a);
    }
  }

  /**
   * A NextSong event that no catalog entry matches still gives its user a
   * row, but adds nothing to songplays.
   */
  lemma UnmatchedPlayKeepsUserDropsPlay(e: LogEvent, log: seq<LogEvent>, catalog: SongTables)
    requires e.page == Some("NextSong")
    requires forall s, a :: s in catalog.songs && a in catalog.artists && s.artist_id == a.artist_id ==>
      !(e.song == s.title && e.artist == a.name && e.length == s.duration)
    ensures UserOf(e) in ProcessLogData([e] + log, catalog).users
    ensures ProcessLogData([e] + log, catalog).songplays == ProcessLogData(log, catalog).songplays
  {
    assert ([e] + log)[1..] == log;
    assert SongPlayEvents([e] + log) == [e] + SongPlayEvents(log);
    var plays := SongPlayEvents(log);
    assert ([e] + plays)[1..] == plays;
    assert WithTimestamps([e] + plays) == [TimestampOf(e)] + WithTimestamps(plays);
    var view := SongArtistView(catalog.songs, catalog.artists);
    forall v | v in view ensures !Matches(TimestampOf(e), v) {
      var s, a :| s in catalog.songs && a in catalog.artists && s.artist_id == a.artist_id &&
        v == SongArtist(s.song_id, s.title, a.artist_id, a.name, s.duration);
    }
    SongPlaysByPlay(TimestampOf(e), WithTimestamps(plays), view);
  }

  /** The song step depends only on the bag of song records. */
  lemma SongDataOrderInsensitive(r1: seq<SongRecord>, r2: seq<SongRecord>)
    requires multiset(r1) == multiset(r2)
    ensures multiset(ProcessSongData(r1).songs) == multiset(ProcessSongData(r2).songs)
    ensures multiset(ProcessSongData(r1).artists) == multiset(ProcessSongData(r2).artists)
  {
    SelectPreservesBags(r1, r2, SongOf);
    SelectPreservesBags(r1, r2, ArtistOf);
  }

  /** The song-play events depend only on the bag of log events. */
  lemma PlaysOrderInsensitive(l1: seq<LogEvent>, l2: seq<LogEvent>)
    requires multiset(l1) == multiset(l2)
    ensures multiset(SongPlayEvents(l1)) == multiset(SongPlayEvents(l2))
  {
    var p1, p2 := SongPlayEvents(l1), SongPlayEvents(l2);
    forall e ensures multiset(p1)[e] == multiset(p2)[e] { }
  }

  lemma UsersOrderInsensitive(p1: seq<LogEvent>, p2: seq<LogEvent>)
    requires multiset(p1) == multiset(p2)
    ensures multiset(UsersTable(p1)) == multiset(UsersTable(p2))
  {
    SelectPreservesBags(p1, p2, UserOf);
    DistinctPreservesBags(Select(p1, UserOf), Select(p2, UserOf));
  }

  lemma TimeOrderInsensitive(p1: seq<LogEvent>, p2: seq<LogEvent>)
    requires multiset(p1) == multiset(p2)
    ensures multiset(TimeTable(WithTimestamps(p1))) == multiset(TimeTable(WithTimestamps(p2)))
  {
    var t1, t2 := WithTimestamps(p1), WithTimestamps(p2);
    SelectPreservesBags(p1, p2, TimestampOf);
    SelectPreservesBags(t1, t2, TimestampColumn);
    var s1, s2 := Distinct(Select(t1, TimestampColumn)), Distinct(Select(t2, TimestampColumn));
    DistinctPreservesBags(Select(t1, TimestampColumn), Select(t2, TimestampColumn));
    SelectPreservesBags(s1, s2, TimeEntryOf);
    DistinctPreservesBags(Select(s1, TimeEntryOf), Select(s2, TimeEntryOf));
  }

  lemma ViewOrderInsensitive(c1: SongTables, c2: SongTables)
    requires multiset(c1.songs) == multiset(c2.songs)
    requires multiset(c1.artists) == multiset(c2.artists)
    ensures multiset(SongArtistView(c1.songs, c1.artists)) == multiset(SongArtistView(c2.songs, c2.artists))
  {
    var j1, j2 := SongArtistPairs(c1.songs, c1.artists), SongArtistPairs(c2.songs, c2.artists);
    assert multiset(j1) == multiset(j2) by {
      forall q: (Song, Artist) ensures multiset(j1)[q] == multiset(j2)[q] {
        assert q == (q.0, q.1);
      }
    }
    SelectPreservesBags(j1, j2, ViewRow);
  }

  lemma SongplaysOrderInsensitive(t1: seq<TimedEvent>, t2: seq<TimedEvent>, v1: seq<SongArtist>, v2: seq<SongArtist>)
    requires multiset(t1) == multiset(t2)
    requires multiset(v1) == multiset(v2)
    ensures multiset(SongplaysForWrite(SongPlaysTable(t1, v1))) == multiset(SongplaysForWrite(SongPlaysTable(t2, v2)))
  {
    var k1, k2 := PlayPairs(t1, v1), PlayPairs(t2, v2);
    assert multiset(k1) == multiset(k2) by {
      forall q: (TimedEvent, SongArtist) ensures multiset(k1)[q] == multiset(k2)[q] {
        assert q == (q.0, q.1);
      }
    }
    SelectPreservesBags(k1, k2, PlayRow);
    SelectPreservesBags(SongPlaysTable(t1, v1), SongPlaysTable(t2, v2), WithPartitionColumns);
  }

  /** The log step depends only on the bags of log events, songs and artists. */
  lemma LogDataOrderInsensitive(l1: seq<LogEvent>, l2: seq<LogEvent>, c1: SongTables, c2: SongTables)
    requires multiset(l1) == multiset(l2)
    requires multiset(c1.songs) == multiset(c2.songs)
    requires multiset(c1.artists) == multiset(c2.artists)
    ensures multiset(ProcessLogData(l1, c1).users) == multiset(ProcessLogData(l2, c2).users)
    ensures multiset(ProcessLogData(l1, c1).time) == multiset(ProcessLogData(l2, c2).time)
    ensures multiset(ProcessLogData(l1, c1).songplays) == multiset(ProcessLogData(l2, c2).songplays)
  {
    var p1, p2 := SongPlayEvents(l1), SongPlayEvents(l2);
    PlaysOrderInsensitive(l1, l2);
    UsersOrderInsensitive(p1, p2);
    TimeOrderInsensitive(p1, p2);
    SelectPreservesBags(p1, p2, TimestampOf);
    ViewOrderInsensitive(c1, c2);
    SongplaysOrderInsensitive(WithTimestamps(p1), WithTimestamps(p2),
                              SongArtistView(c1.songs, c1.artists), SongArtistView(c2.songs, c2.artists));
  }
}
