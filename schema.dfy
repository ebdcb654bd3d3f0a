/**
 * Row types of the pipeline's inputs and of the five analytics tables.
 * Columns declared nullable in the read schemas are `Option`s; the columns
 * declared non-nullable are plain values. Field names are the column names.
 */
module Schema {

  datatype Option<T> = None | Some(value: T)

  /**
   * A Spark DoubleType value. The pipeline never computes with one; it only
   * copies it and, in the songplays join, compares two with SQL equality.
   */
  type Double(==, !new)

  /** An instant, as milliseconds since 1970-01-01T00:00:00 UTC. */
  datatype Timestamp = FromEpochMillis(millis: int)

  /** One line of song_data, read with song_schema. */
  datatype SongRecord = SongRecord(
    num_songs: Option<int>,
    artist_id: string,
    artist_latitude: Option<Double>,
    artist_longitude: Option<Double>,
    artist_location: Option<string>,
    artist_name: string,
    song_id: string,
    title: string,
    duration: Double,
    year: Option<int>)

  /** One line of log_data, read with log_schema; `ts` is epoch milliseconds. */
  datatype LogEvent = LogEvent(
    artist: string,
    auth: Option<string>,
    firstName: string,
    gender: string,
    itemInSession: Option<int>,
    lastName: string,
    length: Double,
    level: Option<string>,
    location: Option<string>,
    httpMethod: Option<string>,  // the column `method` (a Dafny keyword)
    page: Option<string>,
    registration: Option<Double>,
    sessionId: Option<int>,
    song: string,
    status: Option<int>,
    ts: int,
    userAgent: Option<string>,
    userId: string)

  /** A log event after the `timestamp` column has been added to it. */
  datatype TimedEvent = TimedEvent(event: LogEvent, timestamp: Timestamp)

  /** A row of analytics/songs. */
  datatype Song = Song(song_id: string, title: string, artist_id: string, year: Option<int>, duration: Double)

  /** A row of analytics/artists. */
  datatype Artist = Artist(
    artist_id: string,
    name: string,
    location: Option<string>,
    latitude: Option<Double>,
    longitude: Option<Double>)

  /** A row of analytics/users. */
  datatype User = User(user_id: string, first_name: string, last_name: string, gender: string, level: Option<string>)

  /** A row of analytics/time. */
  datatype TimeEntry = TimeEntry(
    start_time: Timestamp,
    hour: int,
    day: int,
    week: int,
    month: int,
    year: int,
    weekday: int)

  /** A row of the song-artist view that songplays is resolved against. */
  datatype SongArtist = SongArtist(
    song_id: string,
    title: string,
    artist_id: string,
    artist_name: string,
    duration: Double)

  /** A row of the songplays projection. */
  datatype SongPlay = SongPlay(
    start_time: Timestamp,
    user_id: string,
    level: Option<string>,
    song_id: string,
    artist_id: string,
    session_id: Option<int>,
    location: Option<string>,
    user_agent: Option<string>)
}
