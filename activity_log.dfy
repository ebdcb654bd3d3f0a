/**
 * The first half of process_log_data: the NextSong filter, the users
 * dimension (deduplicated by full row), the timestamp column and the time
 * dimension.
 */
module ActivityLog {
  import opened Schema
  import opened Frames
  import opened Calendar

  predicate IsSongPlay(e: LogEvent) {
    e.page == Some("NextSong")
  }

  /** The song-play events: exactly the input events whose page is NextSong, with their multiplicities. */
  function SongPlayEvents(log: seq<LogEvent>): (plays: seq<LogEvent>)
    ensures forall e :: e in plays <==> e in log && e.page == Some("NextSong")
    ensures forall e :: multiset(plays)[e] == if e.page == Some("NextSong") then multiset(log)[e] else 0
  {
    Where(log, IsSongPlay)
  }

  function UserOf(e: LogEvent): User {
    User(e.userId, e.firstName, e.lastName, e.gender, e.level)
  }

  /**
   * The users table: no row twice, and a row is present iff it is the
   * renamed projection of some song-play event.
   */
  function UsersTable(plays: seq<LogEvent>): (users: seq<User>)
    ensures NoDuplicates(users)
    ensures forall u :: u in users <==>
      exists e :: e in plays && u == User(e.userId, e.firstName, e.lastName, e.gender, e.level)
  {
    SelectMembers(plays, UserOf);
    Distinct(Select(plays, UserOf))
  }

  /**
   * Deduplication is by full row, not by user_id: one user seen with two
   * levels keeps two rows with that user_id.
   */
  lemma LevelChangeKeepsBothRows(plays: seq<LogEvent>, e1: LogEvent, e2: LogEvent)
    requires e1 in plays && e2 in plays
    requires e1.userId == e2.userId && e1.level != e2.level
    ensures exists u1, u2 ::
      u1 in UsersTable(plays) && u2 in UsersTable(plays) && u1 != u2 && u1.user_id == e1.userId && u2.user_id == e1.userId
  {
    var users := UsersTable(plays);
    assert UserOf(e1) in users && UserOf(e2) in users;
  }

  /** The `timestamp` column: the instant `ts` milliseconds after the epoch. */
  function TimestampOf(e: LogEvent): TimedEvent {
    TimedEvent(e, FromEpochMillis(e.ts))
  }

  /** The song-play events with their `timestamp` column, one row per event. */
  function WithTimestamps(plays: seq<LogEvent>): (timed: seq<TimedEvent>)
    ensures |timed| == |plays|
    ensures forall i :: 0 <= i < |plays| ==> timed[i].event == plays[i] && timed[i].timestamp.millis == plays[i].ts
    ensures forall te :: te in timed <==> te.event in plays && te.timestamp == FromEpochMillis(te.event.ts)
  {
    SelectMembers(plays, TimestampOf);
    Select(plays, TimestampOf)
  }

  /**
   * A row of the time table. Its fields depend on start_time alone: hour
   * 0..23, a valid calendar date (day at most the month's length) whose day
   * number is the instant's day, ISO week 1..53 and weekday 1..7.
   */
  function TimeEntryOf(t: Timestamp): (row: TimeEntry)
    ensures row.start_time == t
    ensures 0 <= row.hour <= 23
    ensures EpochDay(t.millis) * 86400 + row.hour * 3600 <= EpochSeconds(t.millis) < EpochDay(t.millis) * 86400 + (row.hour + 1) * 3600
    ensures 1 <= row.month <= 12 && 1 <= row.day <= DaysInMonth(row.year, row.month)
    ensures DaysFromCivil(Date(row.year, row.month, row.day)) == EpochDay(t.millis)
    ensures row.week == WeekOfYear(EpochDay(t.millis)) && 1 <= row.week <= 53
    ensures row.weekday == DayOfWeek(EpochDay(t.millis)) && 1 <= row.weekday <= 7
  {
    var z := EpochDay(t.millis);
    var d := CivilFromDays(z);
    TimeEntry(t, HourOf(t.millis), d.day, WeekOfYear(z), d.month, d.year, DayOfWeek(z))
  }

  /**
   * A worked instant: ts 1541121934796 is 2018-11-02 01:25:34.796 UTC, a
   * Friday (weekday 6 with Sunday as 1) in ISO week 44.
   */
  lemma TimeEntryOfExample()
    ensures TimeEntryOf(FromEpochMillis(1541121934796)) ==
      TimeEntry(FromEpochMillis(1541121934796), 1, 2, 44, 11, 2018, 6)
  {
    InstantExample();
  }

  function TimestampColumn(e: TimedEvent): Timestamp {
    e.timestamp
  }

  /**
   * The time table: distinct timestamps of the song plays, decomposed and
   * deduplicated. Rows are distinct by start_time, each row is determined
   * by its start_time, every start_time is some play's timestamp and every
   * play's timestamp has a row.
   */
  function TimeTable(timed: seq<TimedEvent>): (rows: seq<TimeEntry>)
    ensures forall i, j :: 0 <= i < j < |rows| ==> rows[i].start_time != rows[j].start_time
    ensures forall row :: row in rows ==> row == TimeEntryOf(row.start_time)
    ensures forall row :: row in rows ==> exists e :: e in timed && e.timestamp == row.start_time
    ensures forall e :: e in timed ==> TimeEntryOf(e.timestamp) in rows
  {
    var stamps := Distinct(Select(timed, TimestampColumn));
    SelectMembers(timed, TimestampColumn);
    KeyedRows(stamps, TimeEntryOf, StartTime);
    Distinct(Select(stamps, TimeEntryOf))
  }

  function StartTime(row: TimeEntry): Timestamp {
    row.start_time
  }
}
