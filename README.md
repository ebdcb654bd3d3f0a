# Sparkify data lake ETL, modelled in Dafny

`etl.py` builds a star schema for the Sparkify music service. It runs in two steps:

- `process_song_data` projects the song-metadata records into the `songs` and `artists` dimension tables.
- `process_log_data` works on the user-activity log.
  - It keeps the `NextSong` events.
  - It builds the `users` and `time` dimensions from them.
  - It joins the events with a song–artist view (`songs` joined with `artists` on `artist_id`). The join is on song title, artist name and duration, and it gives the `songplays` fact table.
  - Every table is then written as parquet. Some writes are partitioned by named columns.

This project models those transformations as pure functions over sequences of typed rows. A sequence is read as a bag: row order carries no meaning, and multiplicity does.

- `frames.dfy` (`Frames`) gives the relational operators the script uses, each with its exact bag meaning:
  - `Select` is `select`, `withColumnRenamed` and `withColumn`.
  - `Where` is `where`.
  - `Distinct` is `drop_duplicates`.
  - `JoinPairs` is an inner join on a condition.
- `schema.dfy` (`Schema`) holds the record types:
  - the two input schemas and the five output tables
  - nullable columns as `Option`
  - `DoubleType` as an abstract type with decidable equality
- `calendar.dfy` (`Calendar`) does the proleptic Gregorian calendar arithmetic behind `hour`, `dayofmonth`, `weekofyear` (ISO 8601), `month`, `year` and `dayofweek` (1 = Sunday). It works on epoch milliseconds in UTC.
- `song_catalog.dfy` (`SongCatalog`) holds `songs` and `artists`.
- `activity_log.dfy` (`ActivityLog`) holds the NextSong filter, `users`, the `timestamp` column and `time`.
- `song_plays.dfy` (`SongPlays`) holds the song–artist view and `songplays`.
- `partitions.dfy` (`Partitions`) checks that each `partitionBy` names columns of the table written. See the finding below.
- `pipeline.dfy` (`Pipeline`) composes the two steps. It proves end-to-end membership and that the result does not depend on row order. Its `songplays` is the corrected table, with `year` and `month` added (see the finding below): as written, `process_log_data` stops at the songplays write (etl.py:198) after `users` and `time` have been written, so no `songplays` is written at all. The songplays lemmas of `Pipeline` (`UnmatchedPlayKeepsUserDropsPlay`, `SongplaysOrderInsensitive`, `LogDataOrderInsensitive`) are about that corrected pipeline.

## Model

| member | source | states |
|---|---|---|
| Frames.Select | etl.py:63-69 | a projection keeps one output row per input row, in place: same length, row i is the image of input row i |
| Frames.Where | etl.py:133 | a filter keeps each row satisfying the predicate with its full multiplicity and drops every other row; membership iff in the input and satisfying it |
| Frames.Distinct | etl.py:145 | deduplication leaves no row twice and keeps exactly one copy of every input row |
| Frames.Matching | etl.py:185 | the join rows of one left row: the pairs with a right row satisfying the condition, once per occurrence of that right row |
| Frames.JoinPairs | etl.py:173-174 | an inner join contains each pair satisfying the condition as often as the product of the two sides' multiplicities, and no other pair |
| Frames.JoinPairsMember | etl.py:173-174 | a pair is in the inner join iff its left row is on the left, its right row is on the right and the condition holds |
| Frames.SelectAppend | etl.py:63-69 | projecting a concatenation is the concatenation of the projections |
| Frames.SelectMembers | etl.py:136-142 | a row is in a projection iff it is the image of some input row |
| Frames.WhereSelect | etl.py:76-86 | filtering a projection equals projecting the filtered input when the two predicates agree through the projection |
| Frames.SelectPreservesBags | etl.py:63-69 | inputs with the same bag of rows project to outputs with the same bag of rows |
| Frames.DistinctPreservesBags | etl.py:145 | inputs with the same bag of rows deduplicate to the same bag of rows |
| Frames.KeyedRows | etl.py:156-163 | deriving rows from distinct keys by a function the key can be read back from gives rows unique by key, each the derived row of an input key, one for every key |
| Frames.JoinSelectMembers | etl.py:185-188 | a row is in a projected inner join iff it is the image of some left row and right row that satisfy the condition |
| Calendar.DaysFromCivil | etl.py:159-162 | definition: the day number of a valid date, the reference every date contract is stated against; its properties are in rows Calendar.DateWithinYear, Calendar.DaysFromCivilInjective, Calendar.CivilFromDays and Calendar.CivilFromDaysOfDate |
| Calendar.EpochSeconds | etl.py:152 | the whole seconds of a ms instant, rounded towards the past: s * 1000 <= ts < (s + 1) * 1000 |
| Calendar.EpochDay | etl.py:152 | the day number of that second: z * 86400 <= seconds < (z + 1) * 86400 |
| Calendar.DaysInMonth | etl.py:159 | month lengths are 28..31 and agree with the cumulative days-before-month table, February having 29 days in leap years |
| Calendar.YearStep | etl.py:162 | consecutive years begin a year's length apart (365 or 366 days) |
| Calendar.LeapCountStep | etl.py:162 | a year adds one to the count of leap years iff it is a leap year |
| Calendar.YearsBetween | etl.py:162 | the days between the starts of two years lie between 365 and 366 per year |
| Calendar.YearGuess | etl.py:162 | the first guess at a day's year never starts after that day |
| Calendar.YearsFromEpoch | etl.py:162 | bounds on the start of a year relative to 1970 |
| Calendar.YearFrom | etl.py:162 | the year search ends at the year whose span holds the day, not before the starting guess |
| Calendar.YearOf | etl.py:162 | the year of a day number is the one whose span holds it |
| Calendar.MonthOf | etl.py:161 | the month of a day of the year is the one whose span holds it |
| Calendar.CivilFromDays | etl.py:159-162 | the date of a day number is a valid date of that year, and converting it back gives the same day number |
| Calendar.DateWithinYear | etl.py:159-162 | a valid date's day number lies inside its year's span |
| Calendar.YearStartsIncrease | etl.py:162 | a later year starts no earlier than the end of an earlier one |
| Calendar.YearOfDayUnique | etl.py:162 | only one year's span holds a given day |
| Calendar.DaysFromCivilInjective | etl.py:159-162 | distinct valid dates have distinct day numbers |
| Calendar.MonthsIncrease | etl.py:161 | a later month starts no earlier than the end of an earlier one |
| Calendar.CivilFromDaysOfDate | etl.py:159-162 | every valid date is the date of its own day number, so the two conversions are inverse |
| Calendar.HourOf | etl.py:158 | the hour is 0..23 and the instant lies within that hour of its day |
| Calendar.DayOfWeek | etl.py:163 | `dayofweek` is 1..7 |
| Calendar.IsoWeekday | etl.py:160 | the ISO weekday is 1..7, one less than `dayofweek`, with Sunday 7 |
| Calendar.WeekThursday | etl.py:160 | the Thursday of the week holding a day is at most three days away and is a Thursday |
| Calendar.WeekOfYear | etl.py:160 | `weekofyear` is 1..53 |
| Calendar.InstantExample | etl.py:152-163 | instant 1541121934796 ms is on day 17837, in hour 1, on Friday (6), on 2018-11-02, in ISO week 44 |
| Calendar.ExampleDate | etl.py:159-162 | day 17837 is 2018-11-02 |
| Calendar.ExampleWeek | etl.py:160 | day 17837 is in ISO week 44 |
| Calendar.YearOfDay | etl.py:162 | a day inside a year's span has that year |
| Calendar.WeekdaysCycle | etl.py:163 | the epoch day is a Thursday (5) and `dayofweek` advances by one each day, cyclically |
| Calendar.JanuaryFourthInWeekOne | etl.py:160 | January 4 is always in ISO week 1 |
| Calendar.WeekConstantWithinWeek | etl.py:160 | the week number does not change from Monday to Sunday |
| Calendar.WeekOfThursday | etl.py:160 | a day has its week's Thursday's week number |
| Calendar.NextThursdaySameYear | etl.py:160 | within one year, the next Thursday is in the next week |
| Calendar.FirstThursdayOfYear | etl.py:160 | the year's first Thursday is in week 1 |
| Calendar.SundayToMonday | etl.py:160 | the Monday after a Sunday belongs to the next Thursday's week |
| Calendar.WeekAdvancesOnMonday | etl.py:160 | on a Monday the week number goes up by one or restarts at 1 |
| Calendar.MondaySameYear | etl.py:160 | a Monday whose Thursday stays in the same year starts the next week number |
| Calendar.MondayNewYear | etl.py:160 | a Monday whose Thursday falls in the next year starts week 1 |
| Calendar.ThursdayIntoNewYear | etl.py:160 | a Thursday one week after a Thursday of the previous year is in week 1 of its own year |
| SongCatalog.SongsTable | etl.py:63-69 | one songs row per song record, carrying its song_id, title, artist_id, year and duration unchanged |
| SongCatalog.ArtistsTable | etl.py:76-86 | one artists row per song record, with artist_name, artist_location, artist_latitude and artist_longitude renamed to name, location, latitude and longitude |
| SongCatalog.ArtistRowsPerArtistId | etl.py:76-86 | no deduplication by artist_id: the artists rows with an artist_id are exactly the projections of the song records with it, as many as there are such records |
| ActivityLog.SongPlayEvents | etl.py:133 | the kept events are exactly the input events whose page is NextSong, with their original multiplicity |
| ActivityLog.UsersTable | etl.py:136-145 | users has no two equal rows, and a row is present iff it is the renamed projection of some kept event |
| ActivityLog.LevelChangeKeepsBothRows | etl.py:145 | a user seen with two levels gets two distinct rows with the same user_id |
| ActivityLog.WithTimestamps | etl.py:152-153 | one row per event, carrying the event and the instant of its ts; a row is present iff its event is and its instant is that event's ts |
| ActivityLog.TimeEntryOf | etl.py:157-163 | every field of a time row depends only on its start_time: hour 0..23 within the instant's hour, a valid date (day at most the month's length) whose day number is the instant's day, week the ISO week (Calendar.WeekOfYear) of that day, 1..53, and weekday its `dayofweek` (Calendar.DayOfWeek), 1..7 |
| ActivityLog.TimeEntryOfExample | etl.py:152-163 | the time row of ts 1541121934796 has hour 1, day 2, week 44, month 11, year 2018 and weekday 6 |
| ActivityLog.TimeTable | etl.py:156-163 | time rows are distinct by start_time, each row is the decomposition of its start_time, each start_time is some event's timestamp and every event's timestamp has its row |
| SongPlays.SameArtist | etl.py:174 | definition: the view's join condition, equal artist_id; its properties are in rows SongPlays.SongArtistPairs and SongPlays.SongArtistView |
| SongPlays.SongArtistPairs | etl.py:173-174 | the song–artist join holds each (song, artist) pair with equal artist_id as often as the product of their multiplicities, and no other pair |
| SongPlays.ViewRow | etl.py:175-177 | definition: a view row takes song_id, title and duration from the song and artist_id and name (as artist_name) from the artist; its properties are in row SongPlays.SongArtistView |
| SongPlays.SongArtistView | etl.py:173-177 | one view row per joined pair, carrying the song's song_id, title and duration and the artist's artist_id and name; a row is present iff some song and artist with equal artist_id give it |
| SongPlays.Matches | etl.py:180-184 | definition: the songplays join condition, song = title, artist = artist_name and length = duration, all exact; its properties are in rows SongPlays.PlayPairs, SongPlays.SongPlaysTable and SongPlays.RowsOfPlay |
| SongPlays.PlayPairs | etl.py:180-185 | the songplays join holds each (event, view row) pair agreeing on title, artist name and duration as often as the product of their multiplicities, and no other pair |
| SongPlays.PlayRow | etl.py:186-194 | definition: a songplays row takes timestamp, userId, level, sessionId, location and userAgent from the event and song_id and artist_id from the view row, renamed; its properties are in rows SongPlays.SongPlaysTable and SongPlays.RowsOfPlay |
| SongPlays.SongPlaysTable | etl.py:185-194 | one row per joined pair, row i being the projection of pair i (so a view row occurring N times yields each matching play's row N times); a row is present iff some event matches some view row, and it carries the event's timestamp, userId, level, sessionId, location and userAgent with the view row's song_id and artist_id |
| SongPlays.RowsOfPlay | etl.py:180-188 | an event contributes no row iff no view row matches it; otherwise its rows are the projections of its matches |
| SongPlays.SongPlaysByPlay | etl.py:185-194 | songplays is built event by event, one event's matches followed by the rest, so an unmatched event adds nothing |
| Partitions.CheckPartitionColumns | etl.py:72 | a partitioned write is accepted iff every partition key is a column of the table; otherwise it reports the first missing key |
| Partitions.DimensionWritesAccepted | etl.py:72 | the songs write (year, artist_id) and the time write (year, month) name only columns their tables have |
| Partitions.SongplaysWriteAsWrittenRejected | etl.py:198 | the songplays write names year, which the songplays projection does not produce |
| Partitions.SongplaysForWrite | etl.py:186-198 | songplays rows with year and month added, equal to the year and month the time table holds for that start_time |
| Partitions.SongplaysWriteCorrectedAccepted | etl.py:198 | with year and month added, the songplays write names only present columns |
| Pipeline.ProcessSongData | etl.py:31-90 | definition: process_song_data's two tables; its properties are in rows SongCatalog.SongsTable, SongCatalog.ArtistsTable and Pipeline.SongDataOrderInsensitive |
| Pipeline.ProcessLogData | etl.py:93-199 | definition: process_log_data's three tables, with the songplays write corrected; its properties are in rows Pipeline.UsersComeFromSongPlays, Pipeline.TimeComesFromSongPlays, Pipeline.UnmatchedPlayKeepsUserDropsPlay and Pipeline.LogDataOrderInsensitive |
| Pipeline.Run | etl.py:207-212 | definition: main's two steps in order, the log step joining against the song step's tables; its properties are those of Pipeline.ProcessSongData and Pipeline.ProcessLogData |
| Pipeline.UsersComeFromSongPlays | etl.py:133-145 | a users row is present iff it is the projection of some NextSong event of the log |
| Pipeline.TimeComesFromSongPlays | etl.py:133-163 | every time row's start_time is the ts of some NextSong event, and every NextSong event's instant has its time row |
| Pipeline.ResolvedPlayInTable | etl.py:170-194 | a NextSong event that resolves to a cataloged song and artist gives its songplays row |
| Pipeline.TableRowResolved | etl.py:170-194 | every songplays row comes from a NextSong event resolved to a cataloged song and artist |
| Pipeline.SongplaysResolveAgainstCatalog | etl.py:170-194 | a songplays row is present iff some NextSong event agrees with a cataloged song, and an artist of that artist_id, on title, artist name and duration, and the row carries that event's columns and those ids |
| Pipeline.UnmatchedPlayKeepsUserDropsPlay | etl.py:133-194 | a NextSong event that matches no catalog entry still gives its user a row, but leaves songplays unchanged |
| Pipeline.SongDataOrderInsensitive | etl.py:63-86 | songs and artists depend only on the bag of song records |
| Pipeline.PlaysOrderInsensitive | etl.py:133 | the kept events depend only on the bag of log events |
| Pipeline.UsersOrderInsensitive | etl.py:136-145 | users depends only on the bag of kept events |
| Pipeline.TimeOrderInsensitive | etl.py:152-163 | time depends only on the bag of kept events |
| Pipeline.ViewOrderInsensitive | etl.py:173-177 | the song–artist view depends only on the bags of songs and artists |
| Pipeline.SongplaysOrderInsensitive | etl.py:180-194 | songplays depends only on the bags of timed events and view rows |
| Pipeline.LogDataOrderInsensitive | etl.py:133-194 | users, time and songplays depend only on the bags of log events, songs and artists |

## Left out

- Configuration and credentials (etl.py:13-17): reading `dl.cfg` and setting environment variables are side effects outside the transformation.
- Spark session creation (etl.py:20-28) and `main` (etl.py:202-212): these are infrastructure. `Pipeline.Run` stands for the two calls in order.
- Path building and globbing (etl.py:44, 106) and the JSON and parquet reads (etl.py:60, 130, 170-172): inputs are taken as already-typed row sequences.
  - Reading `songs` and `artists` back from parquet is taken as returning the tables just built.
  - Spark's permissive JSON parsing, which turns malformed values into nulls, is library behaviour. It is not modelled.
  - `nullable=False` columns are modelled as always present. Spark does not enforce that on read.
- Parquet writes, overwrite mode and the physical partition layout (etl.py:72-73, 89-90, 148-149, 166-167, 198-199): only the column-presence check of `partitionBy` is modelled. The debug `show(5)` (etl.py:195) is output only.
- `datetime.fromtimestamp(x/1000.0)` (etl.py:152) uses float division and the host's local timezone. The UDF returns a naive local datetime, which PySpark turns back into an instant using the worker's own timezone. Spark's session timezone then governs `hour`, `dayofmonth`, `weekofyear`, `month`, `year` and `dayofweek`.
  - The model takes the instant as integer milliseconds and reads its fields in UTC, with seconds rounded down.
  - Calendar.HourOf, Calendar.CivilFromDays, Calendar.WeekOfYear and Calendar.DayOfWeek therefore equal Spark's values only when the host and session timezones are UTC.
- DoubleType values (`duration`, `length`, coordinates, `registration`) are an abstract type with exact equality. No arithmetic or tolerance is modelled.
- Integer widths: `IntegerType` and `LongType` (`year`, `sessionId`, `ts`, ...) are unbounded integers, so 32- and 64-bit overflow is not modelled.
- Column names resolve case-insensitively in Spark. The model names columns exactly as the script writes them.
- The `method` log column is the field `httpMethod`, because `method` is a Dafny keyword.
- Lazy, distributed execution and shuffles are engine concerns, and Spark promises no row order. Most proved properties are about the bag of rows. Frames.Select, Frames.SelectAppend, Frames.WhereSelect, SongCatalog.SongsTable, SongCatalog.ArtistsTable, SongCatalog.ArtistRowsPerArtistId, ActivityLog.WithTimestamps, SongPlays.SongArtistView, SongPlays.SongPlaysTable, SongPlays.SongPlaysByPlay, Partitions.SongplaysForWrite and Pipeline.UnmatchedPlayKeepsUserDropsPlay state positional facts or equalities of sequences; they are stronger than needed, and each implies the same statement about the bags of rows.
- Pipeline.ProcessLogData models the corrected songplays write: as written, the run stops at etl.py:198 because the partition columns are missing, after `users` (etl.py:148) and `time` (etl.py:166) were written; that failure is stated by Partitions.SongplaysWriteAsWrittenRejected, not by Pipeline.ProcessLogData.
- Calendar.CivilFromDays and ActivityLog.TimeEntryOf are total: they return a proleptic Gregorian date for every integer day, including year 0, negative years and years past 9999. `datetime.fromtimestamp` at etl.py:152 raises an error when the year falls outside 1..9999 (about ts < -62135596800000 or ts >= 253402300800000 ms), and that error fails the job at the time write; this error path is not modelled.
- Calendar: dates use the proleptic Gregorian calendar, as Spark's does since version 3. The hybrid Julian calendar of older Spark versions before 1582 is not modelled.

## Findings

| source | as written | input that shows it | evidently intended | confidence | as-written member | corrected member |
|---|---|---|---|---|---|---|
| etl.py:186-198 | the songplays table is projected to start_time, user_id, level, song_id, artist_id, session_id, location and user_agent, then written with `partitionBy('year', 'month')` | any run: the partition column `year` is not a column of the table, so the write is refused | songplays carries the year and month of its start_time (as the time table does) and is partitioned by them | not executed | Partitions.SongplaysWriteAsWrittenRejected | Partitions.SongplaysForWrite, Partitions.SongplaysWriteCorrectedAccepted |
