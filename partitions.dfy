/**
 * The column-presence check behind each partitioned write: partitionBy
 * names columns that must be columns of the table written. The songplays
 * write names year and month, which the songplays projection does not
 * produce; SongplaysForWrite is the table with those two columns added.
 */
module Partitions {
  import opened Schema
  import opened Calendar
  import opened Frames
  import opened ActivityLog

  /** Columns of each partitioned table, in the order its select produces them. */
  const SongsColumns: seq<string> := ["song_id", "title", "artist_id", "year", "duration"]
  const TimeColumns: seq<string> := ["start_time", "hour", "day", "week", "month", "year", "weekday"]
  const SongplaysColumns: seq<string> :=
    ["start_time", "user_id", "level", "song_id", "artist_id", "session_id", "location", "user_agent"]

  /** Partition keys named by each write. */
  const SongsPartitionKeys: seq<string> := ["year", "artist_id"]
  const TimePartitionKeys: seq<string> := ["year", "month"]
  const SongplaysPartitionKeys: seq<string> := ["year", "month"]

  datatype WriteCheck = Accepted | PartitionColumnMissing(column: string)

  /**
   * A partitioned write is accepted iff every partition key is a column of
   * the table; otherwise the first key, in the order given, that is not a
   * column is reported.
   */
  function CheckPartitionColumns(columns: seq<string>, keys: seq<string>): (r: WriteCheck)
    ensures r.Accepted? <==> forall k :: k in keys ==> k in columns
    ensures r.PartitionColumnMissing? ==>
      exists i :: 0 <= i < |keys| && keys[i] == r.column && r.column !in columns &&
        forall j :: 0 <= j < i ==> keys[j] in columns
  {
    if keys == [] then Accepted
    else if keys[0] !in columns then PartitionColumnMissing(keys[0])
    else
      var r := CheckPartitionColumns(columns, keys[1..]);
      assert keys == [keys[0]] + keys[1..];
      if r.PartitionColumnMissing? then
        var i :| 0 <= i < |keys[1..]| && keys[1..][i] == r.column && r.column !in columns &&
                 forall j :: 0 <= j < i ==> keys[1..][j] in columns;
        assert keys[i + 1] == r.column;
        r
      else r
  }

  /** The songs and time writes name only columns their tables have. */
  lemma DimensionWritesAccepted()
    ensures CheckPartitionColumns(SongsColumns, SongsPartitionKeys) == Accepted
    ensures CheckPartitionColumns(TimeColumns, TimePartitionKeys) == Accepted
  {
    assert "year" in SongsColumns && "artist_id" in SongsColumns;
    assert "year" in TimeColumns && "month" in TimeColumns;
  }

  /** As written, the songplays write names `year`, which its projection lacks. */
  lemma SongplaysWriteAsWrittenRejected()
    ensures CheckPartitionColumns(SongplaysColumns, SongplaysPartitionKeys) == PartitionColumnMissing("year")
  {
    assert "year" !in SongplaysColumns by {
      forall i | 0 <= i < |SongplaysColumns| ensures SongplaysColumns[i] != "year" {
        assert SongplaysColumns[i][0] != 'y';
      }
    }
  }

  /** A songplays row together with the partition columns derived from its start_time. */
  datatype SongPlayRow = SongPlayRow(play: SongPlay, year: int, month: int)

  const SongplaysWriteColumns: seq<string> := SongplaysColumns + ["year", "month"]

  function WithPartitionColumns(p: SongPlay): SongPlayRow {
    var d := CivilFromDays(EpochDay(p.start_time.millis));
    SongPlayRow(p, d.year, d.month)
  }

  /**
   * The songplays table as it must be written: each row with year and month
   * of its start_time, the same values the time table holds for that instant.
   */
  function SongplaysForWrite(plays: seq<SongPlay>): (rows: seq<SongPlayRow>)
    ensures |rows| == |plays|
    ensures forall i :: 0 <= i < |plays| ==>
      && rows[i].play == plays[i]
      && rows[i].year == TimeEntryOf(plays[i].start_time).year
      && rows[i].month == TimeEntryOf(plays[i].start_time).month
  {
    Select(plays, WithPartitionColumns)
  }

  /** With year and month selected, the songplays write names only present columns. */
  lemma SongplaysWriteCorrectedAccepted()
    ensures CheckPartitionColumns(SongplaysWriteColumns, SongplaysPartitionKeys) == Accepted
  {
    assert SongplaysWriteColumns[8] == "year" && SongplaysWriteColumns[9] == "month";
  }
}
