/**
 * One press of the generate button, from the uploaded tables to the
 * consolidated table, the awards list and the page count of the report.
 */
module Pipeline {
  import opened Wrappers
  import opened Tables
  import opened Extraction
  import opened Aggregation
  import opened Awards
  import opened Layout
  import opened Ranking
  import opened Names
  import opened Schema

  /** How a run ends. */
  datatype Outcome =
    | Stopped     // no uploaded file could be read: the run stops before any report
    | NoStudents  // files were read but no row had a name: the Rank column cannot be built
    | Done(rows: seq<Row>, awards: seq<Award>, pages: nat)

  /** The per-file records of the readable files, in upload order. */
  function Records(files: seq<Option<Table>>): (records: seq<PerTestRecord>)
    requires AllWellFormed(files)
    ensures |records| == |Readable(files)|
  {
    var tables := Readable(files);
    seq(|tables|, j requires 0 <= j < |tables| => RecordOf(tables[j]))
  }

  /** Every student of a run is a normalised key: trimmed, single-spaced, lower-case. */
  lemma StudentsAreKeys(files: seq<Option<Table>>)
    requires AllWellFormed(files)
    ensures forall k :: k in Students(Records(files)) ==> IsKey(k) && k != ""
  {
    var records := Records(files);
    var tables := Readable(files);
    StudentsExactly(records);
    forall k | k in Students(records) ensures IsKey(k) && k != "" {
      var i :| 0 <= i < |records| && k in records[i].present;
      var t := tables[i];
      RecordFromShape(FindPossiblePts(t), FindNameSeries(t), ExtractObtainedSeries(t));
      var names := FindNameSeries(t);
      var j :| 0 <= j < |names| && NormalizeName(names[j]) == k && k != "";
      NormalizeShape(names[j]);
    }
  }

  /** A table holding every student's final row has a row of rank 1. */
  lemma RankOneHeld(records: seq<PerTestRecord>, rows: seq<Row>)
    requires Students(records) != {}
    requires forall k :: k in Students(records) ==> FinalRow(k, records) in rows
    ensures exists j :: 0 <= j < |rows| && rows[j].rank == 1
  {
    var k := Element(Students(records));
    FinalRanksGapFree(k, records);
    var top :| top in Students(records) && FinalRow(top, records).rank == 1;
    var j :| 0 <= j < |rows| && rows[j] == FinalRow(top, records);
  }

  /**
   * The run stops exactly when no file is readable and fails exactly when
   * the readable files name no student; otherwise the report holds one
   * final row per student, ordered by rank and name, the awards chosen from
   * that table, and the table pages plus the summary and awards pages.
   */
  method Generate(files: seq<Option<Table>>) returns (out: Outcome)
    requires AllWellFormed(files)
    ensures out.Stopped? <==> Readable(files) == []
    ensures out.NoStudents? <==> Readable(files) != [] && Students(Records(files)) == {}
    ensures out.Done? ==>
      |out.rows| == |Students(Records(files))| > 0 &&
      (forall i :: 0 <= i < |out.rows| ==> out.rows[i] in FinalRows(Records(files))) &&
      (forall k :: k in Students(Records(files)) ==> FinalRow(k, Records(files)) in out.rows) &&
      SortedRows(out.rows) &&
      (forall i, j :: 0 <= i < |out.rows| && 0 <= j < |out.rows| && out.rows[i] != out.rows[j] ==>
        out.rows[i].name != out.rows[j].name) &&
      out.awards == AwardList(out.rows) &&
      Vikramaditya in Categories(out.awards) && Eklavya in Categories(out.awards) &&
      out.pages == TotalPages(|out.rows|)
  {
    hide AwardList, Categories, FinalRows, FinalRow, SortedRows, RecordOf;
    var records := ExtractAll(files);
    assert records == Records(files);
    if records == [] {
      return Stopped;
    }
    var rows := Consolidate(records);
    if rows == [] {
      return NoStudents;
    }
    var awards := SelectAwards(rows);
    RankOneHeld(records, rows);
    StudentsAreKeys(files);
    FinalNamesDistinct(records);
    AwardListSpec(rows);
    out := Done(rows, awards, TotalPages(|rows|));
  }
}
