/**
 * Consolidation across test files: every student key present in at least one
 * file gets one row with attendance, marks, percentage and dense rank, and the
 * rows are ordered by rank and then by display name.
 */
module Aggregation {
  import opened Text
  import opened Extraction
  import opened Ranking

  /** One row of the consolidated table. */
  datatype Row = Row(
    name: string,
    totalTests: nat,
    present: nat,
    absent: int,
    totalMarks: int,
    obtained: real,
    percentage: real,
    rank: nat)

  /** The batch's total maximum: the sum of the test maxima of all read files. */
  function TotalMax(records: seq<PerTestRecord>): real
    decreases |records|
  {
    if |records| == 0 then 0.0
    else TotalMax(records[..|records| - 1]) + records[|records| - 1].fileMax
  }

  /** all_students: the union of the present sets of all files. */
  function Students(records: seq<PerTestRecord>): set<string>
    decreases |records|
  {
    if |records| == 0 then {}
    else Students(records[..|records| - 1]) + records[|records| - 1].present
  }

  /** A student is listed exactly when some file has them present. */
  lemma {:induction false} StudentsExactly(records: seq<PerTestRecord>)
    ensures forall k :: k in Students(records) <==> exists i :: 0 <= i < |records| && k in records[i].present
    decreases |records|
  {
    if |records| > 0 {
      var init := records[..|records| - 1];
      StudentsExactly(init);
      assert forall i :: 0 <= i < |init| ==> init[i] == records[i];
    }
  }

  /** The student's score in one file, 0 when the file has no score for the key. */
  function Score(k: string, r: PerTestRecord): real {
    if k in r.scores then r.scores[k] else 0.0
  }

  /** tests_present: the number of files in which the student is present. */
  function PresentCount(k: string, records: seq<PerTestRecord>): nat
    decreases |records|
  {
    if |records| == 0 then 0
    else PresentCount(k, records[..|records| - 1]) + (if k in records[|records| - 1].present then 1 else 0)
  }

  /** total_obtained: the student's scores summed over the files they are present in. */
  function ObtainedSum(k: string, records: seq<PerTestRecord>): real
    decreases |records|
  {
    if |records| == 0 then 0.0
    else
      var last := records[|records| - 1];
      ObtainedSum(k, records[..|records| - 1]) + (if k in last.present then Score(k, last) else 0.0)
  }

  /**
   * Attendance is at most the number of files, and it is positive exactly
   * when the student is present in some file.
   */
  lemma {:induction false} PresentCountSpec(k: string, records: seq<PerTestRecord>)
    ensures PresentCount(k, records) <= |records|
    ensures PresentCount(k, records) > 0 <==> exists i :: 0 <= i < |records| && k in records[i].present
    decreases |records|
  {
    if |records| > 0 {
      var init := records[..|records| - 1];
      PresentCountSpec(k, init);
      assert forall i :: 0 <= i < |init| ==> init[i] == records[i];
    }
  }

  /** A student's mark only collects files they are present in: absent files add nothing. */
  lemma {:induction false} ObtainedIgnoresAbsent(k: string, records: seq<PerTestRecord>)
    requires forall i :: 0 <= i < |records| ==> k !in records[i].present
    ensures ObtainedSum(k, records) == 0.0
    decreases |records|
  {
    if |records| > 0 {
      ObtainedIgnoresAbsent(k, records[..|records| - 1]);
    }
  }

  /** Non-negative scores give a non-negative total, bounded by the sum of the file maxima when each score is. */
  lemma {:induction false} ObtainedBounds(k: string, records: seq<PerTestRecord>)
    requires forall i :: 0 <= i < |records| ==> 0.0 <= Score(k, records[i]) <= records[i].fileMax
    ensures 0.0 <= ObtainedSum(k, records) <= TotalMax(records)
    decreases |records|
  {
    if |records| > 0 {
      ObtainedBounds(k, records[..|records| - 1]);
    }
  }

  /** int(x): truncation toward zero. */
  function Trunc(x: real): (r: int)
    ensures x >= 0.0 ==> r as real <= x < r as real + 1.0
    ensures x < 0.0 ==> r as real - 1.0 < x <= r as real
  {
    if x >= 0.0 then x.Floor else -((-x).Floor)
  }

  /** The percentage of the total maximum, or 0 when the total maximum is not positive. */
  function Percentage(obtained: real, totalMax: real): real {
    if totalMax > 0.0 then obtained / totalMax * 100.0 else 0.0
  }

  /** The percentage scales the mark to a total of 100, and is 0 without a positive total. */
  lemma PercentageSpec(obtained: real, totalMax: real)
    ensures totalMax > 0.0 ==> Percentage(obtained, totalMax) * totalMax == obtained * 100.0
    ensures totalMax > 0.0 && 0.0 <= obtained <= totalMax ==> 0.0 <= Percentage(obtained, totalMax) <= 100.0
    ensures totalMax <= 0.0 ==> Percentage(obtained, totalMax) == 0.0
  {
    if totalMax > 0.0 && 0.0 <= obtained <= totalMax {
      assert obtained / totalMax <= 1.0;
    }
  }

  /** The dictionary appended to final_records for one student; the Rank column does not exist yet (0). */
  function MakeRow(k: string, tests: nat, present: nat, obtained: real, totalMax: real): Row {
    Row(Title(k), tests, present, tests - present, Trunc(totalMax), obtained, Percentage(obtained, totalMax), 0)
  }

  /** The row of student k before ranking. */
  function StudentRow(k: string, records: seq<PerTestRecord>): Row {
    MakeRow(k, |records|, PresentCount(k, records), ObtainedSum(k, records), TotalMax(records))
  }

  /** Attendance adds up: present + absent is the number of files, and a listed student was present at least once. */
  lemma StudentRowAttendance(k: string, records: seq<PerTestRecord>)
    ensures var r := StudentRow(k, records);
            r.present + r.absent == r.totalTests == |records| && 0 <= r.absent <= r.totalTests
    ensures k in Students(records) ==> StudentRow(k, records).present >= 1
  {
    PresentCountSpec(k, records);
    StudentsExactly(records);
  }

  /** The distinct marks of all students: the values the Rank column ranks. */
  function Marks(records: seq<PerTestRecord>): set<real> {
    set k | k in Students(records) :: ObtainedSum(k, records)
  }

  /** Student k's final row: the dense descending rank of their mark among all marks. */
  function FinalRow(k: string, records: seq<PerTestRecord>): Row {
    StudentRow(k, records).(rank := DenseRank(ObtainedSum(k, records), Marks(records)))
  }

  /**
   * Between two students, equal marks give equal ranks and a higher mark a
   * strictly better (smaller) rank, in both directions; every rank lies
   * between 1 and the number of distinct marks.
   */
  lemma FinalRanks(k1: string, k2: string, records: seq<PerTestRecord>)
    requires k1 in Students(records) && k2 in Students(records)
    ensures FinalRow(k1, records).rank == FinalRow(k2, records).rank <==> ObtainedSum(k1, records) == ObtainedSum(k2, records)
    ensures FinalRow(k1, records).rank < FinalRow(k2, records).rank <==> ObtainedSum(k1, records) > ObtainedSum(k2, records)
    ensures 1 <= FinalRow(k1, records).rank <= |Marks(records)|
  {
    DenseRankIff(ObtainedSum(k1, records), ObtainedSum(k2, records), Marks(records));
    DenseRankBounds(ObtainedSum(k1, records), Marks(records));
  }

  /** Some student has rank 1, and every worse rank is one step below some other student's. */
  lemma FinalRanksGapFree(k: string, records: seq<PerTestRecord>)
    requires k in Students(records)
    ensures exists top :: top in Students(records) && FinalRow(top, records).rank == 1
    ensures FinalRow(k, records).rank > 1 ==>
      exists k' :: k' in Students(records) && FinalRow(k', records).rank == FinalRow(k, records).rank - 1
  {
    var marks := Marks(records);
    var m := ObtainedSum(k, records);
    if DenseRank(m, marks) > 1 {
      DenseRankGapFree(m, marks);
      var y :| y in marks && DenseRank(y, marks) == DenseRank(m, marks) - 1;
      var k' :| k' in Students(records) && ObtainedSum(k', records) == y;
      assert FinalRow(k', records).rank == FinalRow(k, records).rank - 1;
    }
    var best := HasMax(marks, m);
    var top :| top in Students(records) && ObtainedSum(top, records) == best;
    DenseRankTop(best, marks);
    assert FinalRow(top, records).rank == 1;
  }

  /**
   * Distinct students have distinct display names when their keys hold no
   * upper-case letter (as normalised keys never do), so no two final rows
   * share a name.
   */
  lemma FinalNamesDistinct(records: seq<PerTestRecord>)
    requires forall k :: k in Students(records) ==> NoUpper(k)
    ensures forall r1, r2 :: r1 in FinalRows(records) && r2 in FinalRows(records) && r1 != r2 ==> r1.name != r2.name
  {
    forall r1, r2 | r1 in FinalRows(records) && r2 in FinalRows(records) && r1 != r2 ensures r1.name != r2.name {
      var k1 :| k1 in Students(records) && r1 == FinalRow(k1, records);
      var k2 :| k2 in Students(records) && r2 == FinalRow(k2, records);
      if r1.name == r2.name {
        TitleInjective(k1, k2, false);
      }
    }
  }

  /** Sort key order: rank ascending, then display name ascending. */
  predicate RowLe(a: Row, b: Row) {
    a.rank < b.rank || (a.rank == b.rank && StrLe(a.name, b.name))
  }

  predicate SortedRows(rows: seq<Row>) {
    forall i, j :: 0 <= i < j < |rows| ==> RowLe(rows[i], rows[j])
  }

  lemma RowLeTotal(a: Row, b: Row)
    ensures RowLe(a, b) || RowLe(b, a)
  {
    StrLeTotal(a.name, b.name);
  }

  lemma RowLeTrans(a: Row, b: Row, c: Row)
    requires RowLe(a, b) && RowLe(b, c)
    ensures RowLe(a, c)
  {
    if a.rank == b.rank == c.rank {
      StrLeTrans(a.name, b.name, c.name);
    }
  }

  /** Insert a row into a sorted sequence, before the first row it does not follow. */
  function InsertRow(r: Row, rows: seq<Row>): (out: seq<Row>)
    ensures |out| == |rows| + 1
    decreases |rows|
  {
    if |rows| == 0 || RowLe(r, rows[0]) then [r] + rows
    else [rows[0]] + InsertRow(r, rows[1..])
  }

  lemma {:induction false} InsertRowSpec(r: Row, rows: seq<Row>)
    requires SortedRows(rows)
    ensures multiset(InsertRow(r, rows)) == multiset(rows) + multiset{r}
    ensures SortedRows(InsertRow(r, rows))
    decreases |rows|
  {
    if |rows| == 0 {
    } else if RowLe(r, rows[0]) {
      var out := [r] + rows;
      forall i, j | 0 <= i < j < |out| ensures RowLe(out[i], out[j]) {
        if i == 0 && j > 1 {
          RowLeTrans(r, rows[0], rows[j - 1]);
        }
      }
    } else {
      RowLeTotal(r, rows[0]);
      var tail := InsertRow(r, rows[1..]);
      InsertRowSpec(r, rows[1..]);
      assert rows == [rows[0]] + rows[1..];
      var out := [rows[0]] + tail;
      forall i, j | 0 <= i < j < |out| ensures RowLe(out[i], out[j]) {
        if i == 0 {
          assert out[j] in multiset(tail);
          assert out[j] in multiset(rows[1..]) + multiset{r};
          if out[j] != r {
            var m :| 1 <= m < |rows| && rows[m] == out[j];
          }
        }
      }
    }
  }

  /** The consolidated table sorted by rank, then by name. */
  function SortRows(rows: seq<Row>): (out: seq<Row>)
    ensures |out| == |rows|
    decreases |rows|
  {
    if |rows| == 0 then [] else InsertRow(rows[0], SortRows(rows[1..]))
  }

  /** The sorted table is ordered by rank, then name, and holds exactly the same rows. */
  lemma {:induction false} SortRowsSpec(rows: seq<Row>)
    ensures SortedRows(SortRows(rows))
    ensures multiset(SortRows(rows)) == multiset(rows)
    decreases |rows|
  {
    if |rows| > 0 {
      SortRowsSpec(rows[1..]);
      InsertRowSpec(rows[0], SortRows(rows[1..]));
      assert rows == [rows[0]] + rows[1..];
    }
  }

  // ---------------- the consolidation block ----------------

  /** The union of the present sets, built file by file. */
  method CollectStudents(records: seq<PerTestRecord>) returns (all: set<string>)
    ensures all == Students(records)
  {
    all := {};
    var i := 0;
    while i < |records|
      invariant 0 <= i <= |records|
      invariant all == Students(records[..i])
    {
      assert records[..i + 1][..i] == records[..i];
      all := all + records[i].present;
      i := i + 1;
    }
    assert records[..|records|] == records;
  }

  /** The inner loop over the files for one student: attendance and summed score. */
  method Tally(k: string, records: seq<PerTestRecord>) returns (present: nat, obtained: real)
    ensures present == PresentCount(k, records)
    ensures obtained == ObtainedSum(k, records)
  {
    present, obtained := 0, 0.0;
    var i := 0;
    while i < |records|
      invariant 0 <= i <= |records|
      invariant present == PresentCount(k, records[..i])
      invariant obtained == ObtainedSum(k, records[..i])
    {
      assert records[..i + 1][..i] == records[..i];
      if k in records[i].present {
        present := present + 1;
        obtained := obtained + Score(k, records[i]);
      }
      i := i + 1;
    }
    assert records[..|records|] == records;
  }

  /** A row built from a student's tallies is that student's row. */
  lemma TalliedRow(k: string, records: seq<PerTestRecord>, present: nat, obtained: real)
    requires present == PresentCount(k, records) && obtained == ObtainedSum(k, records)
    ensures StudentRow(k, records) == MakeRow(k, |records|, present, obtained, TotalMax(records))
  {
  }

  /**
   * The loop over all_students, in whatever order the set yields them: one
   * row per student, before ranking. The ghost `keys` records which student
   * each row belongs to.
   */
  method BuildRows(records: seq<PerTestRecord>, students: set<string>, totalMax: real, tests: nat)
      returns (rows: seq<Row>, ghost keys: seq<string>)
    requires totalMax == TotalMax(records) && tests == |records|
    ensures |rows| == |keys| == |students|
    ensures forall i :: 0 <= i < |rows| ==> rows[i] == StudentRow(keys[i], records)
    ensures forall k :: k in students <==> k in keys
  {
    hide *;
    rows, keys := [], [];
    var remaining := students;
    while remaining != {}
      invariant remaining <= students
      invariant |rows| == |keys| && |keys| + |remaining| == |students|
      invariant forall i :: 0 <= i < |rows| ==> rows[i] == StudentRow(keys[i], records)
      invariant forall k :: k in keys <==> k in students && k !in remaining
      decreases |remaining|
    {
      ghost var some := Element(remaining);
      var k :| k in remaining;
      var present, obtained := Tally(k, records);
      var row := MakeRow(k, tests, present, obtained, totalMax);
      TalliedRow(k, records, present, obtained);
      rows, keys := rows + [row], keys + [k];
      remaining := remaining - {k};
    }
  }

  /** The distinct Obtained values of a table. */
  function RowMarks(rows: seq<Row>): set<real> {
    set i | 0 <= i < |rows| :: rows[i].obtained
  }

  /** The Rank column: each row's dense descending rank among the table's marks. */
  function RankRows(rows: seq<Row>): (out: seq<Row>)
    ensures |out| == |rows|
  {
    seq(|rows|, i requires 0 <= i < |rows| => rows[i].(rank := DenseRank(rows[i].obtained, RowMarks(rows))))
  }

  /** Ranking the rows of all students gives each student's final row. */
  lemma RankRowsSpec(rows: seq<Row>, keys: seq<string>, records: seq<PerTestRecord>)
    requires |rows| == |keys|
    requires forall i :: 0 <= i < |rows| ==> rows[i] == StudentRow(keys[i], records)
    requires forall k :: k in Students(records) <==> k in keys
    ensures forall i :: 0 <= i < |rows| ==> RankRows(rows)[i] == FinalRow(keys[i], records)
  {
    assert RowMarks(rows) == Marks(records) by {
      forall v | v in RowMarks(rows) ensures v in Marks(records) {
        var i :| 0 <= i < |rows| && rows[i].obtained == v;
        assert keys[i] in Students(records);
      }
      forall v | v in Marks(records) ensures v in RowMarks(rows) {
        var k :| k in Students(records) && ObtainedSum(k, records) == v;
        var i :| 0 <= i < |keys| && keys[i] == k;
        assert rows[i].obtained == v;
      }
    }
  }

  /** The rows the consolidated table must hold: every student's final row. */
  function FinalRows(records: seq<PerTestRecord>): set<Row> {
    set k | k in Students(records) :: FinalRow(k, records)
  }

  /** Sorting keeps every row and adds none. */
  lemma SortKeepsRows(rows: seq<Row>, r: Row)
    ensures r in SortRows(rows) <==> r in rows
  {
    SortRowsSpec(rows);
    assert r in SortRows(rows) <==> r in multiset(SortRows(rows));
    assert r in rows <==> r in multiset(rows);
  }

  /**
   * The consolidation block: one row per student present in some file, each
   * the student's final row, ordered by rank and then by name.
   */
  method Consolidate(records: seq<PerTestRecord>) returns (rows: seq<Row>)
    ensures |rows| == |Students(records)|
    ensures forall i :: 0 <= i < |rows| ==> rows[i] in FinalRows(records)
    ensures forall k :: k in Students(records) ==> FinalRow(k, records) in rows
    ensures SortedRows(rows)
  {
    hide StudentRow, MakeRow, InsertRow, SortRows, DenseRank, RankRows;
    var totalMax := TotalMax(records);
    var tests := |records|;
    var students := CollectStudents(records);
    var built, keys := BuildRows(records, students, totalMax, tests);
    var ranked := RankRows(built);
    RankRowsSpec(built, keys, records);
    rows := SortRows(ranked);
    SortRowsSpec(ranked);
    forall i | 0 <= i < |rows| ensures rows[i] in FinalRows(records) {
      SortKeepsRows(ranked, rows[i]);
      var j :| 0 <= j < |ranked| && ranked[j] == rows[i];
      assert keys[j] in Students(records);
    }
    forall k | k in Students(records) ensures FinalRow(k, records) in rows {
      var j :| 0 <= j < |keys| && keys[j] == k;
      SortKeepsRows(ranked, ranked[j]);
    }
  }
}
