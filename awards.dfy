/**
 * The awards page: five fixed awards chosen from the consolidated table
 * (already ordered by rank, then name). Ranks 1, 2 and 3 each name the first
 * row holding that rank; the attendance award names up to three fully
 * present students by mark; the rising-star award names every row of rank 4
 * or 5 in table order.
 */
module Awards {
  import opened Wrappers
  import opened Tables
  import opened Aggregation

  /** The five award categories, in the order the page lists them. */
  datatype Category = Vikramaditya | Chanakya | Arjuna | Eklavya | Dhruva

  /** The category's title as printed in the first column. */
  function CategoryName(c: Category): string {
    match c
    case Vikramaditya => "Vikramaditya Excellence Award"
    case Chanakya => "Chanakya Niti Award"
    case Arjuna => "Arjuna Focus Award"
    case Eklavya => "Eklavya Dedication Award"
    case Dhruva => "Dhruva Tara Award"
  }

  /** The description column; the attendance award words it differently when nobody qualifies. */
  function Description(c: Category, anyone: bool): string {
    match c
    case Vikramaditya => "For Highest Score (Rank 1)"
    case Chanakya => "For Outstanding Intelligence (Rank 2)"
    case Arjuna => "For Unwavering Focus (Rank 3)"
    case Eklavya => if anyone then "For 100% Attendance & Dedication" else "For 100% Attendance"
    case Dhruva => "Consistent Performer (Rising Star)"
  }

  const NoCandidates := "No Candidates"

  /** One line of the awards table: category, description, winner(s). */
  datatype Award = Award(category: Category, description: string, winners: string)

  // ---------------- selecting rows in table order ----------------

  /** The rows that satisfy p, in table order (a boolean mask over a DataFrame). */
  function Filter<T>(s: seq<T>, p: T -> bool): (r: seq<T>)
    ensures |r| == |Positions(s, p, 0)|
  {
    var pos := Positions(s, p, 0);
    PositionsSpec(s, p, 0);
    seq(|pos|, i requires 0 <= i < |pos| => s[pos[i]])
  }

  /**
   * The filtered rows are the rows satisfying p, each taken once from its
   * own index, in increasing index order; no row satisfying p is dropped.
   */
  lemma FilterSpec<T>(s: seq<T>, p: T -> bool)
    ensures var pos := Positions(s, p, 0);
      (forall i :: 0 <= i < |pos| ==> pos[i] < |s| && p(s[pos[i]]) && Filter(s, p)[i] == s[pos[i]]) &&
      (forall i, j :: 0 <= i < j < |pos| ==> pos[i] < pos[j]) &&
      (forall k :: 0 <= k < |s| && p(s[k]) ==> k in pos)
  {
    PositionsSpec(s, p, 0);
  }

  /** Every filtered row satisfies p and comes from the table; every row satisfying p is kept. */
  lemma FilterMembers<T>(s: seq<T>, p: T -> bool)
    ensures forall i :: 0 <= i < |Filter(s, p)| ==> p(Filter(s, p)[i]) && Filter(s, p)[i] in s
    ensures forall k :: 0 <= k < |s| && p(s[k]) ==> s[k] in Filter(s, p)
    ensures Filter(s, p) == [] <==> forall k :: 0 <= k < |s| ==> !p(s[k])
  {
    var pos := Positions(s, p, 0);
    FilterSpec(s, p);
    forall k | 0 <= k < |s| && p(s[k]) ensures s[k] in Filter(s, p) {
      var i :| 0 <= i < |pos| && pos[i] == k;
      assert Filter(s, p)[i] == s[k];
    }
    if Filter(s, p) != [] {
      assert p(s[pos[0]]);
    }
  }

  /** The names separated by a comma and a space. */
  function JoinComma(names: seq<string>): (r: string)
    ensures |names| == 1 ==> r == names[0]
    ensures |names| == 0 ==> r == []
    decreases |names|
  {
    if |names| == 0 then []
    else if |names| == 1 then names[0]
    else names[0] + ", " + JoinComma(names[1..])
  }

  /** The Name column of some rows. */
  function Names(rows: seq<Row>): (r: seq<string>)
    ensures |r| == |rows| && forall i :: 0 <= i < |rows| ==> r[i] == rows[i].name
  {
    seq(|rows|, i requires 0 <= i < |rows| => rows[i].name)
  }

  // ---------------- ranks 1 to 3 ----------------

  function HasRank(r: nat): Row -> bool {
    (row: Row) => row.rank == r
  }

  /** The award for rank r, naming the first row of that rank, if that rank is held. */
  function RankAward(rows: seq<Row>, r: nat, category: Category): Option<Award> {
    match FirstIndex(rows, HasRank(r))
    case None => None
    case Some(i) =>
      FirstIndexSpec(rows, HasRank(r));
      Some(Award(category, Description(category, true), rows[i].name))
  }

  /**
   * The rank-r award exists exactly when some row has rank r, and it names
   * the earliest such row in table order (the first by name among the tied).
   */
  lemma RankAwardSpec(rows: seq<Row>, r: nat, category: Category)
    ensures RankAward(rows, r, category).Some? <==> exists j :: 0 <= j < |rows| && rows[j].rank == r
    ensures RankAward(rows, r, category).Some? ==>
      exists j :: 0 <= j < |rows| && rows[j].rank == r && (forall k :: 0 <= k < j ==> rows[k].rank != r) &&
        RankAward(rows, r, category).value.winners == rows[j].name
  {
    FirstIndexSpec(rows, HasRank(r));
    match FirstIndex(rows, HasRank(r))
    case None =>
    case Some(i) =>
      assert HasRank(r)(rows[i]);
      assert forall k :: 0 <= k < i ==> !HasRank(r)(rows[k]);
  }

  // ---------------- attendance ----------------

  function FullyPresent(): Row -> bool {
    (row: Row) => row.absent == 0
  }

  predicate Descending(rows: seq<Row>) {
    forall i, j :: 0 <= i < j < |rows| ==> rows[i].obtained >= rows[j].obtained
  }

  /** Insert a row before the first row whose mark does not exceed it. */
  function InsertDesc(r: Row, rows: seq<Row>): (out: seq<Row>)
    ensures |out| == |rows| + 1
    decreases |rows|
  {
    if |rows| == 0 || r.obtained >= rows[0].obtained then [r] + rows
    else [rows[0]] + InsertDesc(r, rows[1..])
  }

  lemma {:induction false} InsertDescSpec(r: Row, rows: seq<Row>)
    requires Descending(rows)
    ensures multiset(InsertDesc(r, rows)) == multiset(rows) + multiset{r}
    ensures Descending(InsertDesc(r, rows))
    decreases |rows|
  {
    if |rows| > 0 && r.obtained < rows[0].obtained {
      var tail := InsertDesc(r, rows[1..]);
      InsertDescSpec(r, rows[1..]);
      assert rows == [rows[0]] + rows[1..];
      HeadDominates(rows, r, tail);
      DescendingCons(rows[0], tail);
    }
  }

  /** The first row of a descending table scores at least as much as any rearrangement of the rest plus a lower row. */
  lemma HeadDominates(rows: seq<Row>, r: Row, tail: seq<Row>)
    requires |rows| > 0 && Descending(rows) && r.obtained < rows[0].obtained
    requires multiset(tail) == multiset(rows[1..]) + multiset{r}
    ensures forall j :: 0 <= j < |tail| ==> rows[0].obtained >= tail[j].obtained
  {
    forall j | 0 <= j < |tail| ensures rows[0].obtained >= tail[j].obtained {
      assert tail[j] in multiset(tail);
      if tail[j] != r {
        assert tail[j] in multiset(rows[1..]);
        var m :| 0 <= m < |rows[1..]| && rows[1..][m] == tail[j];
        assert rows[m + 1] == tail[j];
      }
    }
  }

  lemma DescendingCons(x: Row, rows: seq<Row>)
    requires Descending(rows)
    requires forall j :: 0 <= j < |rows| ==> x.obtained >= rows[j].obtained
    ensures Descending([x] + rows)
  {
    var out := [x] + rows;
    forall i, j | 0 <= i < j < |out| ensures out[i].obtained >= out[j].obtained {
      if i > 0 {
        assert out[i] == rows[i - 1] && out[j] == rows[j - 1];
      }
    }
  }

  /** Rows sorted by mark, highest first; equal marks keep their table order. */
  function SortDesc(rows: seq<Row>): (out: seq<Row>)
    ensures |out| == |rows|
    decreases |rows|
  {
    if |rows| == 0 then [] else InsertDesc(rows[0], SortDesc(rows[1..]))
  }

  /** The sorted rows are in descending mark order and are the same rows. */
  lemma {:induction false} SortDescSpec(rows: seq<Row>)
    ensures Descending(SortDesc(rows))
    ensures multiset(SortDesc(rows)) == multiset(rows)
    decreases |rows|
  {
    if |rows| > 0 {
      SortDescSpec(rows[1..]);
      InsertDescSpec(rows[0], SortDesc(rows[1..]));
      assert rows == [rows[0]] + rows[1..];
    }
  }

  /** The fully present rows, best mark first, at most three of them. */
  function AttendancePicks(rows: seq<Row>): (picks: seq<Row>)
    ensures |picks| <= 3
  {
    var sorted := SortDesc(Filter(rows, FullyPresent()));
    if |sorted| <= 3 then sorted else sorted[..3]
  }

  /**
   * The attendance picks are fully present rows of the table, each taken at
   * most as often as it is fully present, best mark first; there are three
   * of them unless fewer students were never absent;
   * and any fully present row left out scores no more than every pick.
   */
  lemma AttendancePicksSpec(rows: seq<Row>)
    ensures var picks := AttendancePicks(rows);
      var full := Filter(rows, FullyPresent());
      |picks| == (if |full| < 3 then |full| else 3) &&
      multiset(picks) <= multiset(full) &&
      (forall i :: 0 <= i < |picks| ==> picks[i].absent == 0 && picks[i] in rows) &&
      Descending(picks) &&
      (forall k, i :: 0 <= k < |rows| && rows[k].absent == 0 && rows[k] !in picks && 0 <= i < |picks| ==>
        rows[k].obtained <= picks[i].obtained)
  {
    hide Filter, Positions, SortDesc, InsertDesc;
    var full := Filter(rows, FullyPresent());
    var sorted := SortDesc(full);
    var picks := AttendancePicks(rows);
    FilterMembers(rows, FullyPresent());
    SortDescSpec(full);
    assert picks == sorted[..|picks|];
    PicksFromFull(rows);
    forall i | 0 <= i < |picks| ensures picks[i].absent == 0 && picks[i] in rows {
      assert picks[i] in multiset(full);
      var m :| 0 <= m < |full| && full[m] == picks[i];
      assert FullyPresent()(full[m]);
    }
    forall k, i | 0 <= k < |rows| && rows[k].absent == 0 && rows[k] !in picks && 0 <= i < |picks|
      ensures rows[k].obtained <= picks[i].obtained
    {
      assert FullyPresent()(rows[k]);
      assert rows[k] in multiset(sorted);
      var m :| 0 <= m < |sorted| && sorted[m] == rows[k];
    }
  }

  /** The picks are drawn from the fully present rows, none more often than it occurs there. */
  lemma PicksFromFull(rows: seq<Row>)
    ensures multiset(AttendancePicks(rows)) <= multiset(Filter(rows, FullyPresent()))
  {
    hide Filter, Positions, InsertDesc;
    var full := Filter(rows, FullyPresent());
    var sorted := SortDesc(full);
    var picks := AttendancePicks(rows);
    SortDescSpec(full);
    assert sorted == picks + sorted[|picks|..];
  }

  /** There is no attendance pick exactly when every student missed a test. */
  lemma AttendancePicksEmpty(rows: seq<Row>)
    ensures AttendancePicks(rows) == [] <==> forall k :: 0 <= k < |rows| ==> rows[k].absent != 0
  {
    FilterMembers(rows, FullyPresent());
    var full := Filter(rows, FullyPresent());
    SortDescSpec(full);
    if full != [] {
      assert full[0] in multiset(SortDesc(full));
    }
  }

  /** The attendance award is always listed; its winners are the picks or "No Candidates". */
  function AttendanceAward(rows: seq<Row>): Award {
    var picks := AttendancePicks(rows);
    if picks != [] then Award(Eklavya, Description(Eklavya, true), JoinComma(Names(picks)))
    else Award(Eklavya, Description(Eklavya, false), NoCandidates)
  }

  // ---------------- ranks 4 and 5 ----------------

  function RisingStar(): Row -> bool {
    (row: Row) => row.rank == 4 || row.rank == 5
  }

  /** The rows of rank 4 or 5, in table order. */
  function RisingRows(rows: seq<Row>): seq<Row> {
    Filter(rows, RisingStar())
  }

  /**
   * The rising-star rows are the rows of rank 4 or 5, in table order: they
   * come from strictly increasing indices, and none of rank 4 or 5 is missed.
   */
  lemma RisingRowsSpec(rows: seq<Row>)
    ensures var pos := Positions(rows, RisingStar(), 0);
      |RisingRows(rows)| == |pos| &&
      (forall i :: 0 <= i < |pos| ==>
        pos[i] < |rows| && RisingRows(rows)[i] == rows[pos[i]] && (rows[pos[i]].rank == 4 || rows[pos[i]].rank == 5)) &&
      (forall i, j :: 0 <= i < j < |pos| ==> pos[i] < pos[j]) &&
      (forall k :: 0 <= k < |rows| && (rows[k].rank == 4 || rows[k].rank == 5) ==> k in pos)
  {
    FilterSpec(rows, RisingStar());
    PositionsSpec(rows, RisingStar(), 0);
    var pos := Positions(rows, RisingStar(), 0);
    forall i | 0 <= i < |pos| ensures rows[pos[i]].rank == 4 || rows[pos[i]].rank == 5 {
      assert RisingStar()(rows[pos[i]]);
    }
    forall k | 0 <= k < |rows| && (rows[k].rank == 4 || rows[k].rank == 5) ensures k in pos {
      assert RisingStar()(rows[k]);
    }
  }

  function RisingAward(rows: seq<Row>): Option<Award> {
    var rising := RisingRows(rows);
    if rising == [] then None
    else Some(Award(Dhruva, Description(Dhruva, true), JoinComma(Names(rising))))
  }

  // ---------------- the awards list ----------------

  function Listed(a: Option<Award>): seq<Award> {
    if a.Some? then [a.value] else []
  }

  /** The awards in the order the page lists them. */
  function AwardList(rows: seq<Row>): seq<Award> {
    Listed(RankAward(rows, 1, Vikramaditya)) + Listed(RankAward(rows, 2, Chanakya)) + Listed(RankAward(rows, 3, Arjuna))
      + [AttendanceAward(rows)] + Listed(RisingAward(rows))
  }

  /** awards_list, appended award by award. */
  method SelectAwards(rows: seq<Row>) returns (awards: seq<Award>)
    ensures awards == AwardList(rows)
  {
    hide Description, Filter, Positions, SortDesc, JoinComma, Names, AttendancePicks, RisingRows;
    FirstIndexSpec(rows, HasRank(1));
    FirstIndexSpec(rows, HasRank(2));
    FirstIndexSpec(rows, HasRank(3));
    awards := [];
    var first := FirstIndex(rows, HasRank(1));
    if first.Some? {
      awards := awards + [Award(Vikramaditya, Description(Vikramaditya, true), rows[first.value].name)];
    }
    assert awards == Listed(RankAward(rows, 1, Vikramaditya));
    var second := FirstIndex(rows, HasRank(2));
    if second.Some? {
      awards := awards + [Award(Chanakya, Description(Chanakya, true), rows[second.value].name)];
    }
    assert awards == Listed(RankAward(rows, 1, Vikramaditya)) + Listed(RankAward(rows, 2, Chanakya));
    var third := FirstIndex(rows, HasRank(3));
    if third.Some? {
      awards := awards + [Award(Arjuna, Description(Arjuna, true), rows[third.value].name)];
    }
    assert awards == Listed(RankAward(rows, 1, Vikramaditya)) + Listed(RankAward(rows, 2, Chanakya))
      + Listed(RankAward(rows, 3, Arjuna));
    ghost var ranked := awards;
    var full := AttendancePicks(rows);
    if full != [] {
      awards := awards + [Award(Eklavya, Description(Eklavya, true), JoinComma(Names(full)))];
    } else {
      awards := awards + [Award(Eklavya, Description(Eklavya, false), NoCandidates)];
    }
    assert awards == ranked + [AttendanceAward(rows)];
    ghost var listed := awards;
    var rising := RisingRows(rows);
    if rising != [] {
      awards := awards + [Award(Dhruva, Description(Dhruva, true), JoinComma(Names(rising)))];
    }
    assert awards == listed + Listed(RisingAward(rows));
  }

  /** The category column of an awards table. */
  function Categories(awards: seq<Award>): (r: seq<Category>)
    ensures |r| == |awards| && forall i :: 0 <= i < |awards| ==> r[i] == awards[i].category
  {
    seq(|awards|, i requires 0 <= i < |awards| => awards[i].category)
  }

  lemma CategoriesAppend(a: seq<Award>, b: seq<Award>)
    ensures Categories(a + b) == Categories(a) + Categories(b)
  {
  }

  function CategoryOf(a: Option<Award>): seq<Category> {
    if a.Some? then [a.value.category] else []
  }

  /** The category column of the awards list, slot by slot. */
  lemma AwardCategories(rows: seq<Row>)
    ensures Categories(AwardList(rows)) ==
      CategoryOf(RankAward(rows, 1, Vikramaditya)) + CategoryOf(RankAward(rows, 2, Chanakya))
        + CategoryOf(RankAward(rows, 3, Arjuna)) + [Eklavya] + CategoryOf(RisingAward(rows))
  {
    hide Description, RankAward, AttendancePicks, RisingAward;
    var l1, l2, l3 := Listed(RankAward(rows, 1, Vikramaditya)), Listed(RankAward(rows, 2, Chanakya)), Listed(RankAward(rows, 3, Arjuna));
    var l4, l5 := [AttendanceAward(rows)], Listed(RisingAward(rows));
    CategoriesAppend(l1, l2);
    CategoriesAppend(l1 + l2, l3);
    CategoriesAppend(l1 + l2 + l3, l4);
    CategoriesAppend(l1 + l2 + l3 + l4, l5);
    assert Categories(l1) == CategoryOf(RankAward(rows, 1, Vikramaditya));
    assert Categories(l2) == CategoryOf(RankAward(rows, 2, Chanakya));
    assert Categories(l3) == CategoryOf(RankAward(rows, 3, Arjuna));
    assert Categories(l4) == [Eklavya];
    assert Categories(l5) == CategoryOf(RisingAward(rows));
  }

  /** A rank award's slot holds its category exactly when the rank is held. */
  lemma RankSlot(rows: seq<Row>, r: nat, c: Category)
    ensures CategoryOf(RankAward(rows, r, c)) == if exists j :: 0 <= j < |rows| && rows[j].rank == r then [c] else []
  {
    RankAwardSpec(rows, r, c);
  }

  /** The rising-star slot holds its category exactly when rank 4 or 5 is held. */
  lemma RisingSlot(rows: seq<Row>)
    ensures CategoryOf(RisingAward(rows)) ==
      if exists j :: 0 <= j < |rows| && (rows[j].rank == 4 || rows[j].rank == 5) then [Dhruva] else []
  {
    hide Description, Positions, JoinComma, Names;
    FilterMembers(rows, RisingStar());
    if exists j :: 0 <= j < |rows| && (rows[j].rank == 4 || rows[j].rank == 5) {
      var j :| 0 <= j < |rows| && (rows[j].rank == 4 || rows[j].rank == 5);
      assert RisingStar()(rows[j]);
    }
    if RisingAward(rows).Some? {
      var j :| 0 <= j < |rows| && RisingStar()(rows[j]);
    }
  }

  /**
   * The page lists between one and five awards; the attendance award is
   * always there; each rank award is there exactly when its rank is held,
   * and the rising-star award exactly when some row has rank 4 or 5.
   */
  lemma AwardListSpec(rows: seq<Row>)
    ensures 1 <= |AwardList(rows)| <= 5
    ensures Eklavya in Categories(AwardList(rows))
    ensures Vikramaditya in Categories(AwardList(rows)) <==> exists j :: 0 <= j < |rows| && rows[j].rank == 1
    ensures Chanakya in Categories(AwardList(rows)) <==> exists j :: 0 <= j < |rows| && rows[j].rank == 2
    ensures Arjuna in Categories(AwardList(rows)) <==> exists j :: 0 <= j < |rows| && rows[j].rank == 3
    ensures Dhruva in Categories(AwardList(rows)) <==>
      exists j :: 0 <= j < |rows| && (rows[j].rank == 4 || rows[j].rank == 5)
  {
    hide *;
    AwardCategories(rows);
    RankSlot(rows, 1, Vikramaditya);
    RankSlot(rows, 2, Chanakya);
    RankSlot(rows, 3, Arjuna);
    RisingSlot(rows);
    ghost var c1, c2, c3, c5 := CategoryOf(RankAward(rows, 1, Vikramaditya)), CategoryOf(RankAward(rows, 2, Chanakya)),
      CategoryOf(RankAward(rows, 3, Arjuna)), CategoryOf(RisingAward(rows));
    ghost var cats := Categories(AwardList(rows));
    assert cats == c1 + c2 + c3 + [Eklavya] + c5;
    assert |cats| == |AwardList(rows)|;
    assert Vikramaditya in cats <==> Vikramaditya in c1;
    assert Chanakya in cats <==> Chanakya in c2;
    assert Arjuna in cats <==> Arjuna in c3;
    assert Dhruva in cats <==> Dhruva in c5;
  }
}
