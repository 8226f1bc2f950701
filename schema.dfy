/**
 * Column sniffing: which column of a test file holds the student's name,
 * the test maximum and the obtained score. Each search is first-match-wins
 * over the columns in file order.
 */
module Schema {
  import opened Wrappers
  import opened Text
  import opened Tables

  // ---------------- student name (find_name_series) ----------------

  const NameKeywords: seq<string> :=
    ["name", "student name", "student", "full name", "studentname", "candidate"]

  /** The form of a header compared with the keywords: lower-cased, then stripped. */
  function HeaderKey(name: string): string {
    Trim(Lower(name))
  }

  predicate IsFirstName(c: Column) { Lower(c.name) == "firstname" }

  predicate IsLastName(c: Column) { Lower(c.name) == "lastname" }

  predicate LooseName(c: Column) {
    Contains(Lower(c.name), "name") || Contains(Lower(c.name), "student")
  }

  /** Where the names come from: a first/last pair, a keyword column, a loose match, or nowhere. */
  datatype NameSource =
    | FirstLast(first: nat, last: nat)
    | Keyword(key: nat, col: nat)
    | Loose(col: nat)
    | Synthetic

  predicate HasHeader(cols: seq<Column>, key: string) {
    exists j :: 0 <= j < |cols| && HeaderKey(cols[j].name) == key
  }

  /**
   * The keyword search: keywords are tried in order, and for each keyword the
   * columns in order; the result is (keyword index, column index).
   */
  function KeywordMatch(cols: seq<Column>, keys: seq<string>): Option<(nat, nat)>
    decreases |keys|
  {
    if |keys| == 0 then None
    else match FirstIndex(cols, (c: Column) => HeaderKey(c.name) == keys[0])
      case Some(j) => Some((0, j))
      case None =>
        match KeywordMatch(cols, keys[1..])
        case None => None
        case Some(m) => Some((m.0 + 1, m.1))
  }

  /**
   * KeywordMatch names the first keyword that some header equals, and the
   * first column with that header; it finds nothing only when no header
   * equals any keyword.
   */
  lemma {:induction false} KeywordMatchSpec(cols: seq<Column>, keys: seq<string>)
    ensures KeywordMatch(cols, keys).Some? ==>
              var m := KeywordMatch(cols, keys).value;
              && m.0 < |keys| && m.1 < |cols| && HeaderKey(cols[m.1].name) == keys[m.0]
              && (forall k :: 0 <= k < m.0 ==> !HasHeader(cols, keys[k]))
              && (forall j :: 0 <= j < m.1 ==> HeaderKey(cols[j].name) != keys[m.0])
    ensures KeywordMatch(cols, keys).None? <==> forall k :: 0 <= k < |keys| ==> !HasHeader(cols, keys[k])
    decreases |keys|
  {
    if |keys| > 0 {
      var p := (c: Column) => HeaderKey(c.name) == keys[0];
      FirstIndexSpec(cols, p);
      KeywordMatchSpec(cols, keys[1..]);
      assert forall k :: 1 <= k < |keys| ==> keys[k] == keys[1..][k - 1];
      if FirstIndex(cols, p).None? {
        assert !HasHeader(cols, keys[0]) by {
          forall j | 0 <= j < |cols| ensures HeaderKey(cols[j].name) != keys[0] {
            assert !p(cols[j]);
          }
        }
      } else {
        var j := FirstIndex(cols, p).value;
        assert p(cols[j]);
        forall i | 0 <= i < j ensures HeaderKey(cols[i].name) != keys[0] {
          assert !p(cols[i]);
        }
      }
    }
  }

  /**
   * The name column, by the priority of find_name_series: a firstname and a
   * lastname column together beat any keyword; keywords are tried in their
   * listed order; then the first header containing "name" or "student";
   * otherwise there is no name column.
   */
  function NameColumn(cols: seq<Column>): NameSource {
    var f := FirstIndex(cols, IsFirstName);
    var l := FirstIndex(cols, IsLastName);
    if f.Some? && l.Some? then FirstLast(f.value, l.value)
    else match KeywordMatch(cols, NameKeywords)
      case Some(m) => Keyword(m.0, m.1)
      case None =>
        match FirstIndex(cols, LooseName)
        case Some(j) => Loose(j)
        case None => Synthetic
  }

  /** Some column's header equals some keyword. */
  predicate AnyKeyword(cols: seq<Column>) {
    exists k :: 0 <= k < |NameKeywords| && HasHeader(cols, NameKeywords[k])
  }

  /** The choice NameColumn makes, case by case, with the priority that decides it. */
  lemma NameColumnSpec(cols: seq<Column>)
    ensures var r := NameColumn(cols);
      && (r.FirstLast? <==>
            (exists j :: 0 <= j < |cols| && IsFirstName(cols[j]))
            && (exists j :: 0 <= j < |cols| && IsLastName(cols[j])))
      && (r.FirstLast? ==>
            && r.first < |cols| && IsFirstName(cols[r.first])
            && (forall j :: 0 <= j < r.first ==> !IsFirstName(cols[j]))
            && r.last < |cols| && IsLastName(cols[r.last])
            && (forall j :: 0 <= j < r.last ==> !IsLastName(cols[j])))
      && (r.Keyword? <==> !r.FirstLast? && AnyKeyword(cols))
      && (r.Keyword? ==>
            && r.key < |NameKeywords| && r.col < |cols|
            && HeaderKey(cols[r.col].name) == NameKeywords[r.key]
            && (forall k :: 0 <= k < r.key ==> !HasHeader(cols, NameKeywords[k]))
            && (forall j :: 0 <= j < r.col ==> HeaderKey(cols[j].name) != NameKeywords[r.key]))
      && (r.Loose? <==>
            !r.FirstLast? && !AnyKeyword(cols) && (exists j :: 0 <= j < |cols| && LooseName(cols[j])))
      && (r.Loose? ==>
            r.col < |cols| && LooseName(cols[r.col]) && (forall j :: 0 <= j < r.col ==> !LooseName(cols[j])))
      && (r.Synthetic? <==>
            !r.FirstLast? && !AnyKeyword(cols) && (forall j :: 0 <= j < |cols| ==> !LooseName(cols[j])))
  {
    FirstIndexSpec(cols, IsFirstName);
    FirstIndexSpec(cols, IsLastName);
    FirstIndexSpec(cols, LooseName);
    KeywordMatchSpec(cols, NameKeywords);
  }

  /** The text of each cell of a column, stripped; a missing cell reads "nan". */
  function StrippedTexts(cells: seq<Cell>): (r: seq<string>)
    ensures |r| == |cells|
    decreases |cells|
  {
    if |cells| == 0 then [] else [Trim(CellText(cells[0]))] + StrippedTexts(cells[1..])
  }

  lemma {:induction false} StrippedTextsAt(cells: seq<Cell>)
    ensures forall i :: 0 <= i < |cells| ==> StrippedTexts(cells)[i] == Trim(CellText(cells[i]))
    decreases |cells|
  {
    if |cells| > 0 {
      StrippedTextsAt(cells[1..]);
      assert forall i :: 1 <= i < |cells| ==> StrippedTexts(cells)[i] == StrippedTexts(cells[1..])[i - 1];
    }
  }

  /** First and last names joined by one space, row by row. */
  function JoinNames(first: seq<string>, last: seq<string>): (r: seq<string>)
    requires |first| == |last|
    ensures |r| == |first|
    decreases |first|
  {
    if |first| == 0 then [] else [first[0] + " " + last[0]] + JoinNames(first[1..], last[1..])
  }

  lemma {:induction false} JoinNamesAt(first: seq<string>, last: seq<string>)
    requires |first| == |last|
    ensures forall i :: 0 <= i < |first| ==> JoinNames(first, last)[i] == first[i] + " " + last[i]
    decreases |first|
  {
    if |first| > 0 {
      JoinNamesAt(first[1..], last[1..]);
      assert forall i :: 1 <= i < |first| ==> JoinNames(first, last)[i] == JoinNames(first[1..], last[1..])[i - 1];
    }
  }

  /** The synthetic name of row i (0-based) when no name column exists. */
  function SyntheticName(i: nat): string {
    "Student " + NatToString(i + 1)
  }

  /** find_name_series. */
  function FindNameSeries(t: Table): (r: seq<string>)
    requires WellFormed(t)
    ensures |r| == t.rows
  {
    NameColumnSpec(t.cols);
    match NameColumn(t.cols)
    case FirstLast(f, l) => JoinNames(StrippedTexts(t.cols[f].cells), StrippedTexts(t.cols[l].cells))
    case Keyword(_, j) => StrippedTexts(t.cols[j].cells)
    case Loose(j) => StrippedTexts(t.cols[j].cells)
    case Synthetic => seq(t.rows, i requires 0 <= i => SyntheticName(i))
  }

  /** Exactly one identity per row, taken from the column NameColumn picks. */
  lemma NameSeriesSpec(t: Table)
    requires WellFormed(t)
    ensures var src := NameColumn(t.cols); var r := FindNameSeries(t);
      && (src.FirstLast? ==> src.first < |t.cols| && src.last < |t.cols| && forall i :: 0 <= i < t.rows ==>
            r[i] == Trim(CellText(t.cols[src.first].cells[i])) + " " + Trim(CellText(t.cols[src.last].cells[i])))
      && (src.Keyword? || src.Loose? ==> src.col < |t.cols| && forall i :: 0 <= i < t.rows ==>
            r[i] == Trim(CellText(t.cols[src.col].cells[i])))
      && (src.Synthetic? ==> forall i :: 0 <= i < t.rows ==> r[i] == SyntheticName(i))
  {
    NameColumnSpec(t.cols);
    match NameColumn(t.cols)
    case FirstLast(f, l) =>
      StrippedTextsAt(t.cols[f].cells);
      StrippedTextsAt(t.cols[l].cells);
      JoinNamesAt(StrippedTexts(t.cols[f].cells), StrippedTexts(t.cols[l].cells));
    case Keyword(_, j) => StrippedTextsAt(t.cols[j].cells);
    case Loose(j) => StrippedTextsAt(t.cols[j].cells);
    case Synthetic =>
  }

  // ---------------- test maximum (find_possible_pts) ----------------

  const ExactPossibleHeaders: seq<string> :=
    ["possiblepts", "possible_pts", "possible points", "possible", "max marks"]

  const LoosePossibleWords: seq<string> := ["possible", "max", "maximum", "totalmarks"]

  /** A column whose stripped, lower-cased header is one of the exact headers and which has a number. */
  predicate ExactPossible(c: Column) {
    Lower(Trim(c.name)) in ExactPossibleHeaders && HasNumber(c.cells)
  }

  /** A column whose lower-cased header contains one of the loose words and which has a number. */
  predicate LoosePossible(c: Column) {
    (exists w :: 0 <= w < |LoosePossibleWords| && Contains(Lower(c.name), LoosePossibleWords[w]))
    && HasNumber(c.cells)
  }

  /** find_possible_pts. */
  function FindPossiblePts(t: Table): Option<real> {
    FirstIndexSpec(t.cols, ExactPossible);
    FirstIndexSpec(t.cols, LoosePossible);
    match FirstIndex(t.cols, ExactPossible)
    case Some(j) => Some(Parsed(t.cols[j].cells)[0])
    case None =>
      match FirstIndex(t.cols, LoosePossible)
      case Some(j) => Some(SeqMax(Parsed(t.cols[j].cells)))
      case None => None
  }

  /** There is a test maximum exactly when some column qualifies under either rule. */
  lemma PossibleNone(t: Table)
    ensures FindPossiblePts(t).None? <==>
              forall j :: 0 <= j < |t.cols| ==> !ExactPossible(t.cols[j]) && !LoosePossible(t.cols[j])
  {
    FirstIndexSpec(t.cols, ExactPossible);
    FirstIndexSpec(t.cols, LoosePossible);
  }

  /**
   * The first exact-header column with a number gives the test maximum: the
   * number of its first cell that parses.
   */
  lemma PossibleFromExact(t: Table, j: nat)
    requires j < |t.cols| && ExactPossible(t.cols[j])
    requires forall k :: 0 <= k < j ==> !ExactPossible(t.cols[k])
    ensures exists i :: 0 <= i < |t.cols[j].cells|
              && FindPossiblePts(t) == Num(t.cols[j].cells[i])
              && forall h :: 0 <= h < i ==> Num(t.cols[j].cells[h]).None?
  {
    FirstIndexIs(t.cols, ExactPossible, j);
    ParsedSpec(t.cols[j].cells);
  }

  /**
   * Without one, the first loose-header column with a number gives the test
   * maximum: the largest number in that column, whatever later loose columns hold.
   */
  lemma PossibleFromLoose(t: Table, j: nat)
    requires forall k :: 0 <= k < |t.cols| ==> !ExactPossible(t.cols[k])
    requires j < |t.cols| && LoosePossible(t.cols[j])
    requires forall k :: 0 <= k < j ==> !LoosePossible(t.cols[k])
    ensures FindPossiblePts(t).Some?
    ensures exists i :: 0 <= i < |t.cols[j].cells| && Num(t.cols[j].cells[i]) == FindPossiblePts(t)
    ensures forall i :: 0 <= i < |t.cols[j].cells| && Num(t.cols[j].cells[i]).Some? ==>
              Num(t.cols[j].cells[i]).value <= FindPossiblePts(t).value
  {
    FirstIndexSpec(t.cols, ExactPossible);
    FirstIndexIs(t.cols, LoosePossible, j);
    var cells := t.cols[j].cells;
    ParsedSpec(cells);
    SeqMaxSpec(Parsed(cells));
    forall i | 0 <= i < |cells| && Num(cells[i]).Some?
      ensures Num(cells[i]).value <= FindPossiblePts(t).value
    {
      var v := Num(cells[i]).value;
      assert v in Parsed(cells);
    }
  }

  // ---------------- obtained score (extract_obtained_series) ----------------

  /** The header, lower-cased with spaces removed, names the score outright. */
  predicate DirectScore(c: Column) {
    var clean := RemoveSpaces(Lower(c.name));
    Contains(clean, "earnedpts") || Contains(clean, "obtainedmarks") || clean == "score"
  }

  /** Headers containing "phone", "id" or "roll" are never taken as the score. */
  predicate Excluded(c: Column) {
    var l := Lower(c.name);
    Contains(l, "phone") || Contains(l, "id") || Contains(l, "roll")
  }

  /** A column that enters the ranking: not excluded, and with at least one number. */
  predicate Candidate(c: Column) {
    !Excluded(c) && HasNumber(c.cells)
  }

  /**
   * Among the first n columns that `keep` admits and that hold a number, the
   * one with the highest mean; on equal means the earliest column wins, as the
   * stable descending sort leaves it first.
   */
  function BestMean(cols: seq<Column>, keep: Column -> bool, n: nat): (r: Option<nat>)
    requires n <= |cols|
    ensures r.Some? ==> r.value < n && keep(cols[r.value]) && HasNumber(cols[r.value].cells)
  {
    if n == 0 then None
    else
      var b := BestMean(cols, keep, n - 1);
      if keep(cols[n - 1]) && HasNumber(cols[n - 1].cells)
         && (b.None? || Mean(cols[n - 1].cells) > Mean(cols[b.value].cells))
      then Some(n - 1)
      else b
  }

  /** Column j has the highest mean among the first n admitted columns, and no earlier one ties it. */
  predicate IsBestMean(cols: seq<Column>, keep: Column -> bool, n: nat, j: int)
    requires n <= |cols|
  {
    && 0 <= j < n && keep(cols[j]) && HasNumber(cols[j].cells)
    && (forall k :: 0 <= k < n && keep(cols[k]) && HasNumber(cols[k].cells) ==>
          Mean(cols[k].cells) <= Mean(cols[j].cells))
    && (forall k :: 0 <= k < j && keep(cols[k]) && HasNumber(cols[k].cells) ==>
          Mean(cols[k].cells) < Mean(cols[j].cells))
  }

  /** BestMean finds the best admitted column, and finds nothing only when none is admitted. */
  lemma {:induction false} BestMeanSpec(cols: seq<Column>, keep: Column -> bool, n: nat)
    requires n <= |cols|
    ensures BestMean(cols, keep, n).Some? ==> IsBestMean(cols, keep, n, BestMean(cols, keep, n).value)
    ensures BestMean(cols, keep, n).None? <==>
              forall j :: 0 <= j < n ==> !(keep(cols[j]) && HasNumber(cols[j].cells))
    decreases n
  {
    if n > 0 {
      BestMeanSpec(cols, keep, n - 1);
    }
  }

  /** extract_obtained_series: one number per row. */
  function ExtractObtainedSeries(t: Table): (r: seq<real>)
    requires WellFormed(t)
    ensures |r| == t.rows
  {
    FirstIndexSpec(t.cols, DirectScore);
    match FirstIndex(t.cols, DirectScore)
    case Some(j) => Coerce(t.cols[j].cells)
    case None =>
      match BestMean(t.cols, c => !Excluded(c), |t.cols|)
      case Some(j) => Coerce(t.cols[j].cells)
      case None => seq(t.rows, i => 0.0)
  }

  /** The first column whose header names the score outright is the score column. */
  lemma ObtainedFromDirect(t: Table, j: nat)
    requires WellFormed(t)
    requires j < |t.cols| && DirectScore(t.cols[j])
    requires forall k :: 0 <= k < j ==> !DirectScore(t.cols[k])
    ensures forall i :: 0 <= i < t.rows ==> ExtractObtainedSeries(t)[i] == Num(t.cols[j].cells[i]).GetOr(0.0)
  {
    FirstIndexIs(t.cols, DirectScore, j);
    CoerceAt(t.cols[j].cells);
  }

  /**
   * Without such a column, the non-excluded numeric column with the highest
   * mean is the score column, the earliest one on equal means.
   */
  lemma ObtainedFromBestMean(t: Table, j: nat)
    requires WellFormed(t)
    requires forall k :: 0 <= k < |t.cols| ==> !DirectScore(t.cols[k])
    requires IsBestMean(t.cols, c => !Excluded(c), |t.cols|, j)
    ensures forall i :: 0 <= i < t.rows ==> ExtractObtainedSeries(t)[i] == Num(t.cols[j].cells[i]).GetOr(0.0)
  {
    FirstIndexSpec(t.cols, DirectScore);
    BestMeanSpec(t.cols, c => !Excluded(c), |t.cols|);
    assert BestMean(t.cols, c => !Excluded(c), |t.cols|) == Some(j);
    CoerceAt(t.cols[j].cells);
  }

  /** Without any usable column, every row scores 0. */
  lemma ObtainedAllZero(t: Table)
    requires WellFormed(t)
    requires forall k :: 0 <= k < |t.cols| ==> !DirectScore(t.cols[k]) && !Candidate(t.cols[k])
    ensures forall i :: 0 <= i < t.rows ==> ExtractObtainedSeries(t)[i] == 0.0
  {
    FirstIndexSpec(t.cols, DirectScore);
    BestMeanSpec(t.cols, c => !Excluded(c), |t.cols|);
  }
}
