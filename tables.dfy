/**
 * One parsed test file: named columns of cells, and the few pandas
 * operations the pipeline applies to a column.
 */
module Tables {
  import opened Wrappers

  /**
   * A cell as read from the file. `text` is what astype(str) shows for it and
   * `num` is what pd.to_numeric(..., errors='coerce') makes of it (None for NaN).
   * A Missing cell is NaN: astype(str) renders it "nan" and it never parses.
   */
  datatype Cell = Missing | Value(text: string, num: Option<real>)

  datatype Column = Column(name: string, cells: seq<Cell>)

  /** A table of `rows` rows; every column has one cell per row. */
  datatype Table = Table(rows: nat, cols: seq<Column>)

  predicate WellFormed(t: Table) {
    forall j :: 0 <= j < |t.cols| ==> |t.cols[j].cells| == t.rows
  }

  function CellText(c: Cell): string {
    match c
    case Missing => "nan"
    case Value(text, _) => text
  }

  function Num(c: Cell): Option<real> {
    match c
    case Missing => None
    case Value(_, n) => n
  }

  /** The first index whose element satisfies p, scanning from the front. */
  function FirstIndex<T>(s: seq<T>, p: T -> bool): Option<nat>
    decreases |s|
  {
    if |s| == 0 then None
    else if p(s[0]) then Some(0)
    else match FirstIndex(s[1..], p)
      case None => None
      case Some(i) => Some(i + 1)
  }

  /** FirstIndex finds the earliest match, and finds nothing only when nothing matches. */
  lemma {:induction false} FirstIndexSpec<T>(s: seq<T>, p: T -> bool)
    ensures FirstIndex(s, p).Some? ==> FirstIndex(s, p).value < |s| && p(s[FirstIndex(s, p).value])
    ensures FirstIndex(s, p).Some? ==> forall j :: 0 <= j < FirstIndex(s, p).value ==> !p(s[j])
    ensures FirstIndex(s, p).None? ==> forall j :: 0 <= j < |s| ==> !p(s[j])
    decreases |s|
  {
    if |s| > 0 && !p(s[0]) {
      FirstIndexSpec(s[1..], p);
      assert forall j :: 1 <= j < |s| ==> s[j] == s[1..][j - 1];
    }
  }

  /** The index of the first match is determined by the match predicate alone. */
  lemma FirstIndexIs<T>(s: seq<T>, p: T -> bool, j: nat)
    requires j < |s| && p(s[j])
    requires forall k :: 0 <= k < j ==> !p(s[k])
    ensures FirstIndex(s, p) == Some(j)
  {
    FirstIndexSpec(s, p);
  }

  /** The indices from `from` on whose elements satisfy p, in increasing order. */
  function Positions<T>(s: seq<T>, p: T -> bool, from: nat): seq<nat>
    requires from <= |s|
    decreases |s| - from
  {
    if from == |s| then []
    else if p(s[from]) then [from] + Positions(s, p, from + 1)
    else Positions(s, p, from + 1)
  }

  /**
   * Positions lists, in strictly increasing order, exactly the indices at or
   * after `from` whose elements satisfy p.
   */
  lemma {:induction false} PositionsSpec<T>(s: seq<T>, p: T -> bool, from: nat)
    requires from <= |s|
    ensures forall i :: 0 <= i < |Positions(s, p, from)| ==>
      from <= Positions(s, p, from)[i] < |s| && p(s[Positions(s, p, from)[i]])
    ensures forall i, j :: 0 <= i < j < |Positions(s, p, from)| ==> Positions(s, p, from)[i] < Positions(s, p, from)[j]
    ensures forall k :: from <= k < |s| && p(s[k]) ==> k in Positions(s, p, from)
    decreases |s| - from
  {
    if from < |s| {
      PositionsSpec(s, p, from + 1);
    }
  }

  /** The values of the cells that parse as numbers, in row order (unparseable cells dropped). */
  function Parsed(cells: seq<Cell>): (vals: seq<real>)
    ensures |vals| <= |cells|
    decreases |cells|
  {
    if |cells| == 0 then []
    else (if Num(cells[0]).Some? then [Num(cells[0]).value] else []) + Parsed(cells[1..])
  }

  /** Some cell of the column parses as a number. */
  predicate HasNumber(cells: seq<Cell>) {
    |Parsed(cells)| > 0
  }

  /**
   * The parsed values are exactly the numbers of the cells that parse, and
   * the first of them belongs to the first cell that parses.
   */
  lemma {:induction false} ParsedSpec(cells: seq<Cell>)
    ensures forall v :: v in Parsed(cells) <==> exists i :: 0 <= i < |cells| && Num(cells[i]) == Some(v)
    ensures HasNumber(cells) <==> exists i :: 0 <= i < |cells| && Num(cells[i]).Some?
    ensures HasNumber(cells) ==>
              exists i :: 0 <= i < |cells| && Num(cells[i]) == Some(Parsed(cells)[0])
                          && forall j :: 0 <= j < i ==> Num(cells[j]).None?
    decreases |cells|
  {
    if |cells| > 0 {
      ParsedSpec(cells[1..]);
      assert forall i :: 1 <= i < |cells| ==> cells[i] == cells[1..][i - 1];
      if Num(cells[0]).Some? {
        assert Num(cells[0]) == Some(Parsed(cells)[0]);
      } else {
        assert Parsed(cells) == Parsed(cells[1..]);
        if HasNumber(cells) {
          var i :| 0 <= i < |cells[1..]| && Num(cells[1..][i]) == Some(Parsed(cells)[0])
                   && forall j :: 0 <= j < i ==> Num(cells[1..][j]).None?;
          assert Num(cells[i + 1]) == Some(Parsed(cells)[0]);
        }
        forall i | 0 <= i < |cells| && Num(cells[i]).Some?
          ensures exists k :: 0 <= k < |cells[1..]| && Num(cells[1..][k]).Some?
        {
          assert Num(cells[1..][i - 1]).Some?;
        }
      }
    }
  }

  /** A cell that parses as a number. */
  function Parses(): Cell -> bool {
    (c: Cell) => Num(c).Some?
  }

  lemma {:induction false} ParsedFrom(cells: seq<Cell>, from: nat)
    requires from <= |cells|
    ensures var pos := Positions(cells, Parses(), from);
      |Parsed(cells[from..])| == |pos| &&
      forall j :: 0 <= j < |pos| ==> pos[j] < |cells| && Num(cells[pos[j]]) == Some(Parsed(cells[from..])[j])
    decreases |cells| - from
  {
    if from < |cells| {
      ParsedFrom(cells, from + 1);
      PositionsSpec(cells, Parses(), from + 1);
      assert cells[from..][1..] == cells[from + 1..];
      assert cells[from..][0] == cells[from];
    }
  }

  /**
   * The parsed values come one per parsing cell, in row order: the j-th value
   * is the number of the j-th cell that parses, so repeats are kept.
   */
  lemma ParsedInOrder(cells: seq<Cell>)
    ensures var pos := Positions(cells, Parses(), 0);
      |Parsed(cells)| == |pos| &&
      forall j :: 0 <= j < |pos| ==> pos[j] < |cells| && Num(cells[pos[j]]) == Some(Parsed(cells)[j])
  {
    ParsedFrom(cells, 0);
    assert cells[0..] == cells;
  }

  function SeqMax(s: seq<real>): real
    requires |s| > 0
    decreases |s|
  {
    if |s| == 1 then s[0]
    else
      var m := SeqMax(s[1..]);
      if s[0] > m then s[0] else m
  }

  /** SeqMax is an element of the sequence and bounds every element. */
  lemma {:induction false} SeqMaxSpec(s: seq<real>)
    requires |s| > 0
    ensures SeqMax(s) in s
    ensures forall i :: 0 <= i < |s| ==> s[i] <= SeqMax(s)
    decreases |s|
  {
    if |s| > 1 {
      SeqMaxSpec(s[1..]);
      assert forall i :: 1 <= i < |s| ==> s[i] == s[1..][i - 1];
    }
  }

  function Sum(s: seq<real>): real
    decreases |s|
  {
    if |s| == 0 then 0.0 else s[0] + Sum(s[1..])
  }

  /** The mean of the parsed values; unparseable cells are skipped. */
  function Mean(cells: seq<Cell>): real
    requires HasNumber(cells)
  {
    Sum(Parsed(cells)) / (|Parsed(cells)| as real)
  }

  /** One number per cell: its parsed value, or 0 when it does not parse. */
  function Coerce(cells: seq<Cell>): (r: seq<real>)
    ensures |r| == |cells|
    decreases |cells|
  {
    if |cells| == 0 then [] else [Num(cells[0]).GetOr(0.0)] + Coerce(cells[1..])
  }

  /** Each cell becomes its number, or 0 when it does not parse. */
  lemma {:induction false} CoerceAt(cells: seq<Cell>)
    ensures forall i :: 0 <= i < |cells| ==> Coerce(cells)[i] == Num(cells[i]).GetOr(0.0)
    decreases |cells|
  {
    if |cells| > 0 {
      CoerceAt(cells[1..]);
      assert forall i :: 1 <= i < |cells| ==> Coerce(cells)[i] == Coerce(cells[1..])[i - 1];
    }
  }
}
