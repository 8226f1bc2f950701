/**
 * The arithmetic of the report's layout: how the consolidated table is cut
 * into pages, and which colour band a row's percentage falls in.
 */
module Layout {
  /** Rows of the consolidated table printed per page. */
  const RowsPerPage: nat := 23

  /** The number of table pages: n / RowsPerPage rounded up. */
  function MainPages(n: nat): nat {
    (n + RowsPerPage - 1) / RowsPerPage
  }

  /**
   * The table pages are the fewest that hold every row: no page for an empty
   * table, and otherwise all but the last page are full.
   */
  lemma MainPagesSpec(n: nat)
    ensures MainPages(n) * RowsPerPage >= n
    ensures MainPages(n) > 0 ==> (MainPages(n) - 1) * RowsPerPage < n
    ensures MainPages(n) == 0 <==> n == 0
  {
    var p := MainPages(n);
    var q := (n + RowsPerPage - 1) % RowsPerPage;
    assert n + RowsPerPage - 1 == p * RowsPerPage + q;
  }

  /** The summary page and the awards page follow the table pages. */
  function TotalPages(n: nat): nat {
    MainPages(n) + 2
  }

  /** The rows printed on table page p; the last page stops at the end of the table. */
  function Page<T>(rows: seq<T>, p: nat): (page: seq<T>)
    requires p < MainPages(|rows|)
    ensures 0 < |page| <= RowsPerPage
  {
    MainPagesSpec(|rows|);
    var start := p * RowsPerPage;
    var end := if start + RowsPerPage <= |rows| then start + RowsPerPage else |rows|;
    rows[start..end]
  }

  /** Every row is printed: row i is line i % 23 of page i / 23. */
  lemma PageHolds<T>(rows: seq<T>, i: nat)
    requires i < |rows|
    ensures i / RowsPerPage < MainPages(|rows|)
    ensures i % RowsPerPage < |Page(rows, i / RowsPerPage)|
    ensures Page(rows, i / RowsPerPage)[i % RowsPerPage] == rows[i]
  {
    MainPagesSpec(|rows|);
    var p := i / RowsPerPage;
    assert p * RowsPerPage <= i;
  }

  /** The three colour bands of a table row. */
  datatype Band = Green | Yellow | Red

  /** get_smart_row_color: green from the green threshold up, yellow from the yellow one, red below. */
  function RowBand(pct: real, green: real, yellow: real): Band {
    if pct >= green then Green
    else if pct >= yellow then Yellow
    else Red
  }

  /** How good a band is: red 0, yellow 1, green 2. */
  function Level(b: Band): nat {
    match b
    case Red => 0
    case Yellow => 1
    case Green => 2
  }

  /**
   * Each band holds exactly the percentages its thresholds say, and a higher
   * percentage never gets a worse band.
   */
  lemma RowBandSpec(pct: real, green: real, yellow: real)
    ensures RowBand(pct, green, yellow) == Green <==> pct >= green
    ensures RowBand(pct, green, yellow) == Yellow <==> yellow <= pct < green
    ensures RowBand(pct, green, yellow) == Red <==> pct < green && pct < yellow
  {
  }

  lemma RowBandMonotone(pct: real, pct': real, green: real, yellow: real)
    requires pct <= pct'
    ensures Level(RowBand(pct, green, yellow)) <= Level(RowBand(pct', green, yellow))
  {
  }
}
