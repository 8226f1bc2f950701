/**
 * Per-file extraction: one test file becomes the test's maximum, the score of
 * every student key present in it, and the set of those keys.
 */
module Extraction {
  import opened Wrappers
  import opened Names
  import opened Tables
  import opened Schema

  /** DEFAULT_TEST_MAX_PER_FILE */
  const DefaultTestMax: real := 50.0

  datatype PerTestRecord = PerTestRecord(fileMax: real, scores: map<string, real>, present: set<string>)

  /**
   * file_max: the test maximum the columns declare; without one, the largest
   * obtained score, except that an empty file or a largest score of 0 falls
   * back to the default maximum.
   */
  function FileMax(possible: Option<real>, obtained: seq<real>): real {
    if possible.Some? then possible.value
    else if |obtained| == 0 then DefaultTestMax
    else if SeqMax(obtained) == 0.0 then DefaultTestMax
    else SeqMax(obtained)
  }

  /**
   * A declared maximum is used as is; otherwise the maximum is the largest
   * score unless that is 0 (or there are no rows), when it is the default.
   * A negative largest score is kept.
   */
  lemma FileMaxSpec(possible: Option<real>, obtained: seq<real>)
    ensures possible.Some? ==> FileMax(possible, obtained) == possible.value
    ensures possible.None? && |obtained| == 0 ==> FileMax(possible, obtained) == DefaultTestMax
    ensures possible.None? && |obtained| > 0 ==>
              var m := FileMax(possible, obtained);
              || (m != 0.0 && m in obtained && forall i :: 0 <= i < |obtained| ==> obtained[i] <= m)
              || (m == DefaultTestMax && 0.0 in obtained && forall i :: 0 <= i < |obtained| ==> obtained[i] <= 0.0)
  {
    if |obtained| > 0 {
      SeqMaxSpec(obtained);
    }
  }

  /** The normalised key of every row. */
  function RowKeys(names: seq<string>): (keys: seq<string>)
    ensures |keys| == |names|
    decreases |names|
  {
    if |names| == 0 then [] else [NormalizeName(names[0])] + RowKeys(names[1..])
  }

  lemma {:induction false} RowKeysAt(names: seq<string>)
    ensures forall i :: 0 <= i < |names| ==> RowKeys(names)[i] == NormalizeName(names[i])
    decreases |names|
  {
    if |names| > 0 {
      RowKeysAt(names[1..]);
      forall i | 1 <= i < |names| ensures RowKeys(names)[i] == NormalizeName(names[i]) {
        assert RowKeys(names)[i] == RowKeys(names[1..])[i - 1];
        assert names[1..][i - 1] == names[i];
      }
    }
  }

  /** Row j is the last of the first n rows that carries its (non-empty) key. */
  predicate LastWithKey(keys: seq<string>, j: int, n: int)
    requires 0 <= j < n <= |keys|
  {
    keys[j] != "" && forall m :: j < m < n ==> keys[m] != keys[j]
  }

  /** present_set after the first n rows: the key of every row whose key is non-empty. */
  function PresentKeys(keys: seq<string>, n: nat): set<string>
    requires n <= |keys|
  {
    if n == 0 then {}
    else if keys[n - 1] == "" then PresentKeys(keys, n - 1)
    else PresentKeys(keys, n - 1) + {keys[n - 1]}
  }

  /** present_set is exactly the set of non-empty normalised names. */
  lemma {:induction false} PresentKeysExactly(keys: seq<string>, n: nat)
    requires n <= |keys|
    ensures forall k :: k in PresentKeys(keys, n) <==> exists j :: 0 <= j < n && keys[j] == k && k != ""
  {
    if n > 0 {
      PresentKeysExactly(keys, n - 1);
    }
  }

  /** name_map after the first n rows: each non-empty key set to its row's score, later rows overwriting. */
  function ScoreMap(keys: seq<string>, obtained: seq<real>, n: nat): map<string, real>
    requires n <= |keys| == |obtained|
  {
    if n == 0 then map[]
    else if keys[n - 1] == "" then ScoreMap(keys, obtained, n - 1)
    else ScoreMap(keys, obtained, n - 1)[keys[n - 1] := obtained[n - 1]]
  }

  /** The keys of name_map are exactly present_set. */
  lemma {:induction false} ScoreMapKeys(keys: seq<string>, obtained: seq<real>, n: nat)
    requires n <= |keys| == |obtained|
    ensures ScoreMap(keys, obtained, n).Keys == PresentKeys(keys, n)
  {
    if n > 0 {
      ScoreMapKeys(keys, obtained, n - 1);
    }
  }

  /** For a duplicated key, name_map holds the score of the last row with that key. */
  lemma {:induction false} ScoreMapLastWins(keys: seq<string>, obtained: seq<real>, n: nat)
    requires n <= |keys| == |obtained|
    ensures forall j :: 0 <= j < n && LastWithKey(keys, j, n) ==>
              keys[j] in ScoreMap(keys, obtained, n) && ScoreMap(keys, obtained, n)[keys[j]] == obtained[j]
  {
    if n > 0 {
      ScoreMapLastWins(keys, obtained, n - 1);
      forall j | 0 <= j < n && LastWithKey(keys, j, n)
        ensures keys[j] in ScoreMap(keys, obtained, n) && ScoreMap(keys, obtained, n)[keys[j]] == obtained[j]
      {
        if j < n - 1 {
          assert LastWithKey(keys, j, n - 1);
        }
      }
    }
  }

  /** The record built from a file's test maximum, row names and row scores. */
  function RecordFrom(possible: Option<real>, names: seq<string>, obtained: seq<real>): PerTestRecord
    requires |names| == |obtained|
  {
    var keys := RowKeys(names);
    PerTestRecord(FileMax(possible, obtained), ScoreMap(keys, obtained, |names|), PresentKeys(keys, |names|))
  }

  /**
   * present is exactly the set of non-empty row keys, the score map has
   * exactly those keys, and each key maps to the score of the last row
   * carrying it.
   */
  lemma RecordFromShape(possible: Option<real>, names: seq<string>, obtained: seq<real>)
    requires |names| == |obtained|
    ensures var rec := RecordFrom(possible, names, obtained);
            && (forall k :: k in rec.present <==>
                  exists j :: 0 <= j < |names| && NormalizeName(names[j]) == k && k != "")
            && rec.scores.Keys == rec.present
            && (forall j :: 0 <= j < |names| && LastWithKey(RowKeys(names), j, |names|) ==>
                  NormalizeName(names[j]) in rec.scores && rec.scores[NormalizeName(names[j])] == obtained[j])
  {
    var keys := RowKeys(names);
    RowKeysAt(names);
    PresentKeysExactly(keys, |names|);
    ScoreMapKeys(keys, obtained, |names|);
    ScoreMapLastWins(keys, obtained, |names|);
  }

  /** What extracting table t yields: per_file_data's entry for it. */
  function RecordOf(t: Table): PerTestRecord
    requires WellFormed(t)
  {
    RecordFrom(FindPossiblePts(t), FindNameSeries(t), ExtractObtainedSeries(t))
  }

  /**
   * The row loop: zip names with scores, skip rows whose key is empty, add
   * the key to the present set and overwrite its score, so the last row wins.
   */
  method IndexRows(names: seq<string>, obtained: seq<real>)
      returns (nameMap: map<string, real>, presentSet: set<string>)
    requires |names| == |obtained|
    ensures presentSet == PresentKeys(RowKeys(names), |names|)
    ensures nameMap == ScoreMap(RowKeys(names), obtained, |names|)
  {
    hide NormalizeName, RowKeys;
    ghost var keys := RowKeys(names);
    RowKeysAt(names);
    nameMap := map[];
    presentSet := {};
    var i := 0;
    while i < |names|
      invariant 0 <= i <= |names|
      invariant presentSet == PresentKeys(keys, i)
      invariant nameMap == ScoreMap(keys, obtained, i)
    {
      var norm := NormalizeName(names[i]);
      assert keys[i] == norm;
      if norm != "" {
        presentSet := presentSet + {norm};
        nameMap := nameMap[norm := obtained[i]];
      }
      i := i + 1;
    }
  }

  /** The body of the per-file loop for one readable table. */
  method ExtractRecord(t: Table) returns (rec: PerTestRecord)
    requires WellFormed(t)
    ensures rec == RecordOf(t)
  {
    var fileMax := FindPossiblePts(t);
    var names := FindNameSeries(t);
    var obtained := ExtractObtainedSeries(t);
    var nameMap, presentSet := IndexRows(names, obtained);
    assert RecordOf(t) == RecordFrom(fileMax, names, obtained);
    rec := PerTestRecord(FileMax(fileMax, obtained), nameMap, presentSet);
  }

  predicate AllWellFormed(files: seq<Option<Table>>) {
    forall i :: 0 <= i < |files| && files[i].Some? ==> WellFormed(files[i].value)
  }

  /** The files that could be read, in upload order; None stands for a file read_csv rejected. */
  function Readable(files: seq<Option<Table>>): (r: seq<Table>)
    requires AllWellFormed(files)
    ensures |r| <= |files|
    ensures forall j :: 0 <= j < |r| ==> WellFormed(r[j])
  {
    if |files| == 0 then []
    else
      var init := files[..|files| - 1];
      assert AllWellFormed(init);
      Readable(init) + (if files[|files| - 1].Some? then [files[|files| - 1].value] else [])
  }

  /** An unreadable file adds nothing; a readable one adds its table at the end. */
  lemma ReadableSnoc(files: seq<Option<Table>>, i: nat)
    requires i < |files| && AllWellFormed(files)
    ensures AllWellFormed(files[..i]) && AllWellFormed(files[..i + 1])
    ensures files[i].Some? ==> Readable(files[..i + 1]) == Readable(files[..i]) + [files[i].value]
    ensures files[i].None? ==> Readable(files[..i + 1]) == Readable(files[..i])
  {
    assert files[..i + 1][..i] == files[..i];
  }

  /** One pass of the per-file loop: a readable file appends its record, an unreadable one nothing. */
  method ExtractFile(records: seq<PerTestRecord>, file: Option<Table>) returns (out: seq<PerTestRecord>)
    requires file.Some? ==> WellFormed(file.value)
    ensures file.Some? ==> out == records + [RecordOf(file.value)]
    ensures file.None? ==> out == records
  {
    out := records;
    if file.Some? {
      var rec := ExtractRecord(file.value);
      out := out + [rec];
    }
  }

  /**
   * The per-file loop: every readable file yields one record, in upload
   * order; an unreadable file is reported and skipped.
   */
  method ExtractAll(files: seq<Option<Table>>) returns (records: seq<PerTestRecord>)
    requires AllWellFormed(files)
    ensures |records| == |Readable(files)|
    ensures forall j :: 0 <= j < |records| ==> records[j] == RecordOf(Readable(files)[j])
  {
    // The loop only moves records around; what a record holds is ExtractFile's concern.
    hide RecordOf;
    records := [];
    var i := 0;
    assert files[..0] == [];
    while i < |files|
      invariant 0 <= i <= |files|
      invariant AllWellFormed(files[..i])
      invariant |records| == |Readable(files[..i])|
      invariant forall j :: 0 <= j < |records| ==> records[j] == RecordOf(Readable(files[..i])[j])
    {
      ReadableSnoc(files, i);
      records := ExtractFile(records, files[i]);
      i := i + 1;
    }
    assert files[..|files|] == files;
  }
}
