/**
 * normalize_name: the key under which a student is matched across test files.
 */
module Names {
  import opened Text

  /** The shape of every key normalize_name produces. */
  predicate IsKey(k: string) {
    Trimmed(k) && SingleSpaced(k) && NoUpper(k)
  }

  /** Trim the name, turn every whitespace run into one space, lower-case it. */
  function NormalizeName(s: string): string {
    Lower(Collapse(Trim(s), false))
  }

  /**
   * Every key is lower-case, has no whitespace at either end, and holds
   * whitespace only as single spaces.
   */
  lemma NormalizeShape(s: string)
    ensures IsKey(NormalizeName(s))
  {
    var t := Trim(s);
    TrimSpec(s);
    var c := Collapse(t, false);
    CollapseShape(t, false);
    var k := Lower(c);
    LowerAt(c);
    assert SingleSpaced(k) by {
      forall i | 0 <= i < |k| && IsSpace(k[i]) ensures k[i] == ' ' {
        assert IsSpace(c[i]);
      }
    }
  }

  /** A string that already has the key shape is its own key. */
  lemma KeyIsFixpoint(k: string)
    requires IsKey(k)
    ensures NormalizeName(k) == k
  {
    TrimSpec(k);
    CollapseOfSingleSpaced(k, false);
    LowerAt(k);
    assert Lower(k) == k;
  }

  /** Normalising twice is normalising once. */
  lemma NormalizeIdempotent(s: string)
    ensures NormalizeName(NormalizeName(s)) == NormalizeName(s)
  {
    NormalizeShape(s);
    KeyIsFixpoint(NormalizeName(s));
  }

  /** A key is empty exactly when the raw name is empty or only whitespace. */
  lemma EmptyKeyIffBlank(s: string)
    ensures NormalizeName(s) == [] <==> forall i :: 0 <= i < |s| ==> IsSpace(s[i])
  {
    var t := Trim(s);
    CollapseShape(t, false);
    if NormalizeName(s) == [] {
      assert |Collapse(t, false)| == 0;
      assert |t| == 0;
      var l := TrimLeft(s);
      TrimLeftShape(s);
      if |l| > 0 {
        BlankWhenTrimRightEmpty(l);
        assert false;
      }
      BlankWhenTrimEmpty(s);
    } else {
      NonBlankTrimNonEmpty(s);
    }
  }

  lemma {:induction false} BlankWhenTrimEmpty(s: string)
    requires TrimLeft(s) == []
    ensures forall i :: 0 <= i < |s| ==> IsSpace(s[i])
    decreases |s|
  {
    if |s| > 0 {
      assert IsSpace(s[0]);
      BlankWhenTrimEmpty(s[1..]);
      assert forall i :: 1 <= i < |s| ==> s[i] == s[1..][i - 1];
    }
  }

  lemma {:induction false} BlankWhenTrimRightEmpty(s: string)
    requires TrimRight(s) == []
    ensures forall i :: 0 <= i < |s| ==> IsSpace(s[i])
    decreases |s|
  {
    if |s| > 0 {
      assert IsSpace(s[|s| - 1]);
      BlankWhenTrimRightEmpty(s[..|s| - 1]);
      assert forall i :: 0 <= i < |s| - 1 ==> s[i] == s[..|s| - 1][i];
    }
  }

  lemma NonBlankTrimNonEmpty(s: string)
    requires NormalizeName(s) != []
    ensures exists i :: 0 <= i < |s| && !IsSpace(s[i])
  {
    var t := Trim(s);
    var l := TrimLeft(s);
    TrimLeftShape(s);
    TrimRightShape(l);
    assert |t| > 0;
    assert t[0] == l[0] == s[|s| - |l|];
  }

  // ---------------- the key read in one pass ----------------

  /** Where a left-to-right reading of a name stands: before the first word, inside a word, or in the whitespace after one. */
  datatype Scan = Before | InWord | Gap

  /** The reading state after character c. */
  function Step(st: Scan, c: char): Scan {
    if !IsSpace(c) then InWord else if st == Before then Before else Gap
  }

  /** What character c adds to the key: nothing for whitespace, a space before a word that follows a gap. */
  function Emit(st: Scan, c: char): string {
    if IsSpace(c) then [] else if st == Gap then [' ', LowerChar(c)] else [LowerChar(c)]
  }

  /**
   * The key as one left-to-right pass: leading whitespace is skipped, word
   * characters are lower-cased, the whitespace between two words becomes one
   * space, and trailing whitespace adds nothing.
   */
  function KeyScan(s: string, st: Scan): string
    decreases |s|
  {
    if |s| == 0 then [] else Emit(st, s[0]) + KeyScan(s[1..], Step(st, s[0]))
  }

  lemma {:induction false} ScanSkipsLeading(s: string)
    ensures KeyScan(s, Before) == KeyScan(TrimLeft(s), Before)
    decreases |s|
  {
    if |s| > 0 && IsSpace(s[0]) {
      ScanSkipsLeading(s[1..]);
    }
  }

  lemma {:induction false} ScanIgnoresTrailing(u: string, ws: string, st: Scan)
    requires forall i :: 0 <= i < |ws| ==> IsSpace(ws[i])
    ensures KeyScan(u + ws, st) == KeyScan(u, st)
    decreases |u| + |ws|
  {
    if |u| > 0 {
      assert (u + ws)[1..] == u[1..] + ws;
      ScanIgnoresTrailing(u[1..], ws, Step(st, u[0]));
    } else if |ws| > 0 {
      assert u + ws == ws;
      assert [] + ws[1..] == ws[1..];
      ScanIgnoresTrailing([], ws[1..], Step(st, ws[0]));
    }
  }

  /** Inside a word, or in a gap, the pass agrees with collapsing the rest. */
  lemma {:induction false} ScanCollapse(u: string, st: Scan)
    requires st != Before
    requires |u| == 0 || !IsSpace(u[|u| - 1])
    requires st == Gap ==> |u| > 0
    ensures st == InWord ==> KeyScan(u, st) == Lower(Collapse(u, false))
    ensures st == Gap ==> KeyScan(u, st) == Lower([' '] + Collapse(u, true))
    decreases |u|
  {
    if |u| > 0 {
      var rest := u[1..];
      assert |rest| == 0 || rest[|rest| - 1] == u[|u| - 1];
      if IsSpace(u[0]) {
        ScanCollapse(rest, Gap);
        assert Collapse(u, true) == Collapse(rest, true);
        assert Collapse(u, false) == [' '] + Collapse(rest, true);
      } else {
        ScanCollapse(rest, InWord);
        var c := u[0];
        assert Collapse(u, false) == [c] + Collapse(rest, false);
        assert Collapse(u, true) == [c] + Collapse(rest, false);
        LowerAppend([c], Collapse(rest, false));
        LowerAppend([' ', c], Collapse(rest, false));
        assert [' '] + ([c] + Collapse(rest, false)) == [' ', c] + Collapse(rest, false);
        assert Lower([c]) == [LowerChar(c)];
        assert Lower([' ', c]) == [' ', LowerChar(c)] by {
          LowerAt([' ', c]);
        }
      }
    }
  }

  /** normalize_name agrees with the one-pass reading. */
  lemma NormalizeIsScan(s: string)
    ensures NormalizeName(s) == KeyScan(s, Before)
  {
    hide Lower, Collapse, TrimLeft, TrimRight;
    var l := TrimLeft(s);
    TrimLeftShape(s);
    ScanSkipsLeading(s);
    var u := TrimRight(l);
    TrimRightShape(l);
    var ws := l[|u|..];
    assert l == u + ws;
    ScanIgnoresTrailing(u, ws, Before);
    if |u| > 0 {
      assert u[0] == l[0];
      assert KeyScan(u, Before) == KeyScan(u, InWord);
    }
    ScanCollapse(u, InWord);
  }

  /** Two characters the key cannot tell apart: both whitespace, or equal once lower-cased. */
  predicate SameForKey(a: char, b: char) {
    (IsSpace(a) && IsSpace(b)) || LowerChar(a) == LowerChar(b)
  }

  lemma {:induction false} ScanRespects(s: string, t: string, st: Scan)
    requires |s| == |t| && forall i :: 0 <= i < |s| ==> SameForKey(s[i], t[i])
    ensures KeyScan(s, st) == KeyScan(t, st)
    decreases |s|
  {
    if |s| > 0 {
      assert SameForKey(s[0], t[0]);
      assert IsSpace(s[0]) <==> IsSpace(t[0]);
      forall i | 0 <= i < |s| - 1 ensures SameForKey(s[1..][i], t[1..][i]) {
        assert SameForKey(s[i + 1], t[i + 1]);
      }
      ScanRespects(s[1..], t[1..], Step(st, s[0]));
    }
  }

  lemma {:induction false} ScanDoubledSpace(u: string, w: char, v: string, st: Scan)
    requires IsSpace(w)
    ensures KeyScan(u + [w] + v, st) == KeyScan(u + [w, w] + v, st)
    decreases |u|
  {
    if |u| > 0 {
      assert (u + [w] + v)[1..] == u[1..] + [w] + v;
      assert (u + [w, w] + v)[1..] == u[1..] + [w, w] + v;
      ScanDoubledSpace(u[1..], w, v, Step(st, u[0]));
    } else {
      assert u + [w] + v == [w] + v;
      assert u + [w, w] + v == [w] + ([w] + v);
      assert ([w] + v)[1..] == v;
      assert ([w] + ([w] + v))[1..] == [w] + v;
    }
  }

  /**
   * Names that differ only in which whitespace characters they use, or in
   * the case of ASCII letters, get the same key.
   */
  lemma NormalizeRespects(s: string, t: string)
    requires |s| == |t| && forall i :: 0 <= i < |s| ==> SameForKey(s[i], t[i])
    ensures NormalizeName(s) == NormalizeName(t)
  {
    NormalizeIsScan(s);
    NormalizeIsScan(t);
    ScanRespects(s, t, Before);
  }

  /** Replacing one character by another the key cannot tell apart keeps the key. */
  lemma NormalizeReplace(s: string, i: nat, c: char)
    requires i < |s| && SameForKey(s[i], c)
    ensures NormalizeName(s[..i] + [c] + s[i + 1..]) == NormalizeName(s)
  {
    var t := s[..i] + [c] + s[i + 1..];
    assert |t| == |s|;
    forall j | 0 <= j < |s| ensures SameForKey(t[j], s[j]) {
      if j != i {
        assert t[j] == s[j];
      }
    }
    NormalizeRespects(t, s);
  }

  /** Doubling a whitespace character keeps the key: a run of any length counts as one. */
  lemma NormalizeDoubledSpace(s: string, i: nat)
    requires i < |s| && IsSpace(s[i])
    ensures NormalizeName(s[..i] + [s[i]] + s[i..]) == NormalizeName(s)
  {
    var u, v := s[..i], s[i + 1..];
    assert s == u + [s[i]] + v;
    assert s[..i] + [s[i]] + s[i..] == u + [s[i], s[i]] + v;
    NormalizeIsScan(s);
    NormalizeIsScan(u + [s[i], s[i]] + v);
    ScanDoubledSpace(u, s[i], v, Before);
  }

  lemma {:induction false} ScanVisible(s: string, st: Scan)
    ensures Visible(KeyScan(s, st)) == Lower(Visible(s))
    decreases |s|
  {
    if |s| > 0 {
      var c := s[0];
      var head := if IsSpace(c) then [] else [c];
      ScanVisible(s[1..], Step(st, c));
      VisibleAppend(Emit(st, c), KeyScan(s[1..], Step(st, c)));
      LowerAppend(head, Visible(s[1..]));
      assert Visible(s) == head + Visible(s[1..]);
      if !IsSpace(c) {
        assert !IsSpace(LowerChar(c));
        assert Visible(Emit(st, c)) == [LowerChar(c)];
        assert Lower(head) == [LowerChar(c)];
      }
    }
  }

  /**
   * The key holds the name's non-whitespace characters, lower-cased, in
   * order: names whose non-whitespace characters differ other than by case
   * get different keys.
   */
  lemma NormalizeVisible(s: string)
    ensures Visible(NormalizeName(s)) == Lower(Visible(s))
  {
    NormalizeIsScan(s);
    ScanVisible(s, Before);
  }
}
