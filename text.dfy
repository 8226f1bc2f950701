/**
 * Character and string helpers standing in for the Python string methods the
 * score pipeline uses: str.isspace/strip, the regular expression \s+, and the
 * ASCII part of str.lower/str.title, plus substring search and ordering.
 */
module Text {

  /** The code points for which Python's str.isspace() holds (and that \s matches in a str pattern). */
  const SpaceCodes: set<int> := {
    9, 10, 11, 12, 13, 28, 29, 30, 31, 32, 0x85, 0xA0, 0x1680,
    0x2000, 0x2001, 0x2002, 0x2003, 0x2004, 0x2005, 0x2006, 0x2007, 0x2008, 0x2009, 0x200A,
    0x2028, 0x2029, 0x202F, 0x205F, 0x3000
  }

  predicate IsSpace(c: char) {
    c as int in SpaceCodes
  }

  predicate IsUpper(c: char) { 'A' <= c <= 'Z' }

  predicate IsLower(c: char) { 'a' <= c <= 'z' }

  predicate IsLetter(c: char) { IsUpper(c) || IsLower(c) }

  function LowerChar(c: char): (r: char)
    ensures !IsUpper(r)
    ensures IsSpace(r) <==> IsSpace(c)
    ensures !IsUpper(c) ==> r == c
  {
    if IsUpper(c) then (c as int + 32) as char else c
  }

  function UpperChar(c: char): (r: char)
    ensures !IsLower(r)
    ensures !IsLower(c) ==> r == c
  {
    if IsLower(c) then (c as int - 32) as char else c
  }

  /** str.lower(), on the ASCII letters. */
  function Lower(s: string): (r: string)
    ensures |r| == |s|
    decreases |s|
  {
    if |s| == 0 then [] else [LowerChar(s[0])] + Lower(s[1..])
  }

  lemma {:induction false} LowerAt(s: string)
    ensures forall i :: 0 <= i < |s| ==> Lower(s)[i] == LowerChar(s[i])
    decreases |s|
  {
    if |s| > 0 {
      LowerAt(s[1..]);
      assert forall i :: 1 <= i < |s| ==> Lower(s)[i] == Lower(s[1..])[i - 1];
    }
  }

  /** lstrip(): drops leading whitespace. */
  function TrimLeft(s: string): string
    decreases |s|
  {
    if |s| > 0 && IsSpace(s[0]) then TrimLeft(s[1..]) else s
  }

  /** rstrip(): drops trailing whitespace. */
  function TrimRight(s: string): string
    decreases |s|
  {
    if |s| > 0 && IsSpace(s[|s| - 1]) then TrimRight(s[..|s| - 1]) else s
  }

  /**
   * lstrip() removes a prefix of s made only of whitespace and leaves a suffix
   * that does not start with whitespace.
   */
  lemma {:induction false} TrimLeftShape(s: string)
    ensures |TrimLeft(s)| <= |s| && TrimLeft(s) == s[|s| - |TrimLeft(s)|..]
    ensures forall i :: 0 <= i < |s| - |TrimLeft(s)| ==> IsSpace(s[i])
    ensures |TrimLeft(s)| == 0 || !IsSpace(TrimLeft(s)[0])
    decreases |s|
  {
    if |s| > 0 && IsSpace(s[0]) {
      TrimLeftShape(s[1..]);
      assert forall i :: 1 <= i < |s| ==> s[i] == s[1..][i - 1];
    }
  }

  /**
   * rstrip() removes a suffix of s made only of whitespace and leaves a prefix
   * that does not end with whitespace.
   */
  lemma {:induction false} TrimRightShape(s: string)
    ensures |TrimRight(s)| <= |s| && TrimRight(s) == s[..|TrimRight(s)|]
    ensures forall i :: |TrimRight(s)| <= i < |s| ==> IsSpace(s[i])
    ensures |TrimRight(s)| == 0 || !IsSpace(TrimRight(s)[|TrimRight(s)| - 1])
    decreases |s|
  {
    if |s| > 0 && IsSpace(s[|s| - 1]) {
      TrimRightShape(s[..|s| - 1]);
      assert forall i :: 0 <= i < |s| - 1 ==> s[i] == s[..|s| - 1][i];
    }
  }

  /** s has no whitespace at either end. */
  predicate Trimmed(s: string) {
    |s| == 0 || (!IsSpace(s[0]) && !IsSpace(s[|s| - 1]))
  }

  /** str.strip() with no argument. */
  function Trim(s: string): string {
    TrimRight(TrimLeft(s))
  }

  /** strip() leaves no whitespace at either end, and leaves a string without any unchanged. */
  lemma TrimSpec(s: string)
    ensures |Trim(s)| <= |s|
    ensures Trimmed(Trim(s))
    ensures Trimmed(s) ==> Trim(s) == s
  {
    var l := TrimLeft(s);
    var r := TrimRight(l);
    TrimLeftShape(s);
    TrimRightShape(l);
    assert |r| > 0 ==> r[0] == l[0];
  }

  /**
   * strip() keeps the stretch of s that starts at offset `lead` and removes
   * only whitespace around it.
   */
  lemma TrimStretch(s: string)
    ensures |TrimLeft(s)| <= |s|
    ensures var lead := |s| - |TrimLeft(s)|;
      && lead + |Trim(s)| <= |s| && Trim(s) == s[lead..lead + |Trim(s)|]
      && (forall i :: 0 <= i < lead ==> IsSpace(s[i]))
      && (forall i :: lead + |Trim(s)| <= i < |s| ==> IsSpace(s[i]))
  {
    var l := TrimLeft(s);
    var r := TrimRight(l);
    TrimLeftShape(s);
    TrimRightShape(l);
    var lead := |s| - |l|;
    assert forall i :: lead + |r| <= i < |s| ==> s[i] == l[i - lead];
  }

  /**
   * Whitespace collapsing: every maximal run of whitespace becomes one space.
   * inRun says whether the character before s was whitespace.
   */
  function Collapse(s: string, inRun: bool): string
    decreases |s|
  {
    if |s| == 0 then []
    else if IsSpace(s[0]) then (if inRun then [] else [' ']) + Collapse(s[1..], true)
    else [s[0]] + Collapse(s[1..], false)
  }

  /** Whitespace in s appears only as single ' ' characters. */
  predicate SingleSpaced(s: string) {
    && (forall i :: 0 <= i < |s| && IsSpace(s[i]) ==> s[i] == ' ')
    && (forall i :: 0 <= i < |s| - 1 ==> !IsSpace(s[i]) || !IsSpace(s[i + 1]))
  }

  lemma {:induction false} CollapseShape(s: string, inRun: bool)
    ensures SingleSpaced(Collapse(s, inRun))
    ensures inRun ==> |Collapse(s, inRun)| == 0 || !IsSpace(Collapse(s, inRun)[0])
    ensures |s| > 0 && !IsSpace(s[0]) ==> |Collapse(s, inRun)| > 0 && Collapse(s, inRun)[0] == s[0]
    ensures |s| > 0 && !IsSpace(s[|s| - 1]) ==>
              |Collapse(s, inRun)| > 0 && !IsSpace(Collapse(s, inRun)[|Collapse(s, inRun)| - 1])
    decreases |s|
  {
    if |s| > 0 {
      var rest := Collapse(s[1..], IsSpace(s[0]));
      CollapseShape(s[1..], IsSpace(s[0]));
      var r := Collapse(s, inRun);
      var head := if IsSpace(s[0]) then (if inRun then [] else [' ']) else [s[0]];
      assert r == head + rest;
      if |s| > 1 {
        assert s[1..][|s[1..]| - 1] == s[|s| - 1];
      }
    }
  }

  /** The characters of s other than whitespace, in order. */
  function Visible(s: string): string
    decreases |s|
  {
    if |s| == 0 then [] else (if IsSpace(s[0]) then [] else [s[0]]) + Visible(s[1..])
  }

  lemma {:induction false} VisibleAppend(a: string, b: string)
    ensures Visible(a + b) == Visible(a) + Visible(b)
    decreases |a|
  {
    if |a| > 0 {
      assert (a + b)[1..] == a[1..] + b;
      VisibleAppend(a[1..], b);
    } else {
      assert a + b == b;
    }
  }

  lemma LowerAppend(a: string, b: string)
    ensures Lower(a + b) == Lower(a) + Lower(b)
  {
    LowerAt(a);
    LowerAt(b);
    LowerAt(a + b);
    assert forall i :: 0 <= i < |a| ==> Lower(a + b)[i] == Lower(a)[i];
    assert forall i :: |a| <= i < |a| + |b| ==> Lower(a + b)[i] == Lower(b)[i - |a|];
  }

  /** Collapsing whitespace runs keeps every other character, in order. */
  lemma {:induction false} CollapseVisible(s: string, inRun: bool)
    ensures Visible(Collapse(s, inRun)) == Visible(s)
    decreases |s|
  {
    if |s| > 0 {
      var head := if IsSpace(s[0]) then (if inRun then [] else [' ']) else [s[0]];
      CollapseVisible(s[1..], IsSpace(s[0]));
      VisibleAppend(head, Collapse(s[1..], IsSpace(s[0])));
      assert Collapse(s, inRun) == head + Collapse(s[1..], IsSpace(s[0]));
    }
  }

  /** Collapsing whitespace runs leaves a single-spaced string unchanged. */
  lemma {:induction false} CollapseOfSingleSpaced(s: string, inRun: bool)
    requires SingleSpaced(s)
    requires inRun ==> |s| == 0 || !IsSpace(s[0])
    ensures Collapse(s, inRun) == s
    decreases |s|
  {
    if |s| > 0 {
      assert SingleSpaced(s[1..]);
      if IsSpace(s[0]) {
        assert |s| > 1 ==> !IsSpace(s[1]);
      }
      CollapseOfSingleSpaced(s[1..], IsSpace(s[0]));
    }
  }

  /** p occurs in s starting at index i. */
  predicate OccursAt(s: string, p: string, i: int) {
    0 <= i && i + |p| <= |s| && s[i..i + |p|] == p
  }

  /** Substring test, Python's `p in s`. */
  function Contains(s: string, p: string): bool
    decreases |s|
  {
    if |p| > |s| then false
    else if s[..|p|] == p then true
    else Contains(s[1..], p)
  }

  /** `p in s` holds exactly when p occurs in s at some index. */
  lemma {:induction false} ContainsSpec(s: string, p: string)
    ensures Contains(s, p) <==> exists i :: OccursAt(s, p, i)
    decreases |s|
  {
    if |p| <= |s| {
      if s[..|p|] == p {
        assert OccursAt(s, p, 0);
      } else {
        ContainsShift(s, p);
        ContainsSpec(s[1..], p);
      }
    }
  }

  lemma ContainsShift(s: string, p: string)
    requires |p| <= |s| && s[..|p|] != p
    ensures (exists i :: OccursAt(s, p, i)) <==> (exists i :: OccursAt(s[1..], p, i))
  {
    if i :| OccursAt(s, p, i) {
      assert i != 0;
      assert s[1..][i - 1..i - 1 + |p|] == p;
      assert OccursAt(s[1..], p, i - 1);
    }
    if i :| OccursAt(s[1..], p, i) {
      assert s[i + 1..i + 1 + |p|] == p;
      assert OccursAt(s, p, i + 1);
    }
  }

  /** s.replace(" ", ""): drops the ASCII space only. */
  function RemoveSpaces(s: string): string
    decreases |s|
  {
    if |s| == 0 then []
    else if s[0] == ' ' then RemoveSpaces(s[1..])
    else [s[0]] + RemoveSpaces(s[1..])
  }

  function DigitChar(d: nat): char
    requires d < 10
  {
    ('0' as int + d) as char
  }

  /** Decimal rendering of a natural number, as Python's f"{n}". */
  function NatToString(n: nat): string
    decreases n
  {
    if n < 10 then [DigitChar(n)] else NatToString(n / 10) + [DigitChar(n % 10)]
  }

  /**
   * str.title() on the ASCII letters: a letter is upper-cased when the
   * character before it is not a letter, lower-cased otherwise.
   */
  function TitleFrom(s: string, afterLetter: bool): (r: string)
    ensures |r| == |s|
    decreases |s|
  {
    if |s| == 0 then []
    else
      var c := if afterLetter then LowerChar(s[0]) else UpperChar(s[0]);
      [c] + TitleFrom(s[1..], IsLetter(s[0]))
  }

  function Title(s: string): (r: string)
    ensures |r| == |s|
  {
    TitleFrom(s, false)
  }

  /** No upper-case ASCII letter occurs in s (what str.lower() guarantees). */
  predicate NoUpper(s: string) {
    forall i :: 0 <= i < |s| ==> !IsUpper(s[i])
  }

  /** Title-casing distinct lower-case keys gives distinct display names. */
  lemma {:induction false} TitleInjective(s: string, t: string, afterLetter: bool)
    requires NoUpper(s) && NoUpper(t)
    requires TitleFrom(s, afterLetter) == TitleFrom(t, afterLetter)
    ensures s == t
    decreases |s|
  {
    if |s| > 0 {
      var a, b := s[0], t[0];
      assert TitleFrom(s, afterLetter)[0] == TitleFrom(t, afterLetter)[0];
      assert a == b by {
        if afterLetter {
          assert LowerChar(a) == a && LowerChar(b) == b;
        } else {
          if IsLower(a) && !IsLower(b) {
            assert IsUpper(UpperChar(a));
          } else if !IsLower(a) && IsLower(b) {
            assert IsUpper(UpperChar(b));
          }
        }
      }
      assert TitleFrom(s, afterLetter)[1..] == TitleFrom(s[1..], IsLetter(a));
      assert TitleFrom(t, afterLetter)[1..] == TitleFrom(t[1..], IsLetter(b));
      TitleInjective(s[1..], t[1..], IsLetter(a));
    }
  }

  /** Python's `<=` on str: lexicographic by code point. */
  predicate StrLe(a: string, b: string)
    decreases |a|
  {
    |a| == 0 || (|b| > 0 && (a[0] < b[0] || (a[0] == b[0] && StrLe(a[1..], b[1..]))))
  }

  lemma {:induction false} StrLeTotal(a: string, b: string)
    ensures StrLe(a, b) || StrLe(b, a)
    decreases |a|
  {
    if |a| > 0 && |b| > 0 && a[0] == b[0] {
      StrLeTotal(a[1..], b[1..]);
    }
  }

  lemma {:induction false} StrLeTrans(a: string, b: string, c: string)
    requires StrLe(a, b) && StrLe(b, c)
    ensures StrLe(a, c)
    decreases |a|
  {
    if |a| > 0 && a[0] == b[0] && b[0] == c[0] {
      StrLeTrans(a[1..], b[1..], c[1..]);
    }
  }

  lemma {:induction false} StrLeAntisym(a: string, b: string)
    requires StrLe(a, b) && StrLe(b, a)
    ensures a == b
    decreases |a|
  {
    if |a| > 0 {
      StrLeAntisym(a[1..], b[1..]);
      assert a == [a[0]] + a[1..] && b == [b[0]] + b[1..];
    }
  }
}
