/**
 The clean-up pipeline applied to every definition scraped from a Wiktionary
 page: non-breaking spaces become spaces, the vocabulary marks are cut out,
 usage samples after the first '◆' are dropped, footnote markers such as
 "[1]" or "[a 12]" become spaces, the ends are trimmed and runs of spaces are
 collapsed. Definitions left empty are dropped. Regex `\d` is read as an
 ASCII digit and `.` as any character but a line feed.
 */
module WikiParser {

  import opened Seqs
  import opened Text

  const NBSP := '\U{A0}'
  const SAMPLE_MARK := '\U{25C6}'

  /** `c in r` only for characters of `s` or in `extra`. */
  predicate CharsFrom(r: string, s: string, extra: set<char>) {
    forall c :: c in r ==> c in s || c in extra
  }

  lemma CharsFromCons(h: char, x: string, s: string, extra: set<char>)
    requires h in s || h in extra
    requires CharsFrom(x, s, extra)
    ensures CharsFrom([h] + x, s, extra)
  {
  }

  /** What comes from a slice of `s` comes from `s`. */
  lemma CharsFromSlice(x: string, s: string, a: nat, b: nat, extra: set<char>)
    requires a <= b <= |s| && CharsFrom(x, s[a..b], extra)
    ensures CharsFrom(x, s, extra)
  {
    forall c | c in x && c !in extra
      ensures c in s
    {
      InSlice(s, a, b, c);
    }
  }

  /** A slice of `s` has its characters from `s`. */
  lemma SliceCharsFrom(r: string, s: string, a: nat)
    requires a + |r| <= |s| && r == s[a..a + |r|]
    ensures CharsFrom(r, s, {})
  {
    forall c | c in r
      ensures c in s
    {
      InSlice(s, a, a + |r|, c);
    }
  }

  /** A suffix of a text whose characters come from `s` has its characters from `s`. */
  lemma SuffixCharsFrom(r: string, d: string, s: string)
    requires |r| <= |d| && r == d[|d| - |r|..] && CharsFrom(d, s, {})
    ensures CharsFrom(r, s, {})
  {
    SliceCharsFrom(r, d, |d| - |r|);
    CharsFromTrans(r, d, s);
  }

  lemma CharsFromTrans(x: string, y: string, s: string)
    requires CharsFrom(x, y, {}) && CharsFrom(y, s, {})
    ensures CharsFrom(x, s, {})
  {
  }

  // ---------------------------------------------------------------------------
  // replace_u

  /** Every non-breaking space becomes a plain space; nothing else moves. */
  function ReplaceU(def: string): (r: string)
    ensures |r| == |def|
    ensures forall i :: 0 <= i < |def| ==> r[i] == (if def[i] == NBSP then ' ' else def[i])
  {
    ReplaceCharByChar(def, NBSP, ' ');
    ReplaceAll(def, [NBSP], " ")
  }

  lemma ReplaceUChars(def: string)
    ensures NBSP !in ReplaceU(def)
    ensures CharsFrom(ReplaceU(def), def, {' '})
  {
    var r := ReplaceU(def);
    forall c | c in r
      ensures c != NBSP && (c in def || c == ' ')
    {
      var i :| 0 <= i < |r| && r[i] == c;
      assert def[i] in def;
    }
  }

  // ---------------------------------------------------------------------------
  // remove_multiple_spaces

  /** The string after its leading run of spaces. */
  function DropSpaces(s: string): (r: string)
    ensures |r| <= |s| && r == s[|s| - |r|..]
    ensures forall i :: 0 <= i < |s| - |r| ==> s[i] == ' '
    ensures |r| > 0 ==> r[0] != ' '
    decreases |s|
  {
    if |s| > 0 && s[0] == ' ' then DropSpaces(s[1..]) else s
  }

  /** The pattern " +" replaced by " ": every run of spaces shrinks to one space. */
  function RemoveMultipleSpaces(s: string): (r: string)
    ensures |r| <= |s|
    ensures |r| == 0 <==> |s| == 0
    ensures |s| > 0 ==> (r[0] == ' ' <==> s[0] == ' ')
    ensures |s| > 0 && s[0] != ' ' ==> r[0] == s[0]
    ensures |s| > 0 && s[|s| - 1] != ' ' ==> r[|r| - 1] == s[|s| - 1]
    ensures NoDoubleSpace(r)
    decreases |s|
  {
    if |s| == 0 then ""
    else if s[0] == ' ' then
      var rest := DropSpaces(s);
      assert s[|s| - 1] != ' ' ==> |rest| > 0 && rest[|rest| - 1] == s[|s| - 1];
      " " + RemoveMultipleSpaces(rest)
    else [s[0]] + RemoveMultipleSpaces(s[1..])
  }

  /**
   The reading of " +" → " " character by character: a character is kept
   unless it is a space that follows a space. `afterSpace` says whether the
   character just before `s` was a space.
   */
  function CollapseFrom(s: string, afterSpace: bool): string
    decreases |s|
  {
    if |s| == 0 then ""
    else (if s[0] == ' ' && afterSpace then "" else [s[0]]) + CollapseFrom(s[1..], s[0] == ' ')
  }

  /** After a space, the spaces that follow are all dropped. */
  lemma {:induction false} CollapseAfterSpace(t: string)
    ensures CollapseFrom(t, true) == CollapseFrom(DropSpaces(t), false)
    decreases |t|
  {
    if |t| > 0 && t[0] == ' ' {
      CollapseAfterSpace(t[1..]);
    }
  }

  /** Collapsing runs keeps exactly the characters that are not a space after a space. */
  lemma {:induction false} RemoveMultipleSpacesIsCollapse(s: string)
    ensures RemoveMultipleSpaces(s) == CollapseFrom(s, false)
    decreases |s|
  {
    if |s| > 0 {
      if s[0] == ' ' {
        assert DropSpaces(s) == DropSpaces(s[1..]);
        RemoveMultipleSpacesIsCollapse(DropSpaces(s));
        CollapseAfterSpace(s[1..]);
      } else {
        RemoveMultipleSpacesIsCollapse(s[1..]);
      }
    }
  }

  /** A string without adjacent spaces is left as it is. */
  lemma {:induction false} NoDoubleSpaceFixed(s: string)
    requires NoDoubleSpace(s)
    ensures RemoveMultipleSpaces(s) == s
    decreases |s|
  {
    if |s| > 0 {
      assert NoDoubleSpace(s[1..]);
      NoDoubleSpaceFixed(s[1..]);
      if s[0] == ' ' {
        assert DropSpaces(s) == s[1..];
      }
      assert s == [s[0]] + s[1..];
    }
  }

  lemma RemoveMultipleSpacesIdempotent(s: string)
    ensures RemoveMultipleSpaces(RemoveMultipleSpaces(s)) == RemoveMultipleSpaces(s)
  {
    NoDoubleSpaceFixed(RemoveMultipleSpaces(s));
  }

  /** `s` with every space removed. */
  function WithoutSpaces(s: string): string
    decreases |s|
  {
    if |s| == 0 then "" else (if s[0] == ' ' then "" else [s[0]]) + WithoutSpaces(s[1..])
  }

  lemma {:induction false} DropSpacesKeepsNonSpaces(s: string)
    ensures WithoutSpaces(DropSpaces(s)) == WithoutSpaces(s)
    decreases |s|
  {
    if |s| > 0 && s[0] == ' ' {
      DropSpacesKeepsNonSpaces(s[1..]);
    }
  }

  /** Collapsing spaces only touches spaces: the other characters stay, in order. */
  lemma {:induction false} RemoveMultipleSpacesKeepsText(s: string)
    ensures WithoutSpaces(RemoveMultipleSpaces(s)) == WithoutSpaces(s)
    decreases |s|
  {
    if |s| > 0 {
      var r := RemoveMultipleSpaces(s);
      if s[0] == ' ' {
        var rest := DropSpaces(s);
        RemoveMultipleSpacesKeepsText(rest);
        DropSpacesKeepsNonSpaces(s);
        assert r[1..] == RemoveMultipleSpaces(rest);
      } else {
        RemoveMultipleSpacesKeepsText(s[1..]);
        assert r[1..] == RemoveMultipleSpaces(s[1..]);
      }
    }
  }

  lemma {:induction false} RemoveMultipleSpacesChars(s: string)
    ensures CharsFrom(RemoveMultipleSpaces(s), s, {})
    decreases |s|
  {
    if |s| > 0 {
      if s[0] == ' ' {
        var rest := DropSpaces(s);
        RemoveMultipleSpacesChars(rest);
        CharsFromSlice(RemoveMultipleSpaces(rest), s, |s| - |rest|, |s|, {});
        CharsFromCons(' ', RemoveMultipleSpaces(rest), s, {});
      } else {
        RemoveMultipleSpacesChars(s[1..]);
        CharsFromSlice(RemoveMultipleSpaces(s[1..]), s, 1, |s|, {});
        CharsFromCons(s[0], RemoveMultipleSpaces(s[1..]), s, {});
      }
    }
  }

  /** A string already trimmed stays trimmed. */
  lemma RemoveMultipleSpacesTrimmed(s: string)
    requires Trimmed(s)
    ensures Trimmed(RemoveMultipleSpaces(s))
  {
  }

  // ---------------------------------------------------------------------------
  // remove_samples

  /** The part before the first '◆', or all of it when there is none. */
  function RemoveSamples(s: string): (r: string)
    ensures r <= s
    ensures SAMPLE_MARK !in r
    ensures |r| < |s| ==> s[|r|] == SAMPLE_MARK
  {
    if SAMPLE_MARK in s then s[..IndexOf(s, SAMPLE_MARK)] else s
  }

  /** Whatever follows the first '◆' is dropped, later marks included. */
  lemma RemoveSamplesCutsAtFirst(a: string, b: string)
    requires SAMPLE_MARK !in a
    ensures RemoveSamples(a + [SAMPLE_MARK] + b) == a
  {
    var s := a + [SAMPLE_MARK] + b;
    assert s[|a|] == SAMPLE_MARK;
    assert forall k :: 0 <= k < |a| ==> s[k] == a[k];
    assert s[..|a|] == a;
  }

  lemma RemoveSamplesChars(s: string)
    ensures CharsFrom(RemoveSamples(s), s, {})
  {
    var r := RemoveSamples(s);
    forall c | c in r
      ensures c in s
    {
      InSlice(s, 0, |r|, c);
    }
  }

  // ---------------------------------------------------------------------------
  // remove_noise

  /** Length of the run of ASCII digits starting at `i`. */
  function DigitRun(s: string, i: nat): (n: nat)
    requires i <= |s|
    ensures i + n <= |s|
    ensures forall j :: i <= j < i + n ==> IsAsciiDigit(s[j])
    ensures i + n < |s| ==> !IsAsciiDigit(s[i + n])
    decreases |s| - i
  {
    if i < |s| && IsAsciiDigit(s[i]) then 1 + DigitRun(s, i + 1) else 0
  }

  /** `t` is matched by `\[. \d+\]` or by `\[\d+\]`. */
  predicate IsMarker(t: string) {
    (|t| >= 5 && t[0] == '[' && t[1] != '\n' && t[2] == ' ' && AllDigits(t[3..|t| - 1]) && t[|t| - 1] == ']') ||
    (|t| >= 3 && t[0] == '[' && AllDigits(t[1..|t| - 1]) && t[|t| - 1] == ']')
  }

  /** The length of the marker the pattern matches at the start of `s`, if any. */
  function MarkerAt(s: string): (m: Option<nat>)
    ensures m.Some? ==> 3 <= m.value <= |s| && IsMarker(s[..m.value])
  {
    if |s| >= 5 && s[0] == '[' && s[1] != '\n' && s[2] == ' ' && DigitRun(s, 3) > 0 &&
       3 + DigitRun(s, 3) < |s| && s[3 + DigitRun(s, 3)] == ']' then
      var n := 4 + DigitRun(s, 3);
      var digits := s[..n][3..n - 1];
      assert forall j :: 0 <= j < |digits| ==> digits[j] == s[3 + j];
      Some(n)
    else if |s| >= 3 && s[0] == '[' && DigitRun(s, 1) > 0 &&
            1 + DigitRun(s, 1) < |s| && s[1 + DigitRun(s, 1)] == ']' then
      var n := 2 + DigitRun(s, 1);
      var digits := s[..n][1..n - 1];
      assert forall j :: 0 <= j < |digits| ==> digits[j] == s[1 + j];
      Some(n)
    else None
  }

  /** The run of digits ends exactly where a ']' follows all-digit text. */
  lemma DigitRunEndsAt(s: string, i: nat, e: nat)
    requires i <= e < |s| && AllDigits(s[i..e]) && !IsAsciiDigit(s[e])
    ensures DigitRun(s, i) == e - i
  {
    assert forall j :: i <= j < e ==> s[i..e][j - i] == s[j];
  }

  /** The marker found at the start is the only prefix the pattern matches there. */
  lemma {:induction false} MarkerAtExact(s: string, n: nat)
    requires n <= |s| && IsMarker(s[..n])
    ensures MarkerAt(s) == Some(n)
  {
    var t := s[..n];
    if |t| >= 5 && t[0] == '[' && t[1] != '\n' && t[2] == ' ' && AllDigits(t[3..|t| - 1]) && t[|t| - 1] == ']' {
      assert t[3..n - 1] == s[3..n - 1];
      DigitRunEndsAt(s, 3, n - 1);
    } else {
      assert t[1..n - 1] == s[1..n - 1];
      DigitRunEndsAt(s, 1, n - 1);
      assert s[2] == t[2] && (n == 3 || t[2] == t[1..n - 1][1]);
    }
  }

  /** Each marker, scanning from the left, is replaced by one space. */
  function ReplaceMarkers(s: string): (r: string)
    ensures |r| <= |s|
    decreases |s|
  {
    if |s| == 0 then ""
    else match MarkerAt(s)
      case Some(n) => " " + ReplaceMarkers(s[n..])
      case None => [s[0]] + ReplaceMarkers(s[1..])
  }

  /** Where no marker starts, the character is kept and the scan moves on by one. */
  lemma NoMarkerKept(s: string)
    requires |s| > 0 && MarkerAt(s).None?
    ensures ReplaceMarkers(s) == [s[0]] + ReplaceMarkers(s[1..])
  {
  }

  /** Every marker opens with '['. */
  lemma NoBracketNoMarker(s: string)
    requires |s| > 0 && s[0] != '['
    ensures MarkerAt(s).None?
  {
  }

  lemma PlainCharKept(a: string, b: string)
    requires |a| > 0 && a[0] != '['
    ensures ReplaceMarkers(a + b) == [a[0]] + ReplaceMarkers(a[1..] + b)
  {
    var s := a + b;
    assert s[0] == a[0];
    NoBracketNoMarker(s);
    NoMarkerKept(s);
    assert s[1..] == a[1..] + b;
  }

  /** Text without an opening bracket in front of the rest is kept as it is. */
  lemma {:induction false} ReplaceMarkersPlainPrefix(a: string, b: string)
    requires '[' !in a
    ensures ReplaceMarkers(a + b) == a + ReplaceMarkers(b)
    decreases |a|
  {
    if |a| == 0 {
      assert a + b == b;
    } else {
      assert a[0] in a;
      PlainCharKept(a, b);
      assert '[' !in a[1..];
      ReplaceMarkersPlainPrefix(a[1..], b);
      assert a == [a[0]] + a[1..];
    }
  }

  /** A marker after plain text becomes one space: "see[1] more" reads "see" + " " + " more". */
  lemma MarkerAfterPlain(a: string, m: string, b: string)
    requires '[' !in a && IsMarker(m)
    ensures ReplaceMarkers(a + m + b) == a + " " + ReplaceMarkers(b)
  {
    ReplaceMarkersPlainPrefix(a, m + b);
    assert a + m + b == a + (m + b);
    assert (m + b)[..|m|] == m;
    MarkerReplaced(m + b, |m|);
    assert (m + b)[|m|..] == b;
  }

  /** Replacing markers brings in no character but the space. */
  lemma {:induction false} ReplaceMarkersChars(s: string)
    ensures CharsFrom(ReplaceMarkers(s), s, {' '})
    decreases |s|
  {
    if |s| > 0 {
      match MarkerAt(s)
      case Some(n) =>
        var rest := ReplaceMarkers(s[n..]);
        ReplaceMarkersChars(s[n..]);
        CharsFromSlice(rest, s, n, |s|, {' '});
        CharsFromCons(' ', rest, s, {' '});
      case None =>
        var rest := ReplaceMarkers(s[1..]);
        ReplaceMarkersChars(s[1..]);
        CharsFromSlice(rest, s, 1, |s|, {' '});
        CharsFromCons(s[0], rest, s, {' '});
    }
  }

  /** A marker at the front becomes one space and the scan resumes after it. */
  lemma MarkerReplaced(s: string, n: nat)
    requires 0 < n <= |s| && IsMarker(s[..n])
    ensures ReplaceMarkers(s) == " " + ReplaceMarkers(s[n..])
  {
    MarkerAtExact(s, n);
  }

  /** Text without an opening bracket has no marker and is left as it is. */
  lemma {:induction false} ReplaceMarkersNoBracket(s: string)
    requires '[' !in s
    ensures ReplaceMarkers(s) == s
    decreases |s|
  {
    if |s| > 0 {
      assert s[0] != '[';
      assert '[' !in s[1..];
      ReplaceMarkersNoBracket(s[1..]);
      assert s == [s[0]] + s[1..];
    }
  }

  lemma {:induction false} TrimChars(s: string)
    ensures CharsFrom(Trim(s), s, {})
  {
    var r := Trim(s);
    var a: nat :| WhitespaceAround(s, r, a);
    SliceCharsFrom(r, s, a);
  }

  /** Markers become spaces, then the ends are trimmed. */
  function RemoveNoise(s: string): (r: string)
    ensures Trimmed(r)
    ensures |r| <= |s|
    ensures CharsFrom(r, s, {' '})
  {
    var m := ReplaceMarkers(s);
    ReplaceMarkersChars(s);
    TrimChars(m);
    Trim(m)
  }

  /** The noise-free text is the marker-replaced text with the whitespace at both ends removed. */
  lemma RemoveNoiseTrimsMarkers(s: string)
    ensures exists a: nat :: WhitespaceAround(ReplaceMarkers(s), RemoveNoise(s), a)
  {
    var m := ReplaceMarkers(s);
    var a: nat :| WhitespaceAround(m, Trim(m), a);
    assert RemoveNoise(s) == Trim(m);
    assert WhitespaceAround(m, RemoveNoise(s), a);
  }

  // ---------------------------------------------------------------------------
  // remove_vocs

  /** Deletes every occurrence of each voc in turn, in list order. */
  function DeleteVocs(vocs: seq<string>, s: string): (r: string)
    ensures |vocs| == 0 ==> r == s
    ensures |r| <= |s|
    ensures CharsFrom(r, s, {})
    decreases |vocs|
  {
    if |vocs| == 0 then s
    else
      var prev := DeleteVocs(vocs[..|vocs| - 1], s);
      DeleteShrinks(prev, vocs[|vocs| - 1]);
      ReplaceAll(prev, vocs[|vocs| - 1], "")
  }

  /**
   Each voc in turn: the text so far is cut at every occurrence of the voc and
   the pieces are put back together with nothing between them. An empty voc
   deletes nothing.
   */
  lemma DeleteVocsStep(vocs: seq<string>, s: string)
    requires |vocs| > 0
    ensures var n := |vocs| - 1;
      |vocs[n]| > 0 ==> DeleteVocs(vocs, s) == Join("", Split(DeleteVocs(vocs[..n], s), vocs[n]))
    ensures var n := |vocs| - 1;
      |vocs[n]| == 0 ==> DeleteVocs(vocs, s) == DeleteVocs(vocs[..n], s)
  {
    var n := |vocs| - 1;
    var prev := DeleteVocs(vocs[..n], s);
    if |vocs[n]| > 0 {
      ReplaceIsSplitJoin(prev, vocs[n], "");
    } else {
      ReplaceEmptyByEmpty(prev);
    }
  }

  /** No voc occurs: nothing is deleted. */
  lemma {:induction false} DeleteVocsAbsent(vocs: seq<string>, s: string)
    requires forall i :: 0 <= i < |vocs| ==> |vocs[i]| == 0 || !Contains(s, vocs[i])
    ensures DeleteVocs(vocs, s) == s
    decreases |vocs|
  {
    if |vocs| > 0 {
      var n := |vocs| - 1;
      assert forall i :: 0 <= i < n ==> vocs[..n][i] == vocs[i];
      DeleteVocsAbsent(vocs[..n], s);
      if |vocs[n]| == 0 {
        ReplaceEmptyByEmpty(s);
      } else {
        ReplaceAbsent(s, vocs[n], "");
      }
    }
  }

  /** The vocs are deleted, then every leading ", " is stripped. */
  function RemoveVocs(vocs: seq<string>, def: string): (r: string)
    ensures !(", " <= r)
    ensures |r| <= |def|
    ensures CharsFrom(r, def, {})
  {
    var d := DeleteVocs(vocs, def);
    var r := TrimStartMatches(d, ", ");
    SuffixCharsFrom(r, d, def);
    r
  }

  /** What is stripped after the deletions is whole repetitions of ", ". */
  lemma RemoveVocsStripsSeparators(vocs: seq<string>, def: string)
    ensures exists k: nat :: DeleteVocs(vocs, def) == Repeat(", ", k) + RemoveVocs(vocs, def)
  {
    var d := DeleteVocs(vocs, def);
    var k: nat :| d == Repeat(", ", k) + TrimStartMatches(d, ", ");
    assert RemoveVocs(vocs, def) == TrimStartMatches(d, ", ");
  }

  lemma RemoveVocsAbsent(vocs: seq<string>, def: string)
    requires forall i :: 0 <= i < |vocs| ==> |vocs[i]| == 0 || !Contains(def, vocs[i])
    ensures RemoveVocs(vocs, def) == TrimStartMatches(def, ", ")
  {
    DeleteVocsAbsent(vocs, def);
  }

  // ---------------------------------------------------------------------------
  // pretty_definition

  /**
   The whole pipeline. A pretty definition has no adjacent spaces, no
   whitespace at either end, no non-breaking space and no sample mark, and
   brings in no character but the space.
   */
  function PrettyDefinition(vocs: seq<string>, def: string): (r: string)
    ensures NoDoubleSpace(r) && Trimmed(r)
    ensures NBSP !in r && SAMPLE_MARK !in r
    ensures CharsFrom(r, def, {' '})
  {
    var u := ReplaceU(def);
    var v := RemoveVocs(vocs, u);
    var p := RemoveSamples(v);
    var n := RemoveNoise(p);
    ReplaceUChars(def);
    RemoveSamplesChars(v);
    RemoveMultipleSpacesChars(n);
    RemoveMultipleSpacesTrimmed(n);
    StagesChars(RemoveMultipleSpaces(n), n, p, v, u, def);
    RemoveMultipleSpaces(n)
  }

  /** Following each character of the result back through the stages. */
  lemma StagesChars(r: string, n: string, p: string, v: string, u: string, def: string)
    requires CharsFrom(r, n, {}) && CharsFrom(n, p, {' '}) && CharsFrom(p, v, {})
    requires CharsFrom(v, u, {}) && CharsFrom(u, def, {' '})
    requires NBSP !in u && SAMPLE_MARK !in p
    ensures NBSP !in r && SAMPLE_MARK !in r
    ensures CharsFrom(r, def, {' '})
  {
    forall c | c in r
      ensures c != NBSP && c != SAMPLE_MARK && (c in def || c == ' ')
    {
      assert c in n;
      if c != ' ' {
        assert c in p;
        assert c in v;
        assert c in u;
      }
    }
  }

  /** A definition that is already clean comes out unchanged. */
  lemma PrettyDefinitionKeepsClean(vocs: seq<string>, def: string)
    requires forall i :: 0 <= i < |vocs| ==> |vocs[i]| == 0 || !Contains(def, vocs[i])
    requires NBSP !in def && SAMPLE_MARK !in def && '[' !in def
    requires !(", " <= def) && Trimmed(def) && NoDoubleSpace(def)
    ensures PrettyDefinition(vocs, def) == def
  {
    assert ReplaceU(def) == def;
    RemoveVocsAbsent(vocs, def);
    assert RemoveSamples(def) == def;
    ReplaceMarkersNoBracket(def);
    TrimTrimmed(def);
    NoDoubleSpaceFixed(def);
  }

  // ---------------------------------------------------------------------------
  // The empty-definition filter

  function PrettyPair(item: (seq<string>, string)): (seq<string>, string) {
    (item.0, PrettyDefinition(item.0, item.1))
  }

  /** The pairs whose definition is not empty, in order. */
  function KeepNonEmpty(pairs: seq<(seq<string>, string)>): (r: seq<(seq<string>, string)>)
    ensures |r| <= |pairs|
    ensures forall k :: 0 <= k < |r| ==> r[k].1 != "" && r[k] in pairs
    ensures forall i :: 0 <= i < |pairs| && pairs[i].1 != "" ==> pairs[i] in r
    ensures |pairs| == 1 ==> r == (if pairs[0].1 != "" then pairs else [])
    decreases |pairs|
  {
    if |pairs| == 0 then []
    else
      var n := |pairs| - 1;
      assert forall i :: 0 <= i < n ==> pairs[..n][i] == pairs[i];
      var prev := KeepNonEmpty(pairs[..n]);
      if pairs[n].1 != "" then prev + [pairs[n]] else prev
  }

  /** Filtering a concatenation filters each part and keeps their order. */
  lemma {:induction false} KeepNonEmptyConcat(a: seq<(seq<string>, string)>, b: seq<(seq<string>, string)>)
    ensures KeepNonEmpty(a + b) == KeepNonEmpty(a) + KeepNonEmpty(b)
    decreases |b|
  {
    if |b| == 0 {
      assert a + b == a;
    } else {
      var n := |b| - 1;
      assert (a + b)[..|a + b| - 1] == a + b[..n];
      assert (a + b)[|a + b| - 1] == b[n];
      KeepNonEmptyConcat(a, b[..n]);
    }
  }

  /** The pretty form of each scraped definition, keeping only the non-empty ones, in order. */
  function KeepPrettyDefinitions(items: seq<(seq<string>, string)>): (r: seq<(seq<string>, string)>)
    ensures |r| <= |items|
    ensures forall k :: 0 <= k < |r| ==> r[k].1 != ""
    ensures forall k :: 0 <= k < |r| ==> r[k] in MapSeq(items, PrettyPair)
    ensures forall i :: 0 <= i < |items| && PrettyPair(items[i]).1 != "" ==> PrettyPair(items[i]) in r
    ensures |items| == 1 ==> r == (if PrettyPair(items[0]).1 != "" then [PrettyPair(items[0])] else [])
  {
    var m := MapSeq(items, PrettyPair);
    assert |items| == 1 ==> m == [PrettyPair(items[0])];
    KeepNonEmpty(m)
  }

  /** Definitions are handled one by one: the result for a concatenation is the results for its parts, in order. */
  lemma KeepPrettyDefinitionsConcat(a: seq<(seq<string>, string)>, b: seq<(seq<string>, string)>)
    ensures KeepPrettyDefinitions(a + b) == KeepPrettyDefinitions(a) + KeepPrettyDefinitions(b)
  {
    MapSeqConcat(a, b, PrettyPair);
    KeepNonEmptyConcat(MapSeq(a, PrettyPair), MapSeq(b, PrettyPair));
  }

  /** Every kept definition is clean. */
  lemma KeptDefinitionsClean(items: seq<(seq<string>, string)>)
    ensures forall k :: 0 <= k < |KeepPrettyDefinitions(items)| ==>
      NoDoubleSpace(KeepPrettyDefinitions(items)[k].1) && Trimmed(KeepPrettyDefinitions(items)[k].1)
  {
    var r := KeepPrettyDefinitions(items);
    forall k | 0 <= k < |r|
      ensures NoDoubleSpace(r[k].1) && Trimmed(r[k].1)
    {
      var i :| 0 <= i < |items| && MapSeq(items, PrettyPair)[i] == r[k];
      assert r[k].1 == PrettyDefinition(items[i].0, items[i].1);
    }
  }
}
