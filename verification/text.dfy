/**
 The parts of Rust's `str`/`String` API that the modelled code relies on,
 on strings as sequences of Unicode scalar values: `to_string` of integers,
 `join`, `replace`, `split`, `trim`, `trim_start_matches`, `len` (UTF-8
 bytes) and `char::is_whitespace`.
 */
module Text {

  import opened Seqs

  predicate IsAsciiDigit(c: char) {
    '0' <= c <= '9'
  }

  predicate AllDigits(s: string) {
    forall i :: 0 <= i < |s| ==> IsAsciiDigit(s[i])
  }

  function DigitChar(d: nat): (c: char)
    requires d < 10
    ensures IsAsciiDigit(c) && c as int - '0' as int == d
  {
    (d + '0' as int) as char
  }

  /** Decimal rendering of a natural number, as Rust's `Display`. */
  function NatToString(n: nat): (r: string)
    ensures |r| > 0 && AllDigits(r)
    ensures |r| > 1 ==> r[0] != '0'
    decreases n
  {
    if n < 10 then [DigitChar(n)]
    else NatToString(n / 10) + [DigitChar(n % 10)]
  }

  /** The value of a string of decimal digits (the inverse of `NatToString`). */
  function DigitsValue(s: string): nat
    requires AllDigits(s)
    decreases |s|
  {
    if |s| == 0 then 0
    else DigitsValue(s[..|s| - 1]) * 10 + (s[|s| - 1] as int - '0' as int)
  }

  lemma {:induction false} NatToStringRoundTrip(n: nat)
    ensures DigitsValue(NatToString(n)) == n
    decreases n
  {
    if n >= 10 {
      var s := NatToString(n);
      assert s[..|s| - 1] == NatToString(n / 10);
      NatToStringRoundTrip(n / 10);
    }
  }

  /** Decimal rendering of an integer, with a leading '-' when negative. */
  function IntToString(i: int): (r: string)
    ensures |r| > 0
    ensures r[0] == '-' <==> i < 0
  {
    if i < 0 then "-" + NatToString(-i) else NatToString(i)
  }

  /** Parses what `IntToString` renders: an optional '-' and at least one digit. */
  function ParseInt(s: string): Option<int> {
    if |s| > 1 && s[0] == '-' && AllDigits(s[1..]) then Some(0 - DigitsValue(s[1..]) as int)
    else if |s| > 0 && AllDigits(s) then Some(DigitsValue(s))
    else None
  }

  lemma IntToStringRoundTrip(i: int)
    ensures ParseInt(IntToString(i)) == Some(i)
  {
    if i < 0 {
      assert IntToString(i)[1..] == NatToString(-i);
      NatToStringRoundTrip(-i);
    } else {
      NatToStringRoundTrip(i);
    }
  }

  lemma IntToStringInjective(i: int, j: int)
    ensures IntToString(i) == IntToString(j) <==> i == j
  {
    IntToStringRoundTrip(i);
    IntToStringRoundTrip(j);
  }

  /** A rendered integer holds only digits and a leading '-'. */
  lemma IntToStringChars(i: int, c: char)
    requires c != '-' && !IsAsciiDigit(c)
    ensures c !in IntToString(i)
  {
    if i < 0 {
      assert IntToString(i) == "-" + NatToString(-i);
    }
  }

  /** `parts.join(sep)`. */
  function Join(sep: string, parts: seq<string>): string
    decreases |parts|
  {
    if |parts| == 0 then ""
    else if |parts| == 1 then parts[0]
    else parts[0] + sep + Join(sep, parts[1..])
  }

  /** A join starts with its first part. */
  lemma JoinStartsWithFirst(sep: string, parts: seq<string>)
    requires |parts| > 0
    ensures parts[0] <= Join(sep, parts)
  {
  }

  /** Appending one more part adds the separator and that part. */
  lemma {:induction false} JoinSnoc(sep: string, parts: seq<string>, last: string)
    requires |parts| > 0
    ensures Join(sep, parts + [last]) == Join(sep, parts) + sep + last
    decreases |parts|
  {
    if |parts| > 1 {
      assert (parts + [last])[1..] == parts[1..] + [last];
      JoinSnoc(sep, parts[1..], last);
    }
  }

  /** Extending the first part extends the joined string at the front. */
  lemma JoinHead(sep: string, c: string, parts: seq<string>)
    requires |parts| > 0
    ensures Join(sep, [c + parts[0]] + parts[1..]) == c + Join(sep, parts)
  {
    if |parts| > 1 {
      assert ([c + parts[0]] + parts[1..])[1..] == parts[1..];
    }
  }

  /**
   `s.replace(pat, rep)`: every non-overlapping occurrence of `pat`, found
   from the left, is replaced by `rep`. An empty pattern matches before every
   character and at the end.
   */
  function ReplaceAll(s: string, pat: string, rep: string): string
    decreases |s|
  {
    if |pat| == 0 then
      if |s| == 0 then rep else rep + [s[0]] + ReplaceAll(s[1..], pat, rep)
    else if |s| == 0 then ""
    else if pat <= s then rep + ReplaceAll(s[|pat|..], pat, rep)
    else [s[0]] + ReplaceAll(s[1..], pat, rep)
  }

  /** `s.split(pat)` for a non-empty pattern: the pieces between the occurrences. */
  function Split(s: string, pat: string): (pieces: seq<string>)
    requires |pat| > 0
    ensures |pieces| > 0
    decreases |s|
  {
    if |s| == 0 then [""]
    else if pat <= s then [""] + Split(s[|pat|..], pat)
    else
      var rest := Split(s[1..], pat);
      [[s[0]] + rest[0]] + rest[1..]
  }

  /** A piece without the separator character is not split. */
  lemma {:induction false} SplitNoSeparator(p: string, sep: char)
    requires sep !in p
    ensures Split(p, [sep]) == [p]
    decreases |p|
  {
    if |p| > 0 {
      assert p[0] != sep;
      assert sep !in p[1..];
      SplitNoSeparator(p[1..], sep);
      assert p == [p[0]] + p[1..];
    }
  }

  /** The first separator after a separator-free piece ends that piece. */
  lemma {:induction false} SplitAfterPiece(p: string, sep: char, x: string)
    requires sep !in p
    ensures Split(p + [sep] + x, [sep]) == [p] + Split(x, [sep])
    decreases |p|
  {
    var s := p + [sep] + x;
    if |p| == 0 {
      assert [sep] <= s;
      assert s[1..] == x;
    } else {
      assert p[0] != sep;
      assert sep !in p[1..];
      SplitAfterPiece(p[1..], sep, x);
      assert s[1..] == p[1..] + [sep] + x;
      assert p == [p[0]] + p[1..];
    }
  }

  /** Splitting at a separator character that no part contains gives the parts back. */
  lemma {:induction false} SplitJoin(parts: seq<string>, sep: char)
    requires |parts| > 0
    requires forall i :: 0 <= i < |parts| ==> sep !in parts[i]
    ensures Split(Join([sep], parts), [sep]) == parts
    decreases |parts|
  {
    if |parts| == 1 {
      SplitNoSeparator(parts[0], sep);
    } else {
      SplitJoin(parts[1..], sep);
      SplitAfterPiece(parts[0], sep, Join([sep], parts[1..]));
      assert parts == [parts[0]] + parts[1..];
    }
  }

  /** Joining the pieces of a split with the pattern gives back the string. */
  lemma {:induction false} JoinSplit(s: string, pat: string)
    requires |pat| > 0
    ensures Join(pat, Split(s, pat)) == s
    decreases |s|
  {
    if |s| == 0 {
    } else if pat <= s {
      JoinSplit(s[|pat|..], pat);
      JoinSplitAtMatch(s, pat);
    } else {
      JoinSplit(s[1..], pat);
      JoinSplitPastChar(s, pat);
    }
  }

  lemma {:induction false} JoinSplitAtMatch(s: string, pat: string)
    requires |pat| > 0 && |s| > 0 && pat <= s
    requires Join(pat, Split(s[|pat|..], pat)) == s[|pat|..]
    ensures Join(pat, Split(s, pat)) == s
  {
    var rest := Split(s[|pat|..], pat);
    assert Split(s, pat) == [""] + rest;
    JoinCons(pat, "", rest);
    assert "" + pat == pat;
    assert s == pat + s[|pat|..];
  }

  lemma {:induction false} JoinSplitPastChar(s: string, pat: string)
    requires |pat| > 0 && |s| > 0 && !(pat <= s)
    requires Join(pat, Split(s[1..], pat)) == s[1..]
    ensures Join(pat, Split(s, pat)) == s
  {
    var rest := Split(s[1..], pat);
    assert Split(s, pat) == [[s[0]] + rest[0]] + rest[1..];
    JoinHead(pat, [s[0]], rest);
    assert s == [s[0]] + s[1..];
  }

  /** A part in front of at least one more is followed by the separator. */
  lemma JoinCons(sep: string, first: string, rest: seq<string>)
    requires |rest| > 0
    ensures Join(sep, [first] + rest) == first + sep + Join(sep, rest)
  {
    assert ([first] + rest)[1..] == rest;
  }

  /** Replacing is splitting at the pattern and joining with the replacement. */
  lemma {:induction false} ReplaceIsSplitJoin(s: string, pat: string, rep: string)
    requires |pat| > 0
    ensures ReplaceAll(s, pat, rep) == Join(rep, Split(s, pat))
    decreases |s|
  {
    if |s| == 0 {
    } else if pat <= s {
      ReplaceIsSplitJoin(s[|pat|..], pat, rep);
    } else {
      ReplaceIsSplitJoin(s[1..], pat, rep);
      JoinHead(rep, [s[0]], Split(s[1..], pat));
    }
  }

  /** Deleting the empty string changes nothing. */
  lemma {:induction false} ReplaceEmptyByEmpty(s: string)
    ensures ReplaceAll(s, "", "") == s
    decreases |s|
  {
    if |s| > 0 {
      ReplaceEmptyByEmpty(s[1..]);
      assert s == [s[0]] + s[1..];
    }
  }

  /** A character of a slice is a character of the whole string. */
  lemma InSlice(s: string, a: nat, b: nat, c: char)
    requires a <= b <= |s| && c in s[a..b]
    ensures c in s
  {
    var k :| 0 <= k < b - a && s[a..b][k] == c;
    assert s[a + k] == c;
  }

  /** Deleting a pattern never lengthens a string and brings in no new character. */
  lemma {:induction false} DeleteShrinks(s: string, pat: string)
    ensures |ReplaceAll(s, pat, "")| <= |s|
    ensures forall c :: c in ReplaceAll(s, pat, "") ==> c in s
    decreases |s|
  {
    if |pat| == 0 {
      ReplaceEmptyByEmpty(s);
    } else if |s| > 0 {
      if pat <= s {
        DeleteShrinks(s[|pat|..], pat);
        DeleteShrinksAtMatch(s, pat);
      } else {
        DeleteShrinks(s[1..], pat);
        DeleteShrinksPastChar(s, pat);
      }
    }
  }

  lemma {:induction false} DeleteShrinksAtMatch(s: string, pat: string)
    requires |pat| > 0 && |s| > 0 && pat <= s
    requires |ReplaceAll(s[|pat|..], pat, "")| <= |s[|pat|..]|
    requires forall c :: c in ReplaceAll(s[|pat|..], pat, "") ==> c in s[|pat|..]
    ensures |ReplaceAll(s, pat, "")| <= |s|
    ensures forall c :: c in ReplaceAll(s, pat, "") ==> c in s
  {
    var rest := ReplaceAll(s[|pat|..], pat, "");
    assert ReplaceAll(s, pat, "") == "" + rest;
    assert "" + rest == rest;
    forall c | c in rest
      ensures c in s
    {
      InSlice(s, |pat|, |s|, c);
    }
  }

  lemma {:induction false} DeleteShrinksPastChar(s: string, pat: string)
    requires |pat| > 0 && |s| > 0 && !(pat <= s)
    requires |ReplaceAll(s[1..], pat, "")| <= |s[1..]|
    requires forall c :: c in ReplaceAll(s[1..], pat, "") ==> c in s[1..]
    ensures |ReplaceAll(s, pat, "")| <= |s|
    ensures forall c :: c in ReplaceAll(s, pat, "") ==> c in s
  {
    var rest := ReplaceAll(s[1..], pat, "");
    assert ReplaceAll(s, pat, "") == [s[0]] + rest;
    forall c | c in [s[0]] + rest
      ensures c in s
    {
      if c != s[0] {
        assert c in rest;
        InSlice(s, 1, |s|, c);
      }
    }
  }


  /** Replacing one character by one character works position by position. */
  lemma {:induction false} ReplaceCharByChar(s: string, c: char, d: char)
    ensures |ReplaceAll(s, [c], [d])| == |s|
    ensures forall i :: 0 <= i < |s| ==>
      ReplaceAll(s, [c], [d])[i] == (if s[i] == c then d else s[i])
    decreases |s|
  {
    if |s| > 0 {
      ReplaceCharByChar(s[1..], c, d);
      assert [c] <= s <==> s[0] == c;
      assert s[1..] == s[|[c]|..];
    }
  }

  /** `pat` occurs in `s` starting at position `i`. */
  predicate OccursAt(s: string, pat: string, i: int) {
    0 <= i && i + |pat| <= |s| && s[i..i + |pat|] == pat
  }

  predicate Contains(s: string, pat: string) {
    exists i :: 0 <= i <= |s| && OccursAt(s, pat, i)
  }

  /** A string without the pattern is left as it is. */
  lemma {:induction false} ReplaceAbsent(s: string, pat: string, rep: string)
    requires |pat| > 0 && !Contains(s, pat)
    ensures ReplaceAll(s, pat, rep) == s
    decreases |s|
  {
    if |s| > 0 {
      assert !OccursAt(s, pat, 0);
      assert !(pat <= s);
      forall i | 0 <= i <= |s[1..]|
        ensures !OccursAt(s[1..], pat, i)
      {
        if OccursAt(s[1..], pat, i) {
          assert s[1..][i..i + |pat|] == s[i + 1..i + 1 + |pat|];
          assert OccursAt(s, pat, i + 1);
        }
      }
      ReplaceAbsent(s[1..], pat, rep);
      assert s == [s[0]] + s[1..];
    }
  }

  /** Rust's `char::is_whitespace`: the Unicode White_Space property. */
  predicate IsWhitespace(c: char) {
    ('\U{9}' <= c <= '\U{D}') || c == ' ' || c == '\U{85}' || c == '\U{A0}' ||
    c == '\U{1680}' || ('\U{2000}' <= c <= '\U{200A}') || c == '\U{2028}' ||
    c == '\U{2029}' || c == '\U{202F}' || c == '\U{205F}' || c == '\U{3000}'
  }

  /** `s.trim_start()`: the suffix left after dropping leading whitespace. */
  function TrimStart(s: string): (r: string)
    ensures |r| <= |s| && r == s[|s| - |r|..]
    ensures forall i :: 0 <= i < |s| - |r| ==> IsWhitespace(s[i])
    ensures |r| > 0 ==> !IsWhitespace(r[0])
    decreases |s|
  {
    if |s| > 0 && IsWhitespace(s[0]) then TrimStart(s[1..]) else s
  }

  /** `s.trim_end()`: the prefix left after dropping trailing whitespace. */
  function TrimEnd(s: string): (r: string)
    ensures |r| <= |s| && r == s[..|r|]
    ensures forall i :: |r| <= i < |s| ==> IsWhitespace(s[i])
    ensures |r| > 0 ==> !IsWhitespace(r[|r| - 1])
    decreases |s|
  {
    if |s| > 0 && IsWhitespace(s[|s| - 1]) then TrimEnd(s[..|s| - 1]) else s
  }

  /** Neither end of `s` is whitespace. */
  predicate Trimmed(s: string) {
    |s| > 0 ==> !IsWhitespace(s[0]) && !IsWhitespace(s[|s| - 1])
  }

  /** `r` is the slice of `s` starting at `a`, and every character of `s` outside it is whitespace. */
  predicate WhitespaceAround(s: string, r: string, a: nat) {
    a + |r| <= |s| && r == s[a..a + |r|] &&
    (forall i :: 0 <= i < a ==> IsWhitespace(s[i])) &&
    (forall i :: a + |r| <= i < |s| ==> IsWhitespace(s[i]))
  }

  /** `s.trim()`: what is left of `s` once the whitespace at both ends is dropped. */
  function Trim(s: string): (r: string)
    ensures Trimmed(r)
    ensures |r| <= |s|
    ensures exists a: nat :: WhitespaceAround(s, r, a)
  {
    var t := TrimStart(s);
    var r := TrimEnd(t);
    TrimBothEnds(s, t, r);
    r
  }

  /** Trimming the start, then the end, leaves the slice between the two whitespace runs. */
  lemma TrimBothEnds(s: string, t: string, r: string)
    requires |t| <= |s| && t == s[|s| - |t|..]
    requires forall i :: 0 <= i < |s| - |t| ==> IsWhitespace(s[i])
    requires |t| > 0 ==> !IsWhitespace(t[0])
    requires |r| <= |t| && r == t[..|r|]
    requires forall i :: |r| <= i < |t| ==> IsWhitespace(t[i])
    requires |r| > 0 ==> !IsWhitespace(r[|r| - 1])
    ensures Trimmed(r) && WhitespaceAround(s, r, |s| - |t|)
  {
    var a := |s| - |t|;
    assert |r| > 0 ==> r[0] == t[0];
    assert r == s[a..a + |r|];
    forall i | a + |r| <= i < |s|
      ensures IsWhitespace(s[i])
    {
      assert s[i] == t[i - a];
    }
  }

  /** Text already trimmed is its own trim. */
  lemma {:induction false} TrimTrimmed(s: string)
    requires Trimmed(s)
    ensures Trim(s) == s
  {
    var r := Trim(s);
    var a: nat :| WhitespaceAround(s, r, a);
    if |s| > 0 {
      assert !IsWhitespace(s[0]) && !IsWhitespace(s[|s| - 1]);
      assert a == 0;
      assert a + |r| == |s|;
    }
  }

  /** `pat` written `k` times. */
  function Repeat(pat: string, k: nat): string {
    if k == 0 then "" else pat + Repeat(pat, k - 1)
  }

  /** One more leading `pat` in front of whole repetitions is still whole repetitions. */
  lemma {:induction false} RepeatOneMore(s: string, pat: string, r: string)
    requires |pat| > 0 && pat <= s
    requires exists k: nat :: s[|pat|..] == Repeat(pat, k) + r
    ensures exists k: nat :: s == Repeat(pat, k) + r
  {
    var k: nat :| s[|pat|..] == Repeat(pat, k) + r;
    assert s == pat + s[|pat|..];
    assert Repeat(pat, k + 1) == pat + Repeat(pat, k);
    assert s == Repeat(pat, k + 1) + r;
  }

  /** `s.trim_start_matches(pat)`: strips every leading repetition of `pat`. */
  function TrimStartMatches(s: string, pat: string): (r: string)
    ensures |r| <= |s| && r == s[|s| - |r|..]
    ensures |pat| > 0 ==> !(pat <= r)
    ensures exists k: nat :: s == Repeat(pat, k) + r
    decreases |s|
  {
    if |pat| > 0 && pat <= s then
      var r := TrimStartMatches(s[|pat|..], pat);
      RepeatOneMore(s, pat, r);
      r
    else
      assert s == Repeat(pat, 0) + s;
      s
  }

  /** Number of bytes of the UTF-8 encoding of one character. */
  function Utf8Width(c: char): (n: nat)
    ensures 1 <= n <= 4
    ensures n == 1 <==> c as int < 0x80
    ensures n == 2 <==> 0x80 <= c as int < 0x800
    ensures n == 3 <==> 0x800 <= c as int < 0x1_0000
    ensures n == 4 <==> 0x1_0000 <= c as int
  {
    if c as int < 0x80 then 1
    else if c as int < 0x800 then 2
    else if c as int < 0x1_0000 then 3
    else 4
  }

  /** `s.len()`: the length of `s` in UTF-8 bytes. */
  function Utf8Len(s: string): (n: nat)
    ensures |s| <= n <= 4 * |s|
    ensures |s| == 1 ==> n == Utf8Width(s[0])
    decreases |s|
  {
    if |s| == 0 then 0 else Utf8Width(s[0]) + Utf8Len(s[1..])
  }

  /** The bytes of a concatenation are the bytes of its parts. */
  lemma {:induction false} Utf8LenConcat(a: string, b: string)
    ensures Utf8Len(a + b) == Utf8Len(a) + Utf8Len(b)
    decreases |a|
  {
    if |a| == 0 {
      assert a + b == b;
    } else {
      assert (a + b)[0] == a[0];
      assert (a + b)[1..] == a[1..] + b;
      Utf8LenConcat(a[1..], b);
    }
  }

  /** Text whose characters all take `w` bytes takes `w` bytes per character. */
  lemma {:induction false} Utf8LenUniform(s: string, w: nat)
    requires forall i :: 0 <= i < |s| ==> Utf8Width(s[i]) == w
    ensures Utf8Len(s) == w * |s|
    decreases |s|
  {
    if |s| > 0 {
      assert forall i :: 0 <= i < |s| - 1 ==> s[1..][i] == s[i + 1];
      Utf8LenUniform(s[1..], w);
    }
  }

  /** No two spaces are adjacent. */
  predicate NoDoubleSpace(s: string) {
    forall i :: 0 <= i < |s| - 1 ==> !(s[i] == ' ' && s[i + 1] == ' ')
  }
}
