/**
 Rendering of values into SQL text: strings become quoted literals with each
 quote doubled, every other value is written as its `Display` text, and an
 `IN` list joins the rendered values with commas.
 */
module DbCommon {

  import opened Seqs
  import opened Text

  /**
   A value handed to the renderer: the dynamic type check only recognises
   `String` and `&str`, so a value is either one of those (with its text) or
   anything else (with its `Display` text).
   */
  datatype SqlArg = StringArg(text: string) | PlainArg(display: string)

  const QUOTE := '\''

  /** Every quote doubled, as `replace("'", "''")` does. */
  function EscapeQuotes(s: string): string {
    ReplaceAll(s, [QUOTE], [QUOTE, QUOTE])
  }

  /** Reads escaped text back: a doubled quote stands for one quote; a lone quote is malformed. */
  function Unescape(t: string): Option<string>
    decreases |t|
  {
    if |t| == 0 then Some("")
    else if t[0] == QUOTE then
      if |t| >= 2 && t[1] == QUOTE then
        match Unescape(t[2..])
        case Some(u) => Some([QUOTE] + u)
        case None => None
      else None
    else
      match Unescape(t[1..])
      case Some(u) => Some([t[0]] + u)
      case None => None
  }

  lemma {:induction false} EscapeStep(s: string)
    requires |s| > 0
    ensures EscapeQuotes(s) == (if s[0] == QUOTE then [QUOTE, QUOTE] else [s[0]]) + EscapeQuotes(s[1..])
  {
    assert [QUOTE] <= s <==> s[0] == QUOTE;
    assert s[|[QUOTE]|..] == s[1..];
  }

  /** Text without a quote is not changed by the escaping. */
  lemma {:induction false} EscapeQuotesNoQuote(s: string)
    requires QUOTE !in s
    ensures EscapeQuotes(s) == s
    decreases |s|
  {
    if |s| > 0 {
      EscapeStep(s);
      assert QUOTE !in s[1..];
      EscapeQuotesNoQuote(s[1..]);
      assert s == [s[0]] + s[1..];
    }
  }

  /** Each quote adds one character, so escaping lengthens exactly the text that holds a quote. */
  lemma {:induction false} EscapeQuotesLonger(s: string)
    ensures |EscapeQuotes(s)| >= |s|
    ensures QUOTE in s ==> |EscapeQuotes(s)| > |s|
    decreases |s|
  {
    if |s| > 0 {
      EscapeStep(s);
      EscapeQuotesLonger(s[1..]);
      assert s == [s[0]] + s[1..];
      assert QUOTE in s ==> s[0] == QUOTE || QUOTE in s[1..];
    }
  }

  /** What reads back as `t` is the rendering of `t`, stated for every literal. */
  lemma ParsedIsRendering(lit: string, t: string)
    ensures ParseSqlString(lit) == Some(t) ==> lit == ToSqlValue(StringArg(t))
  {
    if ParseSqlString(lit) == Some(t) {
      ParseSqlStringOnlyRendering(lit, t);
    }
  }

  /** Unescaping undoes the escaping. */
  lemma {:induction false} EscapeRoundTrip(s: string)
    ensures Unescape(EscapeQuotes(s)) == Some(s)
    decreases |s|
  {
    if |s| > 0 {
      EscapeStep(s);
      EscapeRoundTrip(s[1..]);
      var e := EscapeQuotes(s);
      if s[0] == QUOTE {
        assert e[2..] == EscapeQuotes(s[1..]);
      } else {
        assert e[1..] == EscapeQuotes(s[1..]);
      }
      assert s == [s[0]] + s[1..];
    }
  }

  /** Text that unescapes is exactly the escaping of what it unescapes to: its quotes come in pairs. */
  lemma {:induction false} UnescapeThenEscape(t: string)
    requires Unescape(t).Some?
    ensures EscapeQuotes(Unescape(t).value) == t
    decreases |t|
  {
    if |t| > 0 {
      var u := Unescape(t).value;
      if t[0] == QUOTE {
        UnescapeThenEscape(t[2..]);
        EscapeStep(u);
        assert u[1..] == Unescape(t[2..]).value;
        assert t == [QUOTE, QUOTE] + t[2..];
      } else {
        UnescapeThenEscape(t[1..]);
        EscapeStep(u);
        assert u[1..] == Unescape(t[1..]).value;
        assert t == [t[0]] + t[1..];
      }
    }
  }

  /** Escaping brings in no character but the quote. */
  lemma {:induction false} EscapeChars(s: string, c: char)
    requires c != QUOTE && c !in s
    ensures c !in EscapeQuotes(s)
    decreases |s|
  {
    if |s| > 0 {
      EscapeStep(s);
      assert c !in s[1..];
      EscapeChars(s[1..], c);
    }
  }

  /** `to_sql_value`: a quoted, escaped literal for strings, the plain text otherwise. */
  function ToSqlValue(v: SqlArg): (r: string)
    ensures v.StringArg? ==> |r| >= 2 && r[0] == QUOTE && r[|r| - 1] == QUOTE
    ensures v.PlainArg? ==> r == v.display
  {
    match v
    case StringArg(t) => [QUOTE] + EscapeQuotes(t) + [QUOTE]
    case PlainArg(d) => d
  }

  /** Reads a quoted literal back. */
  function ParseSqlString(lit: string): Option<string> {
    if |lit| >= 2 && lit[0] == QUOTE && lit[|lit| - 1] == QUOTE then Unescape(lit[1..|lit| - 1]) else None
  }

  /** A rendered string reads back as itself, whatever quotes it holds. */
  lemma ToSqlValueRoundTrip(t: string)
    ensures ParseSqlString(ToSqlValue(StringArg(t))) == Some(t)
  {
    var lit := ToSqlValue(StringArg(t));
    assert lit[1..|lit| - 1] == EscapeQuotes(t);
    EscapeRoundTrip(t);
  }

  /** Only the rendering of `t` reads back as `t`: no other text can pass for it. */
  lemma {:induction false} ParseSqlStringOnlyRendering(lit: string, t: string)
    requires ParseSqlString(lit) == Some(t)
    ensures lit == ToSqlValue(StringArg(t))
  {
    UnescapeThenEscape(lit[1..|lit| - 1]);
    assert lit == [QUOTE] + lit[1..|lit| - 1] + [QUOTE];
  }

  /** `in_qry`: the field, " IN (", the rendered values joined by commas, ")". */
  function InQry(field: string, values: seq<SqlArg>): (r: string)
    ensures |values| == 0 ==> r == field + " IN ()"
    ensures |r| >= |field| + 6 && r[..|field| + 5] == field + " IN (" && r[|r| - 1] == ')'
  {
    field + " IN (" + Join(",", MapSeq(values, ToSqlValue)) + ")"
  }

  /** The text between the parentheses of an `IN` list. */
  function InQryItems(field: string, values: seq<SqlArg>): string {
    var q := InQry(field, values);
    q[|field| + 5..|q| - 1]
  }

  function AsStringArg(t: string): SqlArg {
    StringArg(t)
  }

  /**
   Strings without commas can be read back from an `IN` list: splitting at the
   commas gives one literal per value, in order, and each reads back as its string.
   */
  lemma InQryRecoversStrings(field: string, texts: seq<string>)
    requires |texts| > 0
    requires forall i :: 0 <= i < |texts| ==> ',' !in texts[i]
    ensures |Split(InQryItems(field, MapSeq(texts, AsStringArg)), ",")| == |texts|
    ensures forall i :: 0 <= i < |texts| ==>
      ParseSqlString(Split(InQryItems(field, MapSeq(texts, AsStringArg)), ",")[i]) == Some(texts[i])
  {
    var values := MapSeq(texts, AsStringArg);
    var lits := MapSeq(values, ToSqlValue);
    var q := field + " IN (" + Join(",", lits) + ")";
    assert q[|field| + 5..|q| - 1] == Join(",", lits);
    forall i | 0 <= i < |lits|
      ensures ',' !in lits[i]
    {
      EscapeChars(texts[i], ',');
    }
    SplitJoin(lits, ',');
    forall i | 0 <= i < |texts|
      ensures ParseSqlString(lits[i]) == Some(texts[i])
    {
      ToSqlValueRoundTrip(texts[i]);
    }
  }
}
