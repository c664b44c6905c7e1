/**
 The pure parts of the word catalogue service: the SQL fragments of the
 word search, the grouping of the joined search rows into word views, the
 collection of voc marks of scraped definitions and their pairing with the
 vocs found in the database.
 */
module WordService {

  import opened Seqs
  import opened Text
  import opened Error
  import opened Enums
  import opened Common
  import opened Responses
  import opened Words
  import DbCommon

  datatype FieldMatch = Body | Status | LoadStatus | Difficulty

  datatype FieldOrder = FieldOrder(field_match: FieldMatch, is_asc: bool)

  /** The clause that filters nothing. */
  const TRUE_CLAUSE := "true"

  // ---------------------------------------------------------------------------
  // Query fragments

  /** `in_qry` of this service: the values are joined as they are, without rendering. */
  function InQry(field: string, values: seq<string>): (r: string)
    ensures |r| >= |field| + 6 && r[..|field| + 5] == field + " IN (" && r[|r| - 1] == ')'
  {
    field + " IN (" + Join(",", values) + ")"
  }

  /** The text between the parentheses of an `IN` list. */
  function InQryItems(field: string, values: seq<string>): string {
    var q := InQry(field, values);
    q[|field| + 5..|q| - 1]
  }

  /** Values without commas can be read back from the list, in order. */
  lemma {:induction false} InQryRecoversValues(field: string, values: seq<string>)
    requires |values| > 0
    requires forall i :: 0 <= i < |values| ==> ',' !in values[i]
    ensures Split(InQryItems(field, values), ",") == values
  {
    var q := InQry(field, values);
    assert q[|field| + 5..|q| - 1] == Join(",", values);
    SplitJoin(values, ',');
  }

  /** `db_str`: the value between single quotes, with no escaping. */
  function DbStr(v: string): (r: string)
    ensures |r| == |v| + 2 && r[0] == '\'' && r[|r| - 1] == '\'' && r[1..|r| - 1] == v
  {
    "'" + v + "'"
  }

  function FieldName(f: FieldMatch): string {
    match f
    case Body => "body"
    case Status => "status"
    case LoadStatus => "load_status"
    case Difficulty => "difficulty"
  }

  /** `field_order_qry`: the column, a space and the direction. */
  function FieldOrderQry(fo: FieldOrder): (r: string)
    ensures fo.is_asc ==> r == FieldName(fo.field_match) + " ASC"
    ensures !fo.is_asc ==> r == FieldName(fo.field_match) + " DESC"
  {
    FieldName(fo.field_match) + " " + (if fo.is_asc then "ASC" else "DESC")
  }

  /** Distinct orderings give distinct ORDER BY fragments. */
  lemma FieldOrderQryInjective(a: FieldOrder, b: FieldOrder)
    ensures FieldOrderQry(a) == FieldOrderQry(b) ==> a == b
  {
    var ra := FieldOrderQry(a);
    var rb := FieldOrderQry(b);
    if ra == rb {
      // The column names start with distinct letters, and the direction follows the space.
      assert FieldName(a.field_match)[0] == ra[0] == rb[0] == FieldName(b.field_match)[0];
      var n := |FieldName(a.field_match)|;
      assert ra[n + 1] == (if a.is_asc then 'A' else 'D');
      assert rb[n + 1] == (if b.is_asc then 'A' else 'D');
    }
  }

  // ---------------------------------------------------------------------------
  // The where clause

  /** The text filter as the program builds it: the text goes between quotes unescaped. */
  function TextClauseAsWritten(text: string): (r: string)
    ensures r == TRUE_CLAUSE <==> |text| == 0
    ensures DbCommon.QUOTE !in text ==> r == TextClause(text)
  {
    if |text| == 0 then TRUE_CLAUSE
    else
      var r := "body LIKE '" + text + "%'";
      assert r[0] == 'b';
      if DbCommon.QUOTE in text then r
      else
        assert DbCommon.QUOTE !in text + "%";
        DbCommon.EscapeQuotesNoQuote(text + "%");
        r
  }

  /** A quote in the text ends the pattern literal early: the rest is read as SQL. */
  lemma TextClauseQuoteBreaksOut()
    ensures DbCommon.ParseSqlString(TextClauseAsWritten("x' OR 'a'='a")[10..]) == None
  {
    var lit := TextClauseAsWritten("x' OR 'a'='a")[10..];
    var t := "x' OR 'a'='a%";
    assert lit == "'" + t + "'";
    assert lit[1..|lit| - 1] == t;
    assert t[1..] == "' OR 'a'='a%";
    assert DbCommon.Unescape(t[1..]) == None;
  }

  /** Whatever the text, once it holds a quote the as-written literal no longer reads back as the pattern. */
  lemma TextClauseAsWrittenQuoteBreaks(text: string)
    requires DbCommon.QUOTE in text
    ensures |TextClauseAsWritten(text)| >= 10
    ensures DbCommon.ParseSqlString(TextClauseAsWritten(text)[10..]) != Some(text + "%")
  {
    var r := TextClauseAsWritten(text);
    var p := text + "%";
    assert r == "body LIKE '" + text + "%'";
    var lit := r[10..];
    assert lit == [DbCommon.QUOTE] + p + [DbCommon.QUOTE];
    assert DbCommon.QUOTE in p;
    DbCommon.EscapeQuotesLonger(p);
    var good := DbCommon.ToSqlValue(DbCommon.StringArg(p));
    assert |good| > |lit|;
    DbCommon.ParsedIsRendering(lit, p);
  }

  /** The text filter with the pattern rendered as a quoted, escaped literal. */
  function TextClause(text: string): (r: string)
    ensures r == TRUE_CLAUSE <==> |text| == 0
    ensures |text| > 0 ==> |r| >= 10 && r[..10] == "body LIKE " && DbCommon.ParseSqlString(r[10..]) == Some(text + "%")
  {
    if |text| == 0 then TRUE_CLAUSE
    else
      DbCommon.ToSqlValueRoundTrip(text + "%");
      var lit := DbCommon.ToSqlValue(DbCommon.StringArg(text + "%"));
      var r := "body LIKE " + lit;
      assert r[10..] == lit;
      r
  }

  function StatusValue(s: WordStatus): string {
    DbStr(WordStatusToString(s))
  }

  function LoadStatusValue(s: WordLoadStatus): string {
    DbStr(WordLoadStatusToString(s))
  }

  /** "true" for no statuses, otherwise the quoted names in an `IN` list. */
  function StatusClause(statuses: seq<WordStatus>): (r: string)
    ensures r == TRUE_CLAUSE <==> |statuses| == 0
  {
    if |statuses| == 0 then TRUE_CLAUSE else InQry("status", MapSeq(statuses, StatusValue))
  }

  function LoadStatusClause(loadStatuses: seq<WordLoadStatus>): (r: string)
    ensures r == TRUE_CLAUSE <==> |loadStatuses| == 0
  {
    if |loadStatuses| == 0 then TRUE_CLAUSE else InQry("load_status", MapSeq(loadStatuses, LoadStatusValue))
  }

  function DifficultyClause(difficulties: seq<int>): (r: string)
    ensures r == TRUE_CLAUSE <==> |difficulties| == 0
  {
    if |difficulties| == 0 then TRUE_CLAUSE else InQry("difficulty", MapSeq(difficulties, IntToString))
  }

  lemma {:induction false} StatusValueNoComma(s: WordStatus)
    ensures ',' !in StatusValue(s)
  {
    var name := WordStatusToString(s);
    assert name == "active" || name == "not_active" || name == "draft";
    assert ',' !in name;
  }

  lemma {:induction false} LoadStatusValueNoComma(s: WordLoadStatus)
    ensures ',' !in LoadStatusValue(s)
  {
    var name := WordLoadStatusToString(s);
    assert name == "not_loaded" || name == "loaded" || name == "loaded_with_fail";
    assert ',' !in name;
  }

  /** The statuses can be read back from their clause, in order. */
  lemma {:induction false} StatusClauseRecoversStatuses(statuses: seq<WordStatus>)
    requires |statuses| > 0
    ensures var c := StatusClause(statuses);
      |c| >= 12 && c[..11] == "status IN (" && c[|c| - 1] == ')' &&
      var items := Split(c[11..|c| - 1], ",");
      |items| == |statuses| &&
      forall i :: 0 <= i < |statuses| ==>
        |items[i]| >= 2 && WordStatusFromString(items[i][1..|items[i]| - 1]) == Some(statuses[i])
  {
    var values := MapSeq(statuses, StatusValue);
    StatusClauseShape(statuses);
    forall i | 0 <= i < |values|
      ensures ',' !in values[i]
    {
      assert values[i] == StatusValue(statuses[i]);
      StatusValueNoComma(statuses[i]);
    }
    InQryRecoversValues("status", values);
    forall i | 0 <= i < |statuses|
      ensures WordStatusFromString(values[i][1..|values[i]| - 1]) == Some(statuses[i])
    {
      WordStatusRoundTrip(statuses[i], statuses[i]);
    }
  }

  lemma {:induction false} StatusClauseShape(statuses: seq<WordStatus>)
    requires |statuses| > 0
    ensures var c := StatusClause(statuses);
      |c| >= 12 && c[..11] == "status IN (" && c[|c| - 1] == ')' &&
      c[11..|c| - 1] == InQryItems("status", MapSeq(statuses, StatusValue))
  {
  }

  /** The load statuses can be read back from their clause, in order. */
  lemma {:induction false} LoadStatusClauseRecoversLoadStatuses(loadStatuses: seq<WordLoadStatus>)
    requires |loadStatuses| > 0
    ensures var c := LoadStatusClause(loadStatuses);
      |c| >= 17 && c[..16] == "load_status IN (" && c[|c| - 1] == ')' &&
      var items := Split(c[16..|c| - 1], ",");
      |items| == |loadStatuses| &&
      forall i :: 0 <= i < |loadStatuses| ==>
        |items[i]| >= 2 && WordLoadStatusFromString(items[i][1..|items[i]| - 1]) == Some(loadStatuses[i])
  {
    var values := MapSeq(loadStatuses, LoadStatusValue);
    LoadStatusClauseShape(loadStatuses);
    forall i | 0 <= i < |values|
      ensures ',' !in values[i]
    {
      assert values[i] == LoadStatusValue(loadStatuses[i]);
      LoadStatusValueNoComma(loadStatuses[i]);
    }
    InQryRecoversValues("load_status", values);
    forall i | 0 <= i < |loadStatuses|
      ensures WordLoadStatusFromString(values[i][1..|values[i]| - 1]) == Some(loadStatuses[i])
    {
      WordLoadStatusRoundTrip(loadStatuses[i], loadStatuses[i]);
    }
  }

  lemma {:induction false} LoadStatusClauseShape(loadStatuses: seq<WordLoadStatus>)
    requires |loadStatuses| > 0
    ensures var c := LoadStatusClause(loadStatuses);
      |c| >= 17 && c[..16] == "load_status IN (" && c[|c| - 1] == ')' &&
      c[16..|c| - 1] == InQryItems("load_status", MapSeq(loadStatuses, LoadStatusValue))
  {
  }

  /** The difficulties can be read back from their clause, in order. */
  lemma {:induction false} DifficultyClauseRecoversDifficulties(difficulties: seq<int>)
    requires |difficulties| > 0
    ensures var c := DifficultyClause(difficulties);
      |c| >= 16 && c[..15] == "difficulty IN (" && c[|c| - 1] == ')' &&
      var items := Split(c[15..|c| - 1], ",");
      |items| == |difficulties| &&
      forall i :: 0 <= i < |difficulties| ==> ParseInt(items[i]) == Some(difficulties[i])
  {
    var values := MapSeq(difficulties, IntToString);
    assert DifficultyClause(difficulties)[15..|DifficultyClause(difficulties)| - 1] == InQryItems("difficulty", values);
    forall i | 0 <= i < |values|
      ensures ',' !in values[i]
    {
      IntToStringChars(difficulties[i], ',');
    }
    InQryRecoversValues("difficulty", values);
    forall i | 0 <= i < |difficulties|
      ensures ParseInt(values[i]) == Some(difficulties[i])
    {
      IntToStringRoundTrip(difficulties[i]);
    }
  }

  /**
   The four filters joined by " AND ", as the program places them in the
   inner `WHERE`: the text filter is the unescaped one.
   */
  function WhereClauseAsWritten(text: string, statuses: seq<WordStatus>, loadStatuses: seq<WordLoadStatus>,
                                difficulties: seq<int>): (r: string)
    ensures |text| == 0 && |statuses| == 0 && |loadStatuses| == 0 && |difficulties| == 0 ==>
      r == "true AND true AND true AND true"
    ensures DbCommon.QUOTE !in text ==> r == WhereClause(text, statuses, loadStatuses, difficulties)
  {
    TextClauseAsWritten(text) + " AND " + StatusClause(statuses) + " AND " + LoadStatusClause(loadStatuses) +
      " AND " + DifficultyClause(difficulties)
  }

  /** The four filters joined by " AND ", with the text filter rendered as an escaped literal. */
  function WhereClause(text: string, statuses: seq<WordStatus>, loadStatuses: seq<WordLoadStatus>,
                       difficulties: seq<int>): (r: string)
    ensures |text| == 0 && |statuses| == 0 && |loadStatuses| == 0 && |difficulties| == 0 ==>
      r == "true AND true AND true AND true"
  {
    TextClause(text) + " AND " + StatusClause(statuses) + " AND " + LoadStatusClause(loadStatuses) +
      " AND " + DifficultyClause(difficulties)
  }

  // ---------------------------------------------------------------------------
  // Grouping the search rows

  function ViewId(w: WordView): int {
    w.id
  }

  function PairWordId(p: (WordView, Option<WordDefinitionView>)): int {
    p.0.id
  }

  function PairWord(p: (WordView, Option<WordDefinitionView>)): WordView {
    p.0
  }

  function PairDefinition(p: (WordView, Option<WordDefinitionView>)): Option<WordDefinitionView> {
    p.1
  }

  function WithDefinitions(g: (WordView, seq<WordDefinitionView>)): WordView {
    g.0.(definitions := g.1)
  }

  /**
   One view per word id, in the order in which the ids first appear, built
   from the first row of that word and holding the word's definitions in row
   order (rows without a definition add none).
   */
  function SearchViews(pairs: seq<(WordView, Option<WordDefinitionView>)>): (r: seq<WordView>)
    ensures |r| == |UniqueBy(pairs, PairWordId)|
    ensures forall i :: 0 <= i < |r| ==>
      r[i] == UniqueBy(pairs, PairWordId)[i].0.(definitions := ValuesOf(pairs, PairWordId, PairDefinition, r[i].id))
    ensures Distinct(MapSeq(r, ViewId))
    ensures forall i :: 0 <= i < |pairs| ==> pairs[i].0.id in MapSeq(r, ViewId)
  {
    var firsts := UniqueBy(pairs, PairWordId);
    var groups := Group(pairs, PairWordId, PairWord, PairDefinition);
    var r := MapSeq(groups, WithDefinitions);
    assert MapSeq(r, ViewId) == MapSeq(firsts, PairWordId);
    r
  }

  /** The word views keep the first row of each word, in first-appearance order. */
  lemma SearchViewsFirstAppearance(pairs: seq<(WordView, Option<WordDefinitionView>)>)
    ensures KeepsFirsts(pairs, PairWordId, UniqueBy(pairs, PairWordId))
    ensures InFirstAppearanceOrder(pairs, PairWordId, UniqueBy(pairs, PairWordId))
  {
    UniqueByFirst(pairs, PairWordId);
  }

  /** A word's definitions number its rows that carry a definition. */
  lemma SearchViewsCountDefinitions(pairs: seq<(WordView, Option<WordDefinitionView>)>)
    ensures TotalValues(Group(pairs, PairWordId, PairWord, PairDefinition)) == CountSome(pairs, PairDefinition)
  {
    GroupCounts(pairs, PairWordId, PairWord, PairDefinition);
  }

  // ---------------------------------------------------------------------------
  // Vocs of scraped definitions

  function DefVocs(d: (seq<string>, string)): seq<string> {
    d.0
  }

  /** `get_all_vocs`: every voc mark of every definition, once, in first-appearance order. */
  function GetAllVocs(defs: seq<(seq<string>, string)>): (r: seq<string>)
    ensures Distinct(r)
    ensures forall i, j :: 0 <= i < |defs| && 0 <= j < |defs[i].0| ==> defs[i].0[j] in r
    ensures forall k :: 0 <= k < |r| ==> exists i :: 0 <= i < |defs| && r[k] in defs[i].0
  {
    var lists := MapSeq(defs, DefVocs);
    var all := Flatten(lists);
    var r := UniqueBy(all, Id);
    DistinctById(r);
    assert forall k :: 0 <= k < |all| ==> all[k] in r by {
      forall k | 0 <= k < |all|
        ensures all[k] in r
      {
        var m :| 0 <= m < |r| && MapSeq(r, Id)[m] == Id(all[k]);
      }
    }
    assert forall i, j :: 0 <= i < |defs| && 0 <= j < |defs[i].0| ==> defs[i].0[j] in r by {
      forall i, j | 0 <= i < |defs| && 0 <= j < |defs[i].0|
        ensures defs[i].0[j] in r
      {
        assert lists[i][j] == defs[i].0[j];
      }
    }
    assert forall k :: 0 <= k < |r| ==> exists i :: 0 <= i < |defs| && r[k] in defs[i].0 by {
      forall k | 0 <= k < |r|
        ensures exists i :: 0 <= i < |defs| && r[k] in defs[i].0
      {
        assert r[k] in all;
        var m :| 0 <= m < |all| && all[m] == r[k];
        var i :| 0 <= i < |lists| && all[m] in lists[i];
      }
    }
    r
  }

  /** The marks keep the order of their first appearance across the definitions. */
  lemma GetAllVocsOrder(defs: seq<(seq<string>, string)>)
    ensures InFirstAppearanceOrder(Flatten(MapSeq(defs, DefVocs)), Id, GetAllVocs(defs))
  {
    UniqueByFirst(Flatten(MapSeq(defs, DefVocs)), Id);
  }

  function VocShort(v: Voc): string {
    v.short
  }

  /** The voc of a definition: the database voc of its first mark, if that mark was found. */
  function FirstVoc(vocs: seq<string>, byShort: map<string, Voc>): Option<Voc> {
    if |vocs| > 0 && vocs[0] in byShort then Some(byShort[vocs[0]]) else None
  }

  function PairWithFirstVoc(byShort: map<string, Voc>, d: (seq<string>, string)): (Option<Voc>, string) {
    (FirstVoc(d.0, byShort), d.1)
  }

  /**
   `load_vocs_to_definitions`, with the lookup of the vocs by their marks
   passed in as `fetched`. A failed scrape yields no definitions; a failed
   lookup is passed on; otherwise each definition is paired with the voc of
   its first mark, later marks being ignored.
   */
  function LoadVocsToDefinitions(definitions: VortoResult<seq<(seq<string>, string)>>, fetched: VortoResult<seq<Voc>>)
    : (r: VortoResult<seq<(Option<Voc>, string)>>)
    ensures definitions.Err? ==> r == Ok([])
    ensures definitions.Ok? && fetched.Err? ==> r == Err(fetched.error)
    ensures definitions.Ok? && fetched.Ok? ==> r.Ok? && |r.value| == |definitions.value|
    ensures definitions.Ok? && fetched.Ok? ==> forall i :: 0 <= i < |definitions.value| ==>
      r.value[i].1 == definitions.value[i].1
    ensures definitions.Ok? && fetched.Ok? ==> forall i :: 0 <= i < |definitions.value| ==>
      (r.value[i].0.None? <==>
        (|definitions.value[i].0| == 0 ||
         forall j :: 0 <= j < |fetched.value| ==> fetched.value[j].short != definitions.value[i].0[0]))
    ensures definitions.Ok? && fetched.Ok? ==> forall i :: 0 <= i < |definitions.value| ==>
      r.value[i].0.Some? ==> r.value[i].0.value in fetched.value && r.value[i].0.value.short == definitions.value[i].0[0]
  {
    match definitions
    case Err(_) => Ok([])
    case Ok(defs) =>
      var vocs :- fetched;
      var byShort := VecToMap(vocs, VocShort, Id);
      assert forall k :: k in byShort ==> byShort[k] in vocs && byShort[k].short == k by {
        forall k | k in byShort
          ensures byShort[k] in vocs && byShort[k].short == k
        {
          VecToMapValueFrom(vocs, VocShort, Id, k);
        }
      }
      Ok(seq(|defs|, i requires 0 <= i < |defs| => PairWithFirstVoc(byShort, defs[i])))
  }

  /** When several vocs share a mark, the last one fetched is the one paired. */
  lemma LoadVocsLastFetchedWins(defs: seq<(seq<string>, string)>, vocs: seq<Voc>, i: nat, j: nat)
    requires i < |defs| && |defs[i].0| > 0
    requires j < |vocs| && vocs[j].short == defs[i].0[0]
    requires forall k :: j < k < |vocs| ==> vocs[k].short != vocs[j].short
    ensures LoadVocsToDefinitions(Ok(defs), Ok(vocs)).value[i].0 == Some(vocs[j])
  {
    VecToMapLastWins(vocs, VocShort, Id, j);
  }
}
