/**
 The VALUES list of a bulk insert of scraped definitions: one tuple per
 definition with its text, the "active" status, its position, the word id
 and the id of the voc of its first mark (or null).
 */
module DbWordDefinition {

  import opened Seqs
  import opened Text
  import opened Enums

  /** The voc id column as the program derives it: the first mark, or the empty string when there is none, is looked up. */
  function VocIdColumnAsWritten(vocs: seq<string>, shortIdMap: map<string, int>): (r: string)
    ensures |vocs| > 0 ==> r == VocIdColumn(vocs, shortIdMap)
    ensures |vocs| == 0 && "" !in shortIdMap ==> r == "null"
    ensures |vocs| == 0 && "" in shortIdMap ==> ParseInt(r) == Some(shortIdMap[""])
  {
    var firstVoc := if |vocs| > 0 then vocs[0] else "";
    if firstVoc in shortIdMap then
      IntToStringRoundTrip(shortIdMap[firstVoc]);
      IntToString(shortIdMap[firstVoc])
    else "null"
  }

  /** A definition without marks gets the id mapped to the empty short, not null. */
  lemma EmptyMarksLookUpEmptyShort()
    ensures VocIdColumnAsWritten([], map["" := 7]) == "7"
    ensures VocIdColumnAsWritten([], map["" := 7]) != "null"
  {
  }

  /** The id of the voc of the first mark, when there is a first mark and it is mapped. */
  function FirstVocId(vocs: seq<string>, shortIdMap: map<string, int>): (r: Option<int>)
    ensures r.None? <==> |vocs| == 0 || vocs[0] !in shortIdMap
    ensures r.Some? ==> r.value == shortIdMap[vocs[0]]
  {
    if |vocs| > 0 && vocs[0] in shortIdMap then Some(shortIdMap[vocs[0]]) else None
  }

  /** The voc id column: null without a mapped first mark, the rendered id otherwise. */
  function VocIdColumn(vocs: seq<string>, shortIdMap: map<string, int>): (r: string)
    ensures |vocs| == 0 ==> r == "null"
    ensures r == "null" <==> FirstVocId(vocs, shortIdMap).None?
    ensures FirstVocId(vocs, shortIdMap).Some? ==> ParseInt(r) == Some(FirstVocId(vocs, shortIdMap).value)
  {
    match FirstVocId(vocs, shortIdMap)
    case Some(id) =>
      IntToStringRoundTrip(id);
      IntToString(id)
    case None => "null"
  }

  /** The five columns of one tuple, each but the first after the space that follows a comma. */
  function TupleFields(def: string, order: int, wordId: int, vocColumn: string): seq<string> {
    ["('" + def + "'", " '" + WordDefinitionStatusToString(DefinitionActive) + "'",
     " " + IntToString(order), " " + IntToString(wordId), " " + vocColumn + ")"]
  }

  /** `('<def>', 'active', <order>, <word id>, <voc id>)`: the columns joined by commas, the text inserted unescaped. */
  function Tuple(def: string, order: int, wordId: int, vocColumn: string): string {
    Join(",", TupleFields(def, order, wordId, vocColumn))
  }

  /** Every tuple opens with "('". */
  lemma TupleOpens(def: string, order: int, wordId: int, vocColumn: string)
    ensures |Tuple(def, order, wordId, vocColumn)| >= 2 && Tuple(def, order, wordId, vocColumn)[..2] == "('"
  {
    var f := TupleFields(def, order, wordId, vocColumn);
    assert Join(",", f) == f[0] + "," + Join(",", f[1..]);
    assert f[0][..2] == "('";
  }

  /** The shape of a tuple, on one example. */
  lemma TupleExample()
    ensures Tuple("x", 0, 7, "null") == "('x', 'active', 0, 7, null)"
  {
    var f := TupleFields("x", 0, 7, "null");
    assert IntToString(0) == "0" && IntToString(7) == "7";
    assert WordDefinitionStatusToString(DefinitionActive) == "active";
    assert f[0] == "('x'";
    assert f[1] == " 'active'";
    assert f[2] == " 0";
    assert f[3] == " 7";
    assert f[4] == " null)";
    assert f[1..][1..] == f[2..];
    assert f[2..][1..] == f[3..];
    assert f[3..][1..] == f[4..];
  }

  lemma VocIdColumnCommaFree(vocs: seq<string>, shortIdMap: map<string, int>)
    ensures ',' !in VocIdColumn(vocs, shortIdMap)
  {
    if FirstVocId(vocs, shortIdMap).Some? {
      IntToStringChars(FirstVocId(vocs, shortIdMap).value, ',');
    }
  }

  lemma TupleFieldsCommaFree(def: string, order: int, wordId: int, vocColumn: string)
    requires ',' !in def && ',' !in vocColumn
    ensures var f := TupleFields(def, order, wordId, vocColumn);
      forall k :: 0 <= k < |f| ==> ',' !in f[k]
  {
    IntToStringChars(order, ',');
    IntToStringChars(wordId, ',');
  }

  /** A tuple of a comma-free definition splits at its commas into its five columns, each readable. */
  lemma {:induction false} TupleReadsBack(def: string, order: int, wordId: int, vocs: seq<string>, shortIdMap: map<string, int>)
    requires ',' !in def
    ensures var col := VocIdColumn(vocs, shortIdMap);
      var f := Split(Tuple(def, order, wordId, col), ",");
      |f| == 5 && f[0] == "('" + def + "'" && f[1] == " 'active'" &&
      |f[2]| > 0 && ParseInt(f[2][1..]) == Some(order) &&
      |f[3]| > 0 && ParseInt(f[3][1..]) == Some(wordId) &&
      (f[4] == " null)" <==> FirstVocId(vocs, shortIdMap).None?)
  {
    var col := VocIdColumn(vocs, shortIdMap);
    var fields := TupleFields(def, order, wordId, col);
    VocIdColumnCommaFree(vocs, shortIdMap);
    TupleFieldsCommaFree(def, order, wordId, col);
    SplitJoin(fields, ',');
    assert Split(Tuple(def, order, wordId, col), ",") == fields;
    FieldReadsInt(order);
    FieldReadsInt(wordId);
    VocFieldNull(vocs, shortIdMap);
  }

  /** A number column, after its leading space, parses back to the number. */
  lemma FieldReadsInt(x: int)
    ensures var field := " " + IntToString(x); |field| > 0 && ParseInt(field[1..]) == Some(x)
  {
    var field := " " + IntToString(x);
    assert field[1..] == IntToString(x);
    IntToStringRoundTrip(x);
  }

  /** The voc column reads " null)" exactly when no voc id is found. */
  lemma VocFieldNull(vocs: seq<string>, shortIdMap: map<string, int>)
    ensures " " + VocIdColumn(vocs, shortIdMap) + ")" == " null)" <==> FirstVocId(vocs, shortIdMap).None?
  {
    var col := VocIdColumn(vocs, shortIdMap);
    var field := " " + col + ")";
    if field == " null)" {
      assert col == field[1..|field| - 1];
    }
  }

  /** The tuples, one per definition in input order, numbered by position. */
  function InsertTuples(definitions: seq<(seq<string>, string)>, shortIdMap: map<string, int>, wordId: int)
    : (r: seq<string>)
    ensures |r| == |definitions|
    ensures forall i :: 0 <= i < |definitions| ==>
      r[i] == Tuple(definitions[i].1, i, wordId, VocIdColumn(definitions[i].0, shortIdMap))
  {
    seq(|definitions|, i requires 0 <= i < |definitions| =>
      Tuple(definitions[i].1, i, wordId, VocIdColumn(definitions[i].0, shortIdMap)))
  }

  /** `word_definition_insert` with the voc id column corrected. */
  function WordDefinitionInsert(definitions: seq<(seq<string>, string)>, shortIdMap: map<string, int>, wordId: int)
    : (r: string)
    ensures r == "" <==> |definitions| == 0
    ensures |definitions| > 0 ==> Tuple(definitions[0].1, 0, wordId, VocIdColumn(definitions[0].0, shortIdMap)) <= r
  {
    var ts := InsertTuples(definitions, shortIdMap, wordId);
    if |ts| == 0 then ""
    else
      TupleOpens(definitions[0].1, 0, wordId, VocIdColumn(definitions[0].0, shortIdMap));
      JoinStartsWithFirst(",", ts);
      Join(",", ts)
  }

  /** The tuples as the program builds them, with the as-written voc id column. */
  function InsertTuplesAsWritten(definitions: seq<(seq<string>, string)>, shortIdMap: map<string, int>, wordId: int)
    : (r: seq<string>)
    ensures |r| == |definitions|
    ensures forall i :: 0 <= i < |definitions| ==>
      r[i] == Tuple(definitions[i].1, i, wordId, VocIdColumnAsWritten(definitions[i].0, shortIdMap))
  {
    seq(|definitions|, i requires 0 <= i < |definitions| =>
      Tuple(definitions[i].1, i, wordId, VocIdColumnAsWritten(definitions[i].0, shortIdMap)))
  }

  /** `word_definition_insert` as written. */
  function WordDefinitionInsertAsWritten(definitions: seq<(seq<string>, string)>, shortIdMap: map<string, int>,
                                         wordId: int): (r: string)
    ensures r == "" <==> |definitions| == 0
    ensures |definitions| > 0 ==>
      Tuple(definitions[0].1, 0, wordId, VocIdColumnAsWritten(definitions[0].0, shortIdMap)) <= r
  {
    var ts := InsertTuplesAsWritten(definitions, shortIdMap, wordId);
    if |ts| == 0 then ""
    else
      TupleOpens(definitions[0].1, 0, wordId, VocIdColumnAsWritten(definitions[0].0, shortIdMap));
      JoinStartsWithFirst(",", ts);
      Join(",", ts)
  }

  /** Unless a definition without marks meets a mapped empty short, the two statements agree. */
  lemma AsWrittenInsertAgrees(definitions: seq<(seq<string>, string)>, shortIdMap: map<string, int>, wordId: int)
    requires forall i :: 0 <= i < |definitions| ==> |definitions[i].0| > 0 || "" !in shortIdMap
    ensures WordDefinitionInsertAsWritten(definitions, shortIdMap, wordId) ==
      WordDefinitionInsert(definitions, shortIdMap, wordId)
  {
    var ts := InsertTuplesAsWritten(definitions, shortIdMap, wordId);
    var us := InsertTuples(definitions, shortIdMap, wordId);
    forall i | 0 <= i < |definitions|
      ensures ts[i] == us[i]
    {
      AsWrittenDiffersOnlyWithoutMarks(definitions[i].0, shortIdMap);
    }
    assert ts == us;
  }

  /** Only a definition without marks, with the empty short mapped, tells the two apart. */
  lemma AsWrittenDiffersOnlyWithoutMarks(vocs: seq<string>, shortIdMap: map<string, int>)
    ensures VocIdColumnAsWritten(vocs, shortIdMap) != VocIdColumn(vocs, shortIdMap) <==>
      |vocs| == 0 && "" in shortIdMap
  {
    if |vocs| == 0 && "" in shortIdMap {
      assert IntToString(shortIdMap[""])[0] != 'n' by {
        var id := shortIdMap[""];
        if id >= 0 {
          assert IsAsciiDigit(NatToString(id)[0]);
        }
      }
    }
  }

  /** A single definition gives a single tuple; each further definition appends a comma and its tuple. */
  lemma WordDefinitionInsertShape(definitions: seq<(seq<string>, string)>, shortIdMap: map<string, int>, wordId: int)
    ensures |definitions| == 0 ==> WordDefinitionInsert(definitions, shortIdMap, wordId) == ""
    ensures |definitions| == 1 ==>
      WordDefinitionInsert(definitions, shortIdMap, wordId) ==
      Tuple(definitions[0].1, 0, wordId, VocIdColumn(definitions[0].0, shortIdMap))
    ensures |definitions| > 1 ==> var n := |definitions| - 1;
      WordDefinitionInsert(definitions, shortIdMap, wordId) ==
        WordDefinitionInsert(definitions[..n], shortIdMap, wordId) + "," +
        Tuple(definitions[n].1, n, wordId, VocIdColumn(definitions[n].0, shortIdMap))
  {
    if |definitions| > 1 {
      var n := |definitions| - 1;
      var ts := InsertTuples(definitions, shortIdMap, wordId);
      var pre := InsertTuples(definitions[..n], shortIdMap, wordId);
      assert pre == ts[..n];
      assert ts == pre + [ts[n]];
      JoinSnoc(",", pre, ts[n]);
    }
  }

  /** The statement as written has the same layout: each further definition appends a comma and its tuple. */
  lemma WordDefinitionInsertAsWrittenShape(definitions: seq<(seq<string>, string)>, shortIdMap: map<string, int>,
                                           wordId: int)
    ensures |definitions| == 0 ==> WordDefinitionInsertAsWritten(definitions, shortIdMap, wordId) == ""
    ensures |definitions| == 1 ==>
      WordDefinitionInsertAsWritten(definitions, shortIdMap, wordId) ==
      Tuple(definitions[0].1, 0, wordId, VocIdColumnAsWritten(definitions[0].0, shortIdMap))
    ensures |definitions| > 1 ==> var n := |definitions| - 1;
      WordDefinitionInsertAsWritten(definitions, shortIdMap, wordId) ==
        WordDefinitionInsertAsWritten(definitions[..n], shortIdMap, wordId) + "," +
        Tuple(definitions[n].1, n, wordId, VocIdColumnAsWritten(definitions[n].0, shortIdMap))
  {
    if |definitions| > 1 {
      var n := |definitions| - 1;
      var ts := InsertTuplesAsWritten(definitions, shortIdMap, wordId);
      var pre := InsertTuplesAsWritten(definitions[..n], shortIdMap, wordId);
      assert pre == ts[..n];
      assert ts == pre + [ts[n]];
      JoinSnoc(",", pre, ts[n]);
    }
  }
}
