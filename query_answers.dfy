/** The query-answer extraction: find_answer_block, get_query_text and get_qa_relationship. */
module QueryAnswers {
  import opened Wrappers
  import opened Dicts
  import opened Blocks

  const ANSWER := "ANSWER"

  /** The answers extracted from one response: alias to the answers found under it. */
  type QaMap = Dict<string, seq<Option<string>>>

  /** The ids listed under the ANSWER relationships, in iteration order. */
  function AnswerIds(rels: seq<Relationship>): seq<Id> {
    if |rels| == 0 then []
    else
      var last := rels[|rels| - 1];
      if last.kind == ANSWER then AnswerIds(rels[..|rels| - 1]) + last.ids
      else AnswerIds(rels[..|rels| - 1])
  }

  /** The first index whose id has no entry in `m`, if any. */
  function FirstMissing(ids: seq<Id>, m: map<Id, Block>): (r: Option<nat>)
    ensures r.Some? ==> r.value < |ids| && ids[r.value] !in m
    ensures forall j :: 0 <= j < |ids| && (r.None? || j < r.value) ==> ids[j] in m
  {
    if |ids| == 0 then None
    else if ids[0] !in m then Some(0)
    else
      match FirstMissing(ids[1..], m)
      case None => None
      case Some(k) => Some(k + 1)
  }

  /** What find_answer_block returns: the answer-map entry of the last id under an ANSWER
      relationship (every such id is looked up in turn, so a missing one raises KeyError first),
      or None when there is no such id. */
  function AnswerBlock(query: Block, answerMap: Dict<Id, Block>): (r: Result<Option<Block>>)
    ensures r.Ok? && r.value.Some? ==> r.value.value in answerMap.items.Values
    ensures r.Err? ==> r.error.KeyError? && r.error.key !in answerMap.items
    ensures r.Err? <==> query.relationships.Some? && !AllIn(AnswerIds(query.relationships.value), answerMap.items)
  {
    var ids := if query.relationships.Some? then AnswerIds(query.relationships.value) else [];
    match FirstMissing(ids, answerMap.items)
    case Some(k) => Err(KeyError(ids[k]))
    case None => if |ids| == 0 then Ok(None) else Ok(Some(answerMap.items[ids[|ids| - 1]]))
  }

  lemma AnswerIdsSnoc(rels: seq<Relationship>, r: Relationship)
    ensures AnswerIds(rels + [r]) == if r.kind == ANSWER then AnswerIds(rels) + r.ids else AnswerIds(rels)
  {
    assert (rels + [r])[..|rels|] == rels;
  }

  /** Collecting ANSWER ids distributes over concatenation of relationship lists. */
  lemma {:induction false} AnswerIdsConcat(a: seq<Relationship>, b: seq<Relationship>)
    ensures AnswerIds(a + b) == AnswerIds(a) + AnswerIds(b)
  {
    if |b| > 0 {
      var n := |b| - 1;
      AnswerIdsConcat(a, b[..n]);
      assert a + b == (a + b[..n]) + [b[n]];
      assert b == b[..n] + [b[n]];
      AnswerIdsSnoc(a + b[..n], b[n]);
      AnswerIdsSnoc(b[..n], b[n]);
    } else {
      assert a + b == a;
    }
  }

  ghost predicate AllIn(ids: seq<Id>, m: map<Id, Block>) {
    forall k :: 0 <= k < |ids| ==> ids[k] in m
  }

  /** The block the overwritten variable holds after looking up every id of `ids`. */
  function LastEntry(ids: seq<Id>, m: map<Id, Block>): Option<Block>
    requires AllIn(ids, m)
  {
    if |ids| == 0 then None else Some(m[ids[|ids| - 1]])
  }

  lemma AllInSnoc(ids: seq<Id>, id: Id, m: map<Id, Block>)
    requires AllIn(ids, m) && id in m
    ensures AllIn(ids + [id], m) && LastEntry(ids + [id], m) == Some(m[id])
  {
  }

  /** When every ANSWER id has an entry, find_answer_block yields the last one's. */
  lemma AnswerBlockAllPresent(query: Block, answerMap: Dict<Id, Block>)
    requires query.relationships.Some?
    requires AllIn(AnswerIds(query.relationships.value), answerMap.items)
    ensures AnswerBlock(query, answerMap) == Ok(LastEntry(AnswerIds(query.relationships.value), answerMap.items))
  {
  }

  /** The first ANSWER id without an entry raises KeyError. */
  lemma AnswerBlockMissing(query: Block, answerMap: Dict<Id, Block>, i: nat, j: nat)
    requires query.relationships.Some?
    requires i < |query.relationships.value| && query.relationships.value[i].kind == ANSWER
    requires j < |query.relationships.value[i].ids|
    requires var rels := query.relationships.value;
      AllIn(AnswerIds(rels[..i]) + rels[i].ids[..j], answerMap.items) && rels[i].ids[j] !in answerMap.items
    ensures AnswerBlock(query, answerMap) == Err(KeyError(query.relationships.value[i].ids[j]))
  {
    var rels := query.relationships.value;
    var ids := rels[i].ids;
    var seen := AnswerIds(rels[..i]);
    assert rels == rels[..i] + [rels[i]] + rels[i + 1..];
    AnswerIdsConcat(rels[..i] + [rels[i]], rels[i + 1..]);
    AnswerIdsSnoc(rels[..i], rels[i]);
    var all := AnswerIds(rels);
    assert all == seen + ids + AnswerIds(rels[i + 1..]);
    assert all[|seen| + j] == ids[j];
    forall k | 0 <= k < |seen| + j ensures all[k] in answerMap.items {
      assert all[k] == (seen + ids[..j])[k];
    }
    var r := FirstMissing(all, answerMap.items);
    assert r == Some(|seen| + j);
  }

  /** The nested loops of find_answer_block, overwriting the answer block at every id. */
  method FindAnswerBlock(query: Block, answerMap: Dict<Id, Block>) returns (r: Result<Option<Block>>)
    ensures r == AnswerBlock(query, answerMap)
  {
    var m := answerMap.items;
    var answerBlock: Option<Block> := None;
    if query.relationships.Some? {
      var rels := query.relationships.value;
      ghost var seen: seq<Id> := [];
      var i := 0;
      while i < |rels|
        invariant 0 <= i <= |rels|
        invariant seen == AnswerIds(rels[..i])
        invariant AllIn(seen, m) && answerBlock == LastEntry(seen, m)
      {
        AnswerIdsSnoc(rels[..i], rels[i]);
        assert rels[..i + 1] == rels[..i] + [rels[i]];
        if rels[i].kind == ANSWER {
          var ids := rels[i].ids;
          var ok;
          ok, answerBlock := FollowAnswerIds(ids, m, seen, answerBlock);
          if ok.Some? {
            AnswerBlockMissing(query, answerMap, i, ok.value);
            return Err(KeyError(ids[ok.value]));
          }
          seen := seen + ids;
        }
        i := i + 1;
      }
      assert rels[..i] == rels;
      AnswerBlockAllPresent(query, answerMap);
    }
    return Ok(answerBlock);
  }

  /** The inner loop of find_answer_block over one ANSWER relationship's ids, starting from the
      block found for the ids `seen` before it: the index of the first id without an entry, or
      the block of the last id. */
  method FollowAnswerIds(ids: seq<Id>, m: map<Id, Block>, ghost seen: seq<Id>, b0: Option<Block>) returns (missing: Option<nat>, b: Option<Block>)
    requires AllIn(seen, m) && b0 == LastEntry(seen, m)
    ensures missing.Some? ==> missing.value < |ids| && AllIn(seen + ids[..missing.value], m) && ids[missing.value] !in m
    ensures missing.None? ==> AllIn(seen + ids, m) && b == LastEntry(seen + ids, m)
  {
    b := b0;
    var j := 0;
    while j < |ids|
      invariant 0 <= j <= |ids|
      invariant AllIn(seen + ids[..j], m) && b == LastEntry(seen + ids[..j], m)
    {
      if ids[j] !in m {
        return Some(j), b;
      }
      b := Some(m[ids[j]]);
      assert seen + ids[..j + 1] == (seen + ids[..j]) + [ids[j]];
      AllInSnoc(seen + ids[..j], ids[j], m);
      j := j + 1;
    }
    assert ids[..j] == ids;
    return None, b;
  }

  /** get_query_text: the alias of a QUERY block, the text of a QUERY_RESULT block, the empty
      string for any other block, and None for no block. */
  function QueryText(b: Option<Block>): (r: Option<string>)
    ensures r.None? <==> b.None?
    ensures b.Some? && b.value.blockType == Query ==> r == Some(b.value.alias)
    ensures b.Some? && b.value.blockType == QueryResult ==> r == Some(b.value.text)
    ensures b.Some? && b.value.blockType.OtherType? ==> r == Some("")
  {
    match b
    case None => None
    case Some(block) =>
      match block.blockType
      case Query => Some(block.alias)
      case QueryResult => Some(block.text)
      case OtherType(_) => Some("")
  }

  /** The key a query block is filed under. */
  function QueryKey(q: Block): string {
    QueryText(Some(q)).value
  }

  /** One iteration of get_qa_relationship: the query's key and its answer's text. */
  function QaPair(q: Block, answerMap: Dict<Id, Block>): Result<(string, Option<string>)> {
    var answerBlock :- AnswerBlock(q, answerMap);
    Ok((QueryKey(q), QueryText(answerBlock)))
  }

  /** What get_qa_relationship returns for the query blocks in iteration order. */
  function QaRelationship(queries: seq<Block>, answerMap: Dict<Id, Block>): (r: Result<QaMap>)
    ensures r.Ok? ==> Valid(r.value)
  {
    if |queries| == 0 then Ok(Empty())
    else
      var qas :- QaRelationship(queries[..|queries| - 1], answerMap);
      var pair :- QaPair(queries[|queries| - 1], answerMap);
      Ok(Append(qas, pair.0, pair.1))
  }

  /** An exception raised for an earlier query block ends the whole extraction. */
  lemma {:induction false} QaErrorSticky(queries: seq<Block>, k: nat, answerMap: Dict<Id, Block>)
    requires k <= |queries|
    requires QaRelationship(queries[..k], answerMap).Err?
    ensures QaRelationship(queries, answerMap) == QaRelationship(queries[..k], answerMap)
  {
    if k < |queries| {
      var n := |queries| - 1;
      assert queries[..n][..k] == queries[..k];
      QaErrorSticky(queries[..n], k, answerMap);
    } else {
      assert queries[..k] == queries;
    }
  }

  /** The loop of get_qa_relationship over query_map. */
  method GetQaRelationship(queryMap: Dict<Id, Block>, answerMap: Dict<Id, Block>) returns (r: Result<QaMap>)
    requires Valid(queryMap)
    ensures r == QaRelationship(Values(queryMap), answerMap)
  {
    ghost var queries := Values(queryMap);
    var qas: QaMap := Empty();
    var i := 0;
    while i < |queryMap.keys|
      invariant 0 <= i <= |queryMap.keys|
      invariant QaRelationship(queries[..i], answerMap) == Ok(qas)
    {
      var queryBlock := queryMap.items[queryMap.keys[i]];
      assert queries[..i + 1][..i] == queries[..i];
      assert queries[..i + 1][i] == queryBlock;
      var answerBlock := FindAnswerBlock(queryBlock, answerMap);
      if answerBlock.Err? {
        QaErrorSticky(queries, i + 1, answerMap);
        return Err(answerBlock.error);
      }
      var query := QueryText(Some(queryBlock)).value;
      var answer := QueryText(answerBlock.value);
      qas := Append(qas, query, answer);
      i := i + 1;
    }
    assert queries[..i] == queries;
    return Ok(qas);
  }

  lemma {:induction false} AnswerIdsNone(rels: seq<Relationship>)
    requires forall i :: 0 <= i < |rels| ==> rels[i].kind != ANSWER
    ensures AnswerIds(rels) == []
  {
    if |rels| > 0 {
      AnswerIdsNone(rels[..|rels| - 1]);
    }
  }

  /** No `Relationships` key, or no ANSWER relationship: no answer block. */
  lemma NoAnswerRelationship(query: Block, answerMap: Dict<Id, Block>)
    requires query.relationships.Some? ==>
      forall i :: 0 <= i < |query.relationships.value| ==> query.relationships.value[i].kind != ANSWER
    ensures AnswerBlock(query, answerMap) == Ok(None)
  {
    if query.relationships.Some? {
      AnswerIdsNone(query.relationships.value);
    }
  }

  /** A relationship of another kind never changes the outcome, wherever it stands. */
  lemma NonAnswerIgnored(query: Block, a: seq<Relationship>, r: Relationship, b: seq<Relationship>, answerMap: Dict<Id, Block>)
    requires r.kind != ANSWER
    ensures AnswerBlock(query.(relationships := Some(a + [r] + b)), answerMap)
         == AnswerBlock(query.(relationships := Some(a + b)), answerMap)
  {
    AnswerIdsConcat(a + [r], b);
    AnswerIdsSnoc(a, r);
    AnswerIdsConcat(a, b);
  }

  /** Last write wins: when every ANSWER id has an entry, the answer is the entry of the last id
      of the last ANSWER relationship that lists any id. */
  lemma LastAnswerIdWins(query: Block, answerMap: Dict<Id, Block>, k: nat)
    requires query.relationships.Some?
    requires var rels := query.relationships.value;
      && k < |rels| && rels[k].kind == ANSWER && |rels[k].ids| > 0
      && (forall j :: k < j < |rels| ==> rels[j].kind != ANSWER || rels[j].ids == [])
      && AllIn(AnswerIds(rels), answerMap.items)
    ensures var ids := query.relationships.value[k].ids;
      ids[|ids| - 1] in answerMap.items && AnswerBlock(query, answerMap) == Ok(Some(answerMap.items[ids[|ids| - 1]]))
  {
    var rels := query.relationships.value;
    var ids := rels[k].ids;
    assert rels == rels[..k] + [rels[k]] + rels[k + 1..];
    AnswerIdsConcat(rels[..k] + [rels[k]], rels[k + 1..]);
    AnswerIdsSnoc(rels[..k], rels[k]);
    AnswerIdsEmptyTail(rels[k + 1..]);
    var all := AnswerIds(rels);
    assert all == AnswerIds(rels[..k]) + ids;
    assert all[|all| - 1] == ids[|ids| - 1];
    AnswerBlockAllPresent(query, answerMap);
  }

  lemma {:induction false} AnswerIdsEmptyTail(rels: seq<Relationship>)
    requires forall j :: 0 <= j < |rels| ==> rels[j].kind != ANSWER || rels[j].ids == []
    ensures AnswerIds(rels) == []
  {
    if |rels| > 0 {
      AnswerIdsEmptyTail(rels[..|rels| - 1]);
    }
  }

  /** The answers filed under `key`, one per query block with that key, in iteration order. */
  function AnswersUnder(queries: seq<Block>, answerMap: Dict<Id, Block>, key: string): seq<Option<string>>
    requires QaRelationship(queries, answerMap).Ok?
  {
    if |queries| == 0 then []
    else
      var q := queries[|queries| - 1];
      var rest := AnswersUnder(queries[..|queries| - 1], answerMap, key);
      if QueryKey(q) == key then rest + [QaPair(q, answerMap).value.1] else rest
  }

  /** get_qa_relationship succeeds exactly when every query block's answer lookup does. */
  lemma {:induction false} QaSucceeds(queries: seq<Block>, answerMap: Dict<Id, Block>)
    ensures QaRelationship(queries, answerMap).Ok? <==>
      forall i :: 0 <= i < |queries| ==> QaPair(queries[i], answerMap).Ok?
  {
    if |queries| > 0 {
      var n := |queries| - 1;
      QaSucceeds(queries[..n], answerMap);
      assert forall i :: 0 <= i < n ==> queries[..n][i] == queries[i];
    }
  }

  /** Exactly one answer per query block: the keys are the keys of the query blocks, and under
      each key lie the answers of the query blocks with that key, in order, so that duplicate
      aliases accumulate instead of overwriting. */
  lemma {:induction false} QaEntries(queries: seq<Block>, answerMap: Dict<Id, Block>, key: string)
    requires QaRelationship(queries, answerMap).Ok?
    ensures var qas := QaRelationship(queries, answerMap).value;
      && (key in qas.items <==> exists i :: 0 <= i < |queries| && QueryKey(queries[i]) == key)
      && (key in qas.items ==> qas.items[key] == AnswersUnder(queries, answerMap, key))
      && (key !in qas.items ==> AnswersUnder(queries, answerMap, key) == [])
  {
    if |queries| > 0 {
      var n := |queries| - 1;
      QaEntries(queries[..n], answerMap, key);
      assert forall i :: 0 <= i < n ==> queries[..n][i] == queries[i];
    }
  }

  /** The lists of the answer map hold as many answers as there are query blocks. */
  lemma {:induction false} QaTotal(queries: seq<Block>, answerMap: Dict<Id, Block>)
    requires QaRelationship(queries, answerMap).Ok?
    ensures var qas := QaRelationship(queries, answerMap).value;
      TotalLength(qas.keys, qas.items) == |queries|
  {
    if |queries| > 0 {
      var n := |queries| - 1;
      QaTotal(queries[..n], answerMap);
      var qas := QaRelationship(queries[..n], answerMap).value;
      var pair := QaPair(queries[n], answerMap).value;
      AppendTotal(qas, pair.0, pair.1);
    }
  }

  /** Each query block's answer, None when it has no answer block, is filed under its key. */
  lemma {:induction false} QaContribution(queries: seq<Block>, answerMap: Dict<Id, Block>, i: nat)
    requires QaRelationship(queries, answerMap).Ok? && i < |queries|
    ensures AnswerBlock(queries[i], answerMap).Ok?
    ensures var qas := QaRelationship(queries, answerMap).value;
      && QueryKey(queries[i]) in qas.items
      && QueryText(AnswerBlock(queries[i], answerMap).value) in qas.items[QueryKey(queries[i])]
  {
    var n := |queries| - 1;
    var key := QueryKey(queries[i]);
    QaEntries(queries, answerMap, key);
    if i < n {
      assert queries[..n][i] == queries[i];
      QaContribution(queries[..n], answerMap, i);
      QaEntries(queries[..n], answerMap, key);
    }
  }

  lemma {:induction false} AnswersUnderFrom(queries: seq<Block>, answerMap: Dict<Id, Block>, key: string, a: Option<string>)
    requires QaRelationship(queries, answerMap).Ok?
    requires a in AnswersUnder(queries, answerMap, key)
    ensures exists i :: 0 <= i < |queries| && AnswerBlock(queries[i], answerMap).Ok?
                        && a == QueryText(AnswerBlock(queries[i], answerMap).value)
  {
    var n := |queries| - 1;
    var rest := AnswersUnder(queries[..n], answerMap, key);
    if a in rest {
      AnswersUnderFrom(queries[..n], answerMap, key, a);
      var i :| 0 <= i < n && AnswerBlock(queries[..n][i], answerMap).Ok?
               && a == QueryText(AnswerBlock(queries[..n][i], answerMap).value);
      assert queries[..n][i] == queries[i];
    } else {
      assert AnswerBlock(queries[n], answerMap).Ok?;
    }
  }

  /** For a response whose block ids are unique: the keys of the answer map are the aliases of
      its QUERY blocks, and every answer is None or the text of one of its QUERY_RESULT blocks. */
  lemma ResponseAnswers(blocks: seq<Block>, key: string)
    requires DistinctIds(blocks)
    requires var p := Partition(blocks); QaRelationship(Values(p.queryMap), p.answerMap).Ok?
    ensures var p := Partition(blocks);
      var qas := QaRelationship(Values(p.queryMap), p.answerMap).value;
      && (key in qas.items <==> exists b :: b in blocks && b.blockType == Query && b.alias == key)
      && (key in qas.items ==> forall a :: a in qas.items[key] ==>
            a.None? || exists b :: b in blocks && b.blockType == QueryResult && a == Some(b.text))
  {
    var p := Partition(blocks);
    var qs := OfType(blocks, Query);
    var rs := OfType(blocks, QueryResult);
    PartitionUniqueIds(blocks, key);
    assert Values(p.queryMap) == qs;
    var qas := QaRelationship(qs, p.answerMap).value;
    QaEntries(qs, p.answerMap, key);
    if key in qas.items {
      var i :| 0 <= i < |qs| && QueryKey(qs[i]) == key;
      OfTypeMembers(blocks, Query, qs[i]);
    }
    forall b | b in blocks && b.blockType == Query && b.alias == key ensures key in qas.items {
      OfTypeMembers(blocks, Query, b);
      var i :| 0 <= i < |qs| && qs[i] == b;
    }
    if key in qas.items {
      forall a | a in qas.items[key]
        ensures a.None? || exists b :: b in blocks && b.blockType == QueryResult && a == Some(b.text)
      {
        AnswersUnderFrom(qs, p.answerMap, key, a);
        var i :| 0 <= i < |qs| && AnswerBlock(qs[i], p.answerMap).Ok?
                 && a == QueryText(AnswerBlock(qs[i], p.answerMap).value);
        var answer := AnswerBlock(qs[i], p.answerMap).value;
        if answer.Some? {
          var id :| id in p.answerMap.items && p.answerMap.items[id] == answer.value;
          IndexByIdValue(rs, id);
          OfTypeMembers(blocks, QueryResult, answer.value);
        }
      }
    }
  }
}
