/** The OCR response: blocks with typed relationships, and the partition of get_qa_map. */
module Blocks {
  import opened Wrappers
  import opened Dicts

  type Id = string

  /** The `BlockType` of a block; `OtherType` carries any name other than "QUERY" and
      "QUERY_RESULT", which are the first two variants. */
  datatype BlockType = Query | QueryResult | OtherType(name: string)

  /** A typed edge from a block to the blocks with the listed ids. */
  datatype Relationship = Relationship(kind: string, ids: seq<Id>)

  /** A block: `relationships` is None when the block has no `Relationships` key;
      `alias` is its `Query.Alias` (read only for QUERY blocks), `text` its `Text`
      (read only for QUERY_RESULT blocks). */
  datatype Block = Block(id: Id, blockType: BlockType, relationships: Option<seq<Relationship>>,
                         alias: string, text: string)

  /** The three dictionaries get_qa_map returns. */
  datatype BlockMaps = BlockMaps(queryMap: Dict<Id, Block>, answerMap: Dict<Id, Block>, blockMap: Dict<Id, Block>)

  /** The blocks of type `t`, in response order. */
  function OfType(blocks: seq<Block>, t: BlockType): seq<Block> {
    if |blocks| == 0 then []
    else
      var last := blocks[|blocks| - 1];
      if last.blockType == t then OfType(blocks[..|blocks| - 1], t) + [last]
      else OfType(blocks[..|blocks| - 1], t)
  }

  /** The dictionary obtained by assigning `d[b.id] = b` for each block in order. */
  function IndexById(blocks: seq<Block>): (d: Dict<Id, Block>)
    ensures Valid(d)
  {
    if |blocks| == 0 then Empty()
    else
      var last := blocks[|blocks| - 1];
      Put(IndexById(blocks[..|blocks| - 1]), last.id, last)
  }

  /** What the partition loop computes: exactly the QUERY blocks indexed by id, exactly the
      QUERY_RESULT blocks indexed by id, and all blocks indexed by id. Every key of the two
      typed maps is a key of block_map, filed with a block of the right type. */
  function Partition(blocks: seq<Block>): (p: BlockMaps)
    ensures Valid(p.queryMap) && Valid(p.answerMap) && Valid(p.blockMap)
    ensures forall id :: id in p.queryMap.items ==>
      id in p.blockMap.items && p.queryMap.items[id].blockType == Query && p.queryMap.items[id] in blocks
    ensures forall id :: id in p.answerMap.items ==>
      id in p.blockMap.items && p.answerMap.items[id].blockType == QueryResult && p.answerMap.items[id] in blocks
  {
    TypedKeysCovered(blocks, Query);
    TypedKeysCovered(blocks, QueryResult);
    BlockMaps(IndexById(OfType(blocks, Query)), IndexById(OfType(blocks, QueryResult)), IndexById(blocks))
  }

  /** Every entry of the map of the blocks of one type is a block of that type whose id is
      also a key of the map of all blocks. */
  lemma TypedKeysCovered(blocks: seq<Block>, t: BlockType)
    ensures forall id :: id in IndexById(OfType(blocks, t)).items ==>
      && id in IndexById(blocks).items
      && IndexById(OfType(blocks, t)).items[id].blockType == t
      && IndexById(OfType(blocks, t)).items[id] in blocks
  {
    forall id | id in IndexById(OfType(blocks, t)).items
      ensures id in IndexById(blocks).items
      ensures IndexById(OfType(blocks, t)).items[id].blockType == t
      ensures IndexById(OfType(blocks, t)).items[id] in blocks
    {
      var b := IndexById(OfType(blocks, t)).items[id];
      IndexByIdValue(OfType(blocks, t), id);
      OfTypeMembers(blocks, t, b);
      IndexByIdKeys(blocks, id);
    }
  }

  lemma OfTypeSnoc(s: seq<Block>, b: Block, t: BlockType)
    ensures OfType(s + [b], t) == if b.blockType == t then OfType(s, t) + [b] else OfType(s, t)
  {
    assert (s + [b])[..|s|] == s;
  }

  lemma IndexByIdSnoc(s: seq<Block>, b: Block)
    ensures IndexById(s + [b]) == Put(IndexById(s), b.id, b)
  {
    assert (s + [b])[..|s|] == s;
  }

  /** The loop of get_qa_map over the response's blocks. */
  method GetQaMap(blocks: seq<Block>) returns (queryMap: Dict<Id, Block>, answerMap: Dict<Id, Block>, blockMap: Dict<Id, Block>)
    ensures BlockMaps(queryMap, answerMap, blockMap) == Partition(blocks)
  {
    queryMap, answerMap, blockMap := Empty(), Empty(), Empty();
    var i := 0;
    while i < |blocks|
      invariant 0 <= i <= |blocks|
      invariant queryMap == IndexById(OfType(blocks[..i], Query))
      invariant answerMap == IndexById(OfType(blocks[..i], QueryResult))
      invariant blockMap == IndexById(blocks[..i])
    {
      var block := blocks[i];
      assert blocks[..i + 1] == blocks[..i] + [block];
      IndexByIdSnoc(blocks[..i], block);
      OfTypeSnoc(blocks[..i], block, Query);
      OfTypeSnoc(blocks[..i], block, QueryResult);
      IndexByIdSnoc(OfType(blocks[..i], Query), block);
      IndexByIdSnoc(OfType(blocks[..i], QueryResult), block);
      blockMap := Put(blockMap, block.id, block);
      if block.blockType == Query {
        queryMap := Put(queryMap, block.id, block);
      } else if block.blockType == QueryResult {
        answerMap := Put(answerMap, block.id, block);
      }
      i := i + 1;
    }
    assert blocks[..i] == blocks;
  }

  /** A block is kept by OfType exactly when it has the type asked for. */
  lemma {:induction false} OfTypeMembers(blocks: seq<Block>, t: BlockType, b: Block)
    ensures b in OfType(blocks, t) <==> b in blocks && b.blockType == t
  {
    if |blocks| > 0 {
      var n := |blocks| - 1;
      OfTypeMembers(blocks[..n], t, b);
      assert blocks == blocks[..n] + [blocks[n]];
    }
  }

  /** An id has an entry exactly when some block carries it. */
  lemma {:induction false} IndexByIdKeys(blocks: seq<Block>, id: Id)
    ensures id in IndexById(blocks).items <==> exists b :: b in blocks && b.id == id
  {
    if |blocks| > 0 {
      var n := |blocks| - 1;
      IndexByIdKeys(blocks[..n], id);
      assert blocks == blocks[..n] + [blocks[n]];
    }
  }

  /** Every entry is a block of the response, filed under its own id. */
  lemma {:induction false} IndexByIdValue(blocks: seq<Block>, id: Id)
    requires id in IndexById(blocks).items
    ensures IndexById(blocks).items[id] in blocks && IndexById(blocks).items[id].id == id
  {
    var n := |blocks| - 1;
    if blocks[n].id != id {
      IndexByIdValue(blocks[..n], id);
    }
  }

  /** The entry of an id is the last block that carries it: a later block with a repeated id
      overwrites an earlier one. */
  lemma {:induction false} IndexByIdEntry(blocks: seq<Block>, i: nat)
    requires i < |blocks|
    requires forall j :: i < j < |blocks| ==> blocks[j].id != blocks[i].id
    ensures blocks[i].id in IndexById(blocks).items && IndexById(blocks).items[blocks[i].id] == blocks[i]
  {
    var n := |blocks| - 1;
    if i < n {
      IndexByIdEntry(blocks[..n], i);
    }
  }

  ghost predicate DistinctIds(blocks: seq<Block>) {
    forall i, j :: 0 <= i < j < |blocks| ==> blocks[i].id != blocks[j].id
  }

  /** With unique ids, the id of the last block is not among those of the earlier ones. */
  lemma LastIdFresh(blocks: seq<Block>)
    requires |blocks| > 0 && DistinctIds(blocks)
    ensures blocks[|blocks| - 1].id !in IndexById(blocks[..|blocks| - 1]).items
  {
    var n := |blocks| - 1;
    IndexByIdKeys(blocks[..n], blocks[n].id);
    forall b | b in blocks[..n] ensures b.id != blocks[n].id {
      var j :| 0 <= j < n && blocks[..n][j] == b;
      assert blocks[j] == b;
    }
  }

  /** With unique ids, the dictionary lists the blocks themselves in response order. */
  lemma {:induction false} IndexByIdOrder(blocks: seq<Block>)
    requires DistinctIds(blocks)
    ensures Values(IndexById(blocks)) == blocks
  {
    if |blocks| > 0 {
      var n := |blocks| - 1;
      var init := blocks[..n];
      assert DistinctIds(init);
      IndexByIdOrder(init);
      LastIdFresh(blocks);
      PutNewValues(IndexById(init), blocks[n].id, blocks[n]);
      assert blocks == init + [blocks[n]];
    }
  }

  /** With unique ids: every id is in block_map, query_map holds exactly the QUERY blocks and
      answer_map exactly the QUERY_RESULT blocks, both agree with block_map, and they share
      no key; iterating query_map yields the QUERY blocks in response order. */
  lemma PartitionUniqueIds(blocks: seq<Block>, id: Id)
    requires DistinctIds(blocks)
    ensures var p := Partition(blocks);
      && (id in p.blockMap.items <==> exists i :: 0 <= i < |blocks| && blocks[i].id == id)
      && (id in p.queryMap.items <==> id in p.blockMap.items && p.blockMap.items[id].blockType == Query)
      && (id in p.answerMap.items <==> id in p.blockMap.items && p.blockMap.items[id].blockType == QueryResult)
      && (id in p.queryMap.items ==> p.queryMap.items[id] == p.blockMap.items[id])
      && (id in p.answerMap.items ==> p.answerMap.items[id] == p.blockMap.items[id])
      && !(id in p.queryMap.items && id in p.answerMap.items)
      && Values(p.queryMap) == OfType(blocks, Query)
  {
    IndexByIdKeys(blocks, id);
    if id in IndexById(blocks).items {
      var b :| b in blocks && b.id == id;
      var i :| 0 <= i < |blocks| && blocks[i] == b;
    }
    TypedMapAgrees(blocks, Query, id);
    TypedMapAgrees(blocks, QueryResult, id);
    OfTypeDistinct(blocks, Query);
    IndexByIdOrder(OfType(blocks, Query));
  }

  /** With unique ids, the map of the blocks of one type holds exactly the entries of the map
      of all blocks that have that type. */
  lemma TypedMapAgrees(blocks: seq<Block>, t: BlockType, id: Id)
    requires DistinctIds(blocks)
    ensures var all, typed := IndexById(blocks), IndexById(OfType(blocks, t));
      && (id in typed.items <==> id in all.items && all.items[id].blockType == t)
      && (id in typed.items ==> typed.items[id] == all.items[id])
  {
    var qs := OfType(blocks, t);
    OfTypeDistinct(blocks, t);
    IndexByIdKeys(blocks, id);
    IndexByIdKeys(qs, id);
    if id in IndexById(blocks).items {
      var b :| b in blocks && b.id == id;
      var i :| 0 <= i < |blocks| && blocks[i] == b;
      IndexByIdEntry(blocks, i);
      OfTypeMembers(blocks, t, b);
      if id in IndexById(qs).items {
        var c :| c in qs && c.id == id;
        OfTypeMembers(blocks, t, c);
        var k :| 0 <= k < |qs| && qs[k] == c;
        IndexByIdEntry(qs, k);
      }
    } else {
      forall c | c in qs ensures c.id != id {
        OfTypeMembers(blocks, t, c);
      }
    }
  }

  lemma {:induction false} OfTypeDistinct(blocks: seq<Block>, t: BlockType)
    requires DistinctIds(blocks)
    ensures DistinctIds(OfType(blocks, t))
    ensures forall b, c :: b in blocks && c in blocks && b.id == c.id ==> b == c
  {
    SameIdSameBlock(blocks);
    if |blocks| > 0 {
      var n := |blocks| - 1;
      var init, last := blocks[..n], blocks[n];
      assert DistinctIds(init);
      OfTypeDistinct(init, t);
      if last.blockType == t {
        var r := OfType(init, t);
        forall k | 0 <= k < |r| ensures r[k].id != last.id {
          OfTypeMembers(init, t, r[k]);
          var j :| 0 <= j < n && init[j] == r[k];
          assert blocks[j] == r[k];
        }
        SnocDistinct(r, last);
      }
    }
  }

  /** With unique ids, a block is determined by its id. */
  lemma SameIdSameBlock(blocks: seq<Block>)
    requires DistinctIds(blocks)
    ensures forall b, c :: b in blocks && c in blocks && b.id == c.id ==> b == c
  {
  }

  lemma SnocDistinct(r: seq<Block>, last: Block)
    requires DistinctIds(r)
    requires forall k :: 0 <= k < |r| ==> r[k].id != last.id
    ensures DistinctIds(r + [last])
  {
    var r' := r + [last];
    forall i, j | 0 <= i < j < |r'| ensures r'[i].id != r'[j].id {
      if j < |r| {
        assert r'[i] == r[i] && r'[j] == r[j];
      }
    }
  }

  /** Without unique ids the maps need not be disjoint nor agree with block_map:
      a QUERY block and a later QUERY_RESULT block with the same id. */
  lemma RepeatedIdCounterexample(q: Block, a: Block)
    requires q.blockType == Query && a.blockType == QueryResult && q.id == a.id
    ensures var p := Partition([q, a]);
      && q.id in p.queryMap.items && q.id in p.answerMap.items
      && p.queryMap.items[q.id] != p.blockMap.items[q.id]
  {
    var qa := [q, a];
    assert qa[..1] == [q] && [q][..0] == [];
    assert OfType([q], Query) == [q];
    assert OfType(qa, Query) == [q];
    assert OfType([q], QueryResult) == [];
    assert OfType(qa, QueryResult) == [a];
    var iq := IndexById([q]);
    assert IndexById([]) == Empty();
    assert iq == Put(IndexById([]), q.id, q);
    assert iq.items == map[q.id := q];
    assert [a][..0] == [];
    assert IndexById([a]) == Put(IndexById([]), a.id, a);
    assert IndexById([a]).items == map[a.id := a];
    assert IndexById(qa).items == iq.items[a.id := a];
  }
}
