/** The transaction search (main.go, handleSearch): a case-insensitive
    substring filter over every transaction of every block, in chain order. */
module Search {
  import opened Text
  import opened Ledger

  /** One match: the block it sits in and the transaction as stored. */
  datatype Hit = Hit(blockIndex: int, tx: string)

  /** The reply: the trimmed query, the number of matches and the matches. */
  datatype Reply = Reply(query: string, count: nat, results: seq<Hit>)

  /** A transaction matches a lower-cased needle when its lower-cased text
      contains it. */
  predicate Matches(tx: string, needle: string) {
    Contains(ToLower(tx), needle)
  }

  /** The matches among one block's transactions, in order. */
  function BlockHits(index: int, txs: seq<string>, needle: string): seq<Hit>
    decreases |txs|
  {
    if txs == [] then []
    else
      var last := txs[|txs| - 1];
      BlockHits(index, txs[..|txs| - 1], needle) + (if Matches(last, needle) then [Hit(index, last)] else [])
  }

  /** The matches over a whole chain, block by block. */
  function ChainHits(chain: seq<Block>, needle: string): seq<Hit>
    decreases |chain|
  {
    if chain == [] then []
    else
      var last := chain[|chain| - 1];
      ChainHits(chain[..|chain| - 1], needle) + BlockHits(last.index, last.txs, needle)
  }

  /** handleSearch after the method check: a query that trims to nothing
      is refused; otherwise every transaction containing the lower-cased
      trimmed query, ignoring ASCII case, is reported with its block index. */
  method SearchChain(chain: seq<Block>, rawQuery: string) returns (r: Result<Reply>)
    ensures r.Err? <==> AllSpace(rawQuery)
    ensures r.Err? ==> r.error == EmptyQuery
    ensures r.Ok? ==>
      && r.value.query == TrimSpace(rawQuery)
      && r.value.results == ChainHits(chain, ToLower(TrimSpace(rawQuery)))
      && r.value.count == |r.value.results|
  {
    var q := TrimSpace(rawQuery);
    TrimSpaceEmpty(rawQuery);
    if q == "" {
      return Err(EmptyQuery);
    }
    var needle := ToLower(q);
    var results: seq<Hit> := [];
    for i := 0 to |chain|
      invariant results == ChainHits(chain[..i], needle)
    {
      var b := chain[i];
      for j := 0 to |b.txs|
        invariant results == ChainHits(chain[..i], needle) + BlockHits(b.index, b.txs[..j], needle)
      {
        var tx := b.txs[j];
        BlockHitsStep(b.index, b.txs, j, needle);
        if Contains(ToLower(tx), needle) {
          results := results + [Hit(b.index, tx)];
        }
      }
      ChainHitsStep(chain, i, needle);
    }
    assert chain[..|chain|] == chain;
    r := Ok(Reply(q, |results|, results));
  }

  /** One step of the inner loop: the matches among the first j + 1
      transactions. */
  lemma BlockHitsStep(index: int, txs: seq<string>, j: nat, needle: string)
    requires j < |txs|
    ensures BlockHits(index, txs[..j + 1], needle)
         == BlockHits(index, txs[..j], needle) + (if Matches(txs[j], needle) then [Hit(index, txs[j])] else [])
  {
    assert txs[..j + 1][..j] == txs[..j];
  }

  /** One step of the outer loop: the matches over the first i + 1 blocks. */
  lemma ChainHitsStep(chain: seq<Block>, i: nat, needle: string)
    requires i < |chain|
    ensures ChainHits(chain[..i + 1], needle)
         == ChainHits(chain[..i], needle) + BlockHits(chain[i].index, chain[i].txs[..|chain[i].txs|], needle)
  {
    assert chain[..i + 1][..i] == chain[..i];
    assert chain[i].txs[..|chain[i].txs|] == chain[i].txs;
  }

  /** Membership in one block's matches: exactly its matching transactions. */
  lemma {:induction false} BlockHitsMembership(index: int, txs: seq<string>, needle: string, h: Hit)
    ensures h in BlockHits(index, txs, needle)
            <==> h.blockIndex == index && h.tx in txs && Matches(h.tx, needle)
    decreases |txs|
  {
    if txs != [] {
      var init := txs[..|txs| - 1];
      BlockHitsMembership(index, init, needle, h);
      assert txs == init + [txs[|txs| - 1]];
    }
  }

  /** Membership in the chain's matches: a hit names a block of the chain
      and a transaction of that block which matches. */
  lemma {:induction false} ChainHitsMembership(chain: seq<Block>, needle: string, h: Hit)
    ensures h in ChainHits(chain, needle)
            <==> exists b :: b in chain && h.blockIndex == b.index && h.tx in b.txs && Matches(h.tx, needle)
    decreases |chain|
  {
    if chain != [] {
      var init, last := chain[..|chain| - 1], chain[|chain| - 1];
      ChainHitsMembership(init, needle, h);
      BlockHitsMembership(last.index, last.txs, needle, h);
      assert chain == init + [last];
    }
  }

  /** Matches of a longer chain extend those of its prefix: results come
      in chain order. */
  lemma {:induction false} ChainHitsAppend(a: seq<Block>, c: seq<Block>, needle: string)
    ensures ChainHits(a + c, needle) == ChainHits(a, needle) + ChainHits(c, needle)
    decreases |c|
  {
    if c != [] {
      var init := c[..|c| - 1];
      ChainHitsAppend(a, init, needle);
      var last := c[|c| - 1];
      assert (a + c)[..|a + c| - 1] == a + init;
      assert (a + c)[|a + c| - 1] == last;
      var tail := BlockHits(last.index, last.txs, needle);
      calc {
        ChainHits(a + c, needle);
        ChainHits(a + init, needle) + tail;
        (ChainHits(a, needle) + ChainHits(init, needle)) + tail;
        ChainHits(a, needle) + (ChainHits(init, needle) + tail);
      }
    } else {
      assert a + c == a;
    }
  }

  /** A block's matches never outnumber its transactions. */
  lemma {:induction false} BlockHitsBound(index: int, txs: seq<string>, needle: string)
    ensures |BlockHits(index, txs, needle)| <= |txs|
    decreases |txs|
  {
    if txs != [] {
      BlockHitsBound(index, txs[..|txs| - 1], needle);
    }
  }
}
