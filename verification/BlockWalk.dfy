/** The query for one masterchain block: shard blocks are followed backwards, level by level,
    as long as they are referenced by that masterchain block (tondb-scanner/src/DbScanner.cpp). */
module BlockWalk {

  datatype BlockId = BlockId(workchain: int, shard: nat, seqno: nat)

  // A block handle: the masterchain seqno that references the block, and its predecessors.
  datatype Handle = Handle(masterRef: nat, prev: seq<BlockId>)

  // The block database; looking up an absent block is an error.
  type Db = map<BlockId, Handle>

  // The current shard tops and the queried masterchain seqno.
  datatype Query = Query(mcSeqno: nat, tops: seq<BlockId>)

  predicate Accepted(db: Db, q: Query, b: BlockId) {
    b in db && (db[b].masterRef == q.mcSeqno || b in q.tops)
  }

  // A walk from a top along predecessors; the first block of a chain (seqno 0) is not entered.
  ghost predicate Walk(db: Db, q: Query, path: seq<BlockId>) {
    && path != [] && path[0] in q.tops
    && (forall i :: 0 <= i < |path| ==> path[i] in db && path[i].seqno > 0)
    && (forall i :: 0 <= i < |path| - 1 ==> path[i + 1] in db[path[i]].prev)
  }

  ghost predicate AcceptedWalk(db: Db, q: Query, path: seq<BlockId>) {
    Walk(db, q, path) && forall i :: 0 <= i < |path| ==> Accepted(db, q, path[i])
  }

  // The closure of the tops under predecessor links through accepted blocks.
  ghost predicate Reached(db: Db, q: Query, b: BlockId) {
    exists path :: AcceptedWalk(db, q, path) && path[|path| - 1] == b
  }

  ghost predicate Requested(db: Db, q: Query, handles: set<BlockId>, b: BlockId) {
    b.seqno > 0 && (b in q.tops || exists h :: h in handles && h in db && b in db[h].prev)
  }

  // Every block that has been asked for was taken, refused, or is still to be looked up.
  ghost predicate Complete(db: Db, q: Query, handles: set<BlockId>, open: set<BlockId>) {
    forall b :: Requested(db, q, handles, b) ==> b in open || b in handles || (b in db && !Accepted(db, q, b))
  }

  ghost predicate Sound(db: Db, q: Query, handles: set<BlockId>) {
    forall b :: b in handles ==> Reached(db, q, b)
  }

  lemma ReachNext(db: Db, q: Query, handles: set<BlockId>, b: BlockId)
    requires Sound(db, q, handles) && Requested(db, q, handles, b) && Accepted(db, q, b)
    ensures Reached(db, q, b)
  {
    if b in q.tops {
      assert AcceptedWalk(db, q, [b]);
    } else {
      var h :| h in handles && h in db && b in db[h].prev;
      var path :| AcceptedWalk(db, q, path) && path[|path| - 1] == h;
      var longer := path + [b];
      forall i | 0 <= i < |longer| - 1 ensures longer[i + 1] in db[longer[i]].prev {
        assert i < |path| - 1 ==> path[i + 1] in db[path[i]].prev;
      }
      assert AcceptedWalk(db, q, longer) && longer[|longer| - 1] == b;
    }
  }

  lemma {:induction false} WalkIsTaken(db: Db, q: Query, handles: set<BlockId>, path: seq<BlockId>, i: nat)
    requires Complete(db, q, handles, {}) && AcceptedWalk(db, q, path) && i < |path|
    ensures path[i] in handles
  {
    if i > 0 {
      WalkIsTaken(db, q, handles, path, i - 1);
      assert path[i - 1 + 1] in db[path[i - 1]].prev;
    }
    assert Requested(db, q, handles, path[i]);
  }

  class IndexQuery {
    const db: Db
    const query: Query
    var blocksQueue: seq<BlockId>
    var shardBlockHandles: set<BlockId>

    constructor (db: Db, query: Query)
      ensures this.db == db && this.query == query && blocksQueue == [] && shardBlockHandles == {}
    {
      this.db, this.query := db, query;
      blocksQueue, shardBlockHandles := [], {};
    }

    // Take a block in, once, and queue its predecessors.
    method AddBlockHandle(b: BlockId)
      requires b in db
      modifies this
      ensures shardBlockHandles == old(shardBlockHandles) + {b}
      ensures b in old(shardBlockHandles) ==> blocksQueue == old(blocksQueue)
      ensures forall x :: x in blocksQueue <==>
                x in old(blocksQueue) || (b !in old(shardBlockHandles) && x in db[b].prev && x.seqno > 0)
    {
      if b in shardBlockHandles {
        return;
      }
      shardBlockHandles := shardBlockHandles + {b};
      var prev := db[b].prev;
      for i := 0 to |prev|
        invariant shardBlockHandles == old(shardBlockHandles) + {b}
        invariant forall x :: x in blocksQueue <==> x in old(blocksQueue) || (x in prev[..i] && x.seqno > 0)
      {
        assert prev[..i + 1] == prev[..i] + [prev[i]];
        if prev[i].seqno > 0 {
          blocksQueue := blocksQueue + [prev[i]];
        }
      }
      assert prev[..|prev|] == prev;
    }

    // Look up one level; the replies arrive in any order.
    method FetchLevel(level: seq<BlockId>) returns (ok: bool)
      requires blocksQueue == [] && shardBlockHandles <= db.Keys
      requires Sound(db, query, shardBlockHandles)
      requires forall b :: b in level ==> Requested(db, query, shardBlockHandles, b)
      requires Complete(db, query, shardBlockHandles, set b | b in level)
      modifies this
      ensures old(shardBlockHandles) <= shardBlockHandles <= db.Keys
      ensures shardBlockHandles == old(shardBlockHandles) ==> blocksQueue == []
      ensures Sound(db, query, shardBlockHandles)
      ensures forall b :: b in blocksQueue ==> Requested(db, query, shardBlockHandles, b)
      ensures ok ==> Complete(db, query, shardBlockHandles, set b | b in blocksQueue)
      ensures ok <==> forall b :: b in level ==> b in db
    {
      ok := true;
      var rest := set b | b in level;
      ghost var all := rest;
      while rest != {}
        invariant rest <= all && old(shardBlockHandles) <= shardBlockHandles <= db.Keys
        invariant shardBlockHandles == old(shardBlockHandles) ==> blocksQueue == []
        invariant Sound(db, query, shardBlockHandles)
        invariant forall b :: b in all ==> Requested(db, query, shardBlockHandles, b)
        invariant forall b :: b in blocksQueue ==> Requested(db, query, shardBlockHandles, b)
        invariant ok ==> Complete(db, query, shardBlockHandles, rest + set b | b in blocksQueue)
        invariant ok <==> forall b :: b in all - rest ==> b in db
      {
        var b :| b in rest;
        if b !in db {
          ok := false;
        } else if Accepted(db, query, b) {
          ReachNext(db, query, shardBlockHandles, b);
          AddBlockHandle(b);
        }
        rest := rest - {b};
      }
    }

    /** The walk ends, with exactly the closure of the tops, unless a block that has to be
        looked up is missing. */
    method FetchShardBlocks() returns (ok: bool)
      requires blocksQueue == [] && shardBlockHandles == {}
      modifies this
      ensures ok ==> forall b :: b in shardBlockHandles <==> Reached(db, query, b)
      ensures ok ==> shardBlockHandles <= db.Keys && forall b :: Requested(db, query, shardBlockHandles, b) ==> b in db
      ensures !ok ==> exists b :: b !in db && (exists handles :: Sound(db, query, handles) && Requested(db, query, handles, b))
    {
      for i := 0 to |query.tops|
        invariant shardBlockHandles == {}
        invariant forall b :: b in blocksQueue <==> b in query.tops[..i] && b.seqno > 0
      {
        assert query.tops[..i + 1] == query.tops[..i] + [query.tops[i]];
        if query.tops[i].seqno > 0 {
          blocksQueue := blocksQueue + [query.tops[i]];
        }
      }
      assert query.tops[..|query.tops|] == query.tops;
      ok := true;
      while blocksQueue != []
        invariant shardBlockHandles <= db.Keys && Sound(db, query, shardBlockHandles)
        invariant forall b :: b in blocksQueue ==> Requested(db, query, shardBlockHandles, b)
        invariant Complete(db, query, shardBlockHandles, set b | b in blocksQueue)
        decreases db.Keys - shardBlockHandles, |blocksQueue|
      {
        var level := blocksQueue;
        blocksQueue := [];
        ghost var before := shardBlockHandles;
        ok := FetchLevel(level);
        if !ok {
          ghost var b :| b in level && b !in db;
          assert Sound(db, query, before) && Requested(db, query, before, b);
          return;
        }
      }
      assert (set b | b in blocksQueue) == {};
      forall b | Reached(db, query, b) ensures b in shardBlockHandles {
        var path :| AcceptedWalk(db, query, path) && path[|path| - 1] == b;
        WalkIsTaken(db, query, shardBlockHandles, path, |path| - 1);
      }
    }

    /** The results: the masterchain block itself, then of the blocks taken those it references
        (the difference) and those that are current tops (the state); each once. */
    method CollectResults(mcBlock: BlockId) returns (shardBlocks: seq<BlockId>, diff: seq<BlockId>)
      requires shardBlockHandles <= db.Keys && mcBlock !in shardBlockHandles
      ensures NoRepeats(shardBlocks) && NoRepeats(diff)
      ensures forall b :: b in diff <==> b == mcBlock || (b in shardBlockHandles && db[b].masterRef == query.mcSeqno)
      ensures forall b :: b in shardBlocks <==> b == mcBlock || (b in shardBlockHandles && b in query.tops)
    {
      shardBlocks, diff := [mcBlock], [mcBlock];
      var rest := shardBlockHandles;
      while rest != {}
        invariant rest <= shardBlockHandles && NoRepeats(shardBlocks) && NoRepeats(diff)
        invariant forall b :: b in diff <==> b == mcBlock || (b in shardBlockHandles - rest && db[b].masterRef == query.mcSeqno)
        invariant forall b :: b in shardBlocks <==> b == mcBlock || (b in shardBlockHandles - rest && b in query.tops)
      {
        var b :| b in rest;
        if b in query.tops {
          shardBlocks := Append(shardBlocks, b);
        }
        if db[b].masterRef == query.mcSeqno {
          diff := Append(diff, b);
        }
        rest := rest - {b};
      }
    }
  }

  predicate NoRepeats(bs: seq<BlockId>) {
    forall i, j :: 0 <= i < j < |bs| ==> bs[i] != bs[j]
  }

  function Append(bs: seq<BlockId>, b: BlockId): (r: seq<BlockId>)
    requires NoRepeats(bs) && b !in bs
    ensures NoRepeats(r) && forall x :: x in r <==> x in bs || x == b
  {
    bs + [b]
  }

  // ---- What the difference means ----

  // A predecessor is never referenced by a later masterchain block than its successor, and the
  // tops are referenced by this masterchain block or an earlier one.
  ghost predicate RefsNeverIncrease(db: Db, q: Query) {
    && (forall b, p :: b in db && p in db[b].prev && p in db && p.seqno > 0 ==> db[p].masterRef <= db[b].masterRef)
    && (forall b :: b in q.tops && b in db ==> db[b].masterRef <= q.mcSeqno)
  }

  lemma {:induction false} RefsAlongWalk(db: Db, q: Query, path: seq<BlockId>, i: nat, j: nat)
    requires RefsNeverIncrease(db, q) && Walk(db, q, path) && i <= j < |path|
    ensures db[path[j]].masterRef <= db[path[i]].masterRef
    decreases j
  {
    if i < j {
      RefsAlongWalk(db, q, path, i, j - 1);
      assert path[j - 1 + 1] in db[path[j - 1]].prev;
    }
  }

  ghost predicate AncestorOrTop(db: Db, q: Query, b: BlockId) {
    exists path :: Walk(db, q, path) && path[|path| - 1] == b
  }

  /** When references never increase towards ancestors, the blocks taken that this masterchain
      block references are all ancestors-or-self of a top that it references: stopping at the
      first refused block loses nothing. */
  lemma DiffIsComplete(db: Db, q: Query, b: BlockId)
    requires RefsNeverIncrease(db, q) && b in db && db[b].masterRef == q.mcSeqno
    ensures Reached(db, q, b) <==> AncestorOrTop(db, q, b)
  {
    if AncestorOrTop(db, q, b) {
      var path :| Walk(db, q, path) && path[|path| - 1] == b;
      forall i | 0 <= i < |path| ensures Accepted(db, q, path[i]) {
        RefsAlongWalk(db, q, path, 0, i);
        RefsAlongWalk(db, q, path, i, |path| - 1);
      }
      assert AcceptedWalk(db, q, path);
    }
    if Reached(db, q, b) {
      var path :| AcceptedWalk(db, q, path) && path[|path| - 1] == b;
      assert Walk(db, q, path);
    }
  }

  /** The current tops are all taken, whatever references them; any other block taken is referenced
      by this masterchain block. */
  lemma TopsAreReached(db: Db, q: Query, b: BlockId)
    ensures b in q.tops && b in db && b.seqno > 0 ==> Reached(db, q, b)
    ensures Reached(db, q, b) ==> b in db && b.seqno > 0 && (b in q.tops || db[b].masterRef == q.mcSeqno)
  {
    if b in q.tops && b in db && b.seqno > 0 {
      assert AcceptedWalk(db, q, [b]);
    }
    if Reached(db, q, b) {
      var path :| AcceptedWalk(db, q, path) && path[|path| - 1] == b;
    }
  }

  /** From a block taken the walk goes on to every predecessor that is a top or is referenced by this
      masterchain block, and to no other. */
  lemma WalkGoesOn(db: Db, q: Query, h: BlockId, b: BlockId)
    requires Reached(db, q, h) && h in db && b in db[h].prev && b in db && b.seqno > 0
    ensures Reached(db, q, b) <==> b in q.tops || db[b].masterRef == q.mcSeqno
  {
    TopsAreReached(db, q, b);
    if b in q.tops || db[b].masterRef == q.mcSeqno {
      ReachNext(db, q, {h}, b);
    }
  }
}
