/** Writing a trace into the result map and rebuilding it from there
    (ton-trace-task-emulator/src/TaskResultInserter.cpp, ton-emulate-go/models/convert.go). */
module TraceRoundTrip {
  import opened Wrappers
  import opened TraceFlattening

  // The result map: nodes under their in-message hash, and the key of the root.
  datatype Hset = Hset(rootNode: Hash, entries: map<Hash, Stored>)

  datatype Short = Short(txHash: Hash, inMsgHash: Hash, children: seq<Short>)

  type TxMap = map<Hash, Tx>

  function Entries(nodes: seq<Stored>): map<Hash, Stored> {
    if nodes == [] then map[]
    else Entries(nodes[..|nodes| - 1])[nodes[|nodes| - 1].tx.inMsg := nodes[|nodes| - 1]]
  }

  /** Flatten the tree and write every node under its key. */
  method WriteResult(root: TraceNode, id: Hash) returns (h: Hset)
    ensures h == Hset(id, Entries(Bfs([root])))
  {
    var nodes := Flatten(root);
    var entries: map<Hash, Stored> := map[];
    for i := 0 to |nodes|
      invariant entries == Entries(nodes[..i])
    {
      assert nodes[..i + 1][..i] == nodes[..i];
      entries := entries[nodes[i].tx.inMsg := nodes[i]];
    }
    assert nodes[..|nodes|] == nodes;
    h := Hset(id, entries);
  }

  // Rebuild the node under `key`. `path` are the keys being rebuilt further up; meeting one of
  // them again means that the recursion of the source would not end.
  function ConvertNode(h: map<Hash, Stored>, key: Hash, path: set<Hash>, txs: TxMap): Option<(Short, TxMap)>
    requires key in h && key !in path
    decreases h.Keys - path, 1, 0
  {
    var tx := h[key].tx;
    var r := ConvertOuts(h, tx.outMsgs, key, path, txs[tx.hash := tx]);
    if r.None? then None else Some((Short(tx.hash, tx.inMsg, r.value.0), r.value.1))
  }

  // The children: the out-messages that have a node, in order.
  function ConvertOuts(h: map<Hash, Stored>, outs: seq<Hash>, key: Hash, path: set<Hash>, txs: TxMap): Option<(seq<Short>, TxMap)>
    requires key in h && key !in path
    decreases h.Keys - path, 0, |outs|
  {
    if outs == [] then Some(([], txs))
    else if outs[0] !in h then ConvertOuts(h, outs[1..], key, path, txs)
    else if outs[0] in path + {key} then None
    else
      var first := ConvertNode(h, outs[0], path + {key}, txs);
      if first.None? then None
      else
        var rest := ConvertOuts(h, outs[1..], key, path, first.value.1);
        if rest.None? then None else Some(([first.value.0] + rest.value.0, rest.value.1))
  }

  /** The rebuilding loop: whenever its recursion ends, it fills in exactly that tree and map. */
  method BuildNode(h: map<Hash, Stored>, key: Hash, ghost path: set<Hash>, txs: TxMap) returns (short: Short, txs': TxMap)
    requires key in h && key !in path && ConvertNode(h, key, path, txs).Some?
    ensures ConvertNode(h, key, path, txs) == Some((short, txs'))
    decreases h.Keys - path
  {
    var tx := h[key].tx;
    txs' := txs[tx.hash := tx];
    ghost var all := ConvertOuts(h, tx.outMsgs, key, path, txs');
    var children := [];
    for i := 0 to |tx.outMsgs|
      invariant ConvertOuts(h, tx.outMsgs[i..], key, path, txs').Some?
      invariant all.Some? && all.value.1 == ConvertOuts(h, tx.outMsgs[i..], key, path, txs').value.1
      invariant all.value.0 == children + ConvertOuts(h, tx.outMsgs[i..], key, path, txs').value.0
    {
      var m := tx.outMsgs[i];
      assert tx.outMsgs[i..][0] == m && tx.outMsgs[i..][1..] == tx.outMsgs[i + 1..];
      if m in h {
        var child;
        child, txs' := BuildNode(h, m, path + {key}, txs');
        children := children + [child];
      }
    }
    assert tx.outMsgs[|tx.outMsgs|..] == [] && children + [] == children;
    assert all == Some((children, txs'));
    short := Short(tx.hash, tx.inMsg, children);
  }

  function Rebuild(h: Hset): Option<(Short, TxMap)> {
    if h.rootNode !in h.entries then None else ConvertNode(h.entries, h.rootNode, {}, map[])
  }

  // ---- The expected result ----

  function ToShort(n: TraceNode): Short {
    Short(n.tx.hash, n.tx.inMsg, ToShorts(n.children))
  }

  function ToShorts(ns: seq<TraceNode>): seq<Short> {
    if ns == [] then [] else [ToShort(ns[0])] + ToShorts(ns[1..])
  }

  function AddTxs(n: TraceNode, txs: TxMap): TxMap {
    AddAllTxs(n.children, txs[n.tx.hash := n.tx])
  }

  function AddAllTxs(ns: seq<TraceNode>, txs: TxMap): TxMap {
    if ns == [] then txs else AddAllTxs(ns[1..], AddTxs(ns[0], txs))
  }

  // Every out-message is answered by the next child or has no node anywhere in the trace.
  ghost predicate Aligned(root: TraceNode, outs: seq<Hash>, children: seq<TraceNode>) {
    if outs == [] then children == []
    else if children != [] && children[0].tx.inMsg == outs[0] then Aligned(root, outs[1..], children[1..])
    else !KeyBelow(root, outs[0]) && Aligned(root, outs[1..], children)
  }

  ghost predicate AllAligned(root: TraceNode, n: TraceNode)
    decreases n
  {
    Aligned(root, n.tx.outMsgs, n.children) && forall i :: 0 <= i < |n.children| ==> AllAligned(root, n.children[i])
  }

  // ---- Flattening with distinct keys loses nothing ----

  lemma {:induction false} EntriesFromList(nodes: seq<Stored>, k: Hash)
    ensures k in Entries(nodes) ==> Entries(nodes)[k] in nodes && Entries(nodes)[k].tx.inMsg == k
    ensures (exists i :: 0 <= i < |nodes| && nodes[i].tx.inMsg == k) ==> k in Entries(nodes)
  {
    if nodes != [] {
      EntriesFromList(nodes[..|nodes| - 1], k);
      if exists i :: 0 <= i < |nodes| && nodes[i].tx.inMsg == k {
        var i :| 0 <= i < |nodes| && nodes[i].tx.inMsg == k;
        assert i < |nodes| - 1 ==> nodes[..|nodes| - 1][i].tx.inMsg == k;
      }
    }
  }

  lemma WithinOnly(x: TraceNode, n: TraceNode)
    ensures WithinAny(x, [n]) <==> Within(x, n)
  {
    assert [n][0] == n;
  }

  /** The map has exactly the keys of the tree, and under each key the node itself. */
  lemma EntriesOfTree(root: TraceNode, k: Hash)
    requires DistinctKeys(root)
    ensures k in Entries(Bfs([root])) <==> KeyBelow(root, k)
    ensures forall x :: Within(x, root) && x.tx.inMsg == k ==>
              k in Entries(Bfs([root])) && Entries(Bfs([root]))[k] == Record(x)
  {
    hide Bfs, Within, DistinctKeys;
    var nodes := Bfs([root]);
    EntriesFromList(nodes, k);
    forall x | Within(x, root) && x.tx.inMsg == k ensures k in Entries(nodes) && Entries(nodes)[k] == Record(x) {
      WithinOnly(x, root);
      BfsContains([root], Record(x));
      assert exists i :: 0 <= i < |nodes| && nodes[i] == Record(x);
      var s := Entries(nodes)[k];
      BfsContains([root], s);
      var y :| WithinAny(y, [root]) && Record(y) == s;
      WithinOnly(y, root);
      KeyIdentifies(root, x, y);
    }
    if k in Entries(nodes) {
      var s := Entries(nodes)[k];
      BfsContains([root], s);
      var y :| WithinAny(y, [root]) && Record(y) == s;
      WithinOnly(y, root);
    }
  }

  // The map as seen from the tree.
  ghost predicate Reflects(h: map<Hash, Stored>, root: TraceNode) {
    && (forall k :: k in h <==> KeyBelow(root, k))
    && (forall x :: Within(x, root) ==> x.tx.inMsg in h && h[x.tx.inMsg] == Record(x))
  }

  lemma EntriesReflect(root: TraceNode)
    requires DistinctKeys(root)
    ensures Reflects(Entries(Bfs([root])), root)
  {
    hide Bfs, Within, DistinctKeys, Entries, KeyBelow;
    forall k ensures k in Entries(Bfs([root])) <==> KeyBelow(root, k) {
      EntriesOfTree(root, k);
    }
    forall x | Within(x, root)
      ensures x.tx.inMsg in Entries(Bfs([root])) && Entries(Bfs([root]))[x.tx.inMsg] == Record(x)
    {
      EntriesOfTree(root, x.tx.inMsg);
    }
  }

  // ---- Rebuilding ----

  lemma {:induction false} WithinTransitive(x: TraceNode, y: TraceNode, n: TraceNode)
    requires Within(x, y) && Within(y, n)
    ensures Within(x, n)
    decreases n
  {
    if y != n {
      var i :| 0 <= i < |n.children| && Within(y, n.children[i]);
      WithinTransitive(x, y, n.children[i]);
    }
  }

  lemma ChildWithin(root: TraceNode, n: TraceNode, i: nat)
    requires Within(n, root) && i < |n.children|
    ensures Within(n.children[i], root)
  {
    assert Within(n.children[i], n.children[i]);
    assert Within(n.children[i], n);
    WithinTransitive(n.children[i], n, root);
  }

  // None of the keys is used in the subtree.
  ghost predicate Avoids(n: TraceNode, path: set<Hash>) {
    forall k :: k in path ==> !KeyBelow(n, k)
  }

  lemma ChildAvoids(n: TraceNode, path: set<Hash>, i: nat)
    requires DistinctKeys(n) && Avoids(n, path) && i < |n.children|
    ensures Avoids(n.children[i], path + {n.tx.inMsg}) && DistinctKeys(n.children[i])
  {
    var c := n.children[i];
    forall k | k in path + {n.tx.inMsg} ensures !KeyBelow(c, k) {
      if k != n.tx.inMsg {
        forall x | Within(x, c) ensures x.tx.inMsg != k {
          assert Within(x, n);
          assert !KeyBelow(n, k);
        }
      }
    }
  }

  // The children of `n` from number `from` on are all aligned.
  ghost predicate RestAligned(root: TraceNode, n: TraceNode, from: nat) {
    forall i :: from <= i < |n.children| ==> AllAligned(root, n.children[i])
  }

  lemma OwnKey(n: TraceNode, path: set<Hash>)
    requires Avoids(n, path)
    ensures n.tx.inMsg !in path
  {
    assert Within(n, n);
    assert KeyBelow(n, n.tx.inMsg);
  }

  lemma {:induction false} NodeIff(h: map<Hash, Stored>, root: TraceNode, n: TraceNode, path: set<Hash>, txs: TxMap)
    requires Reflects(h, root) && Within(n, root) && DistinctKeys(n) && Avoids(n, path)
    ensures n.tx.inMsg in h && n.tx.inMsg !in path
    ensures var r := ConvertNode(h, n.tx.inMsg, path, txs);
            if AllAligned(root, n) then r == Some((ToShort(n), AddTxs(n, txs))) else r.Some? ==> r.value.0 != ToShort(n)
    decreases n, 1, 0
  {
    OwnKey(n, path);
    assert h[n.tx.inMsg] == Record(n);
    assert n.children[0..] == n.children;
    OutsIff(h, root, n, n.tx.outMsgs, 0, path, txs[n.tx.hash := n.tx]);
  }

  lemma {:induction false} OutsIff(h: map<Hash, Stored>, root: TraceNode, n: TraceNode, outs: seq<Hash>, from: nat,
                                   path: set<Hash>, txs: TxMap)
    requires Reflects(h, root) && Within(n, root) && DistinctKeys(n) && Avoids(n, path) && from <= |n.children|
    requires n.tx.inMsg in h && n.tx.inMsg !in path
    ensures var cs := n.children[from..];
            var r := ConvertOuts(h, outs, n.tx.inMsg, path, txs);
            if Aligned(root, outs, cs) && RestAligned(root, n, from)
            then r == Some((ToShorts(cs), AddAllTxs(cs, txs)))
            else r.Some? ==> r.value.0 != ToShorts(cs)
    decreases n, 0, |outs|
  {
    var key, cs := n.tx.inMsg, n.children[from..];
    if outs == [] {
    } else if outs[0] !in h {
      SkipOne(h, root, n, outs, from);
      OutsIff(h, root, n, outs[1..], from, path, txs);
    } else if cs != [] && cs[0].tx.inMsg == outs[0] {
      MatchOne(h, root, n, outs, from, path, txs);
    } else {
      MismatchOne(h, root, n, outs, from, path, txs);
    }
  }

  // An out-message without a node is skipped.
  lemma SkipOne(h: map<Hash, Stored>, root: TraceNode, n: TraceNode, outs: seq<Hash>, from: nat)
    requires Reflects(h, root) && Within(n, root) && from <= |n.children| && outs != [] && outs[0] !in h
    ensures Aligned(root, outs, n.children[from..]) <==> Aligned(root, outs[1..], n.children[from..])
  {
    if from < |n.children| {
      ChildWithin(root, n, from);
    }
  }

  // An out-message answered by the next child.
  lemma {:induction false} MatchOne(h: map<Hash, Stored>, root: TraceNode, n: TraceNode, outs: seq<Hash>, from: nat,
                                    path: set<Hash>, txs: TxMap)
    requires Reflects(h, root) && Within(n, root) && DistinctKeys(n) && Avoids(n, path)
    requires n.tx.inMsg in h && n.tx.inMsg !in path
    requires from < |n.children| && outs != [] && outs[0] in h && n.children[from].tx.inMsg == outs[0]
    ensures var cs := n.children[from..];
            var r := ConvertOuts(h, outs, n.tx.inMsg, path, txs);
            if Aligned(root, outs, cs) && RestAligned(root, n, from)
            then r == Some((ToShorts(cs), AddAllTxs(cs, txs)))
            else r.Some? ==> r.value.0 != ToShorts(cs)
    decreases n, 0, |outs|, 0
  {
    hide Reflects, Within, DistinctKeys, Avoids, AllAligned, RestAligned, ConvertOuts, ConvertNode, Aligned,
         ToShorts, ToShort, AddAllTxs, AddTxs;
    var key, c, rest := n.tx.inMsg, n.children[from], n.children[from + 1..];
    assert n.children[from..] == [c] + rest;
    ChildWithin(root, n, from);
    ChildAvoids(n, path, from);
    NodeIff(h, root, c, path + {key}, txs);
    RestStep(root, n, from);
    var first := ConvertNode(h, outs[0], path + {key}, txs);
    if first.Some? {
      OutsIff(h, root, n, outs[1..], from + 1, path, first.value.1);
    }
    Compose(h, root, outs, key, path, txs, c, rest);
  }

  lemma RestStep(root: TraceNode, n: TraceNode, from: nat)
    requires from < |n.children|
    ensures RestAligned(root, n, from) <==> AllAligned(root, n.children[from]) && RestAligned(root, n, from + 1)
  {
    hide AllAligned;
  }

  // One more child in front.
  lemma Compose(h: map<Hash, Stored>, root: TraceNode, outs: seq<Hash>, key: Hash, path: set<Hash>, txs: TxMap,
                c: TraceNode, rest: seq<TraceNode>)
    requires key in h && key !in path && outs != [] && outs[0] in h && outs[0] !in path + {key} && c.tx.inMsg == outs[0]
    ensures Aligned(root, outs, [c] + rest) <==> Aligned(root, outs[1..], rest)
    ensures var first := ConvertNode(h, outs[0], path + {key}, txs);
            var all := ConvertOuts(h, outs, key, path, txs);
            if first.None? then all.None?
            else
              var others := ConvertOuts(h, outs[1..], key, path, first.value.1);
              if others.None? then all.None?
              else
                && all.Some? && all.value.1 == others.value.1
                && (all.value.0 == ToShorts([c] + rest) <==> first.value.0 == ToShort(c) && others.value.0 == ToShorts(rest))
    ensures AddAllTxs([c] + rest, txs) == AddAllTxs(rest, AddTxs(c, txs))
  {
    hide ConvertNode, ToShort;
    assert ([c] + rest)[1..] == rest;
    var first := ConvertNode(h, outs[0], path + {key}, txs);
    if first.Some? {
      ShortsHead(c, rest, first.value.0);
    }
  }

  lemma ShortsHead(c: TraceNode, rest: seq<TraceNode>, s: Short)
    ensures ToShorts([c] + rest) == [ToShort(c)] + ToShorts(rest)
    ensures forall ss :: [s] + ss == ToShorts([c] + rest) ==> s == ToShort(c) && ss == ToShorts(rest)
  {
    hide ToShort;
    assert ([c] + rest)[1..] == rest;
    forall ss | [s] + ss == ToShorts([c] + rest) ensures s == ToShort(c) && ss == ToShorts(rest) {
      assert ([s] + ss)[0] == s && ([s] + ss)[1..] == ss;
      assert ([ToShort(c)] + ToShorts(rest))[0] == ToShort(c) && ([ToShort(c)] + ToShorts(rest))[1..] == ToShorts(rest);
    }
  }

  // An out-message that leads to a node which is not the next child.
  lemma MismatchOne(h: map<Hash, Stored>, root: TraceNode, n: TraceNode, outs: seq<Hash>, from: nat,
                    path: set<Hash>, txs: TxMap)
    requires Reflects(h, root) && from <= |n.children| && n.tx.inMsg in h && n.tx.inMsg !in path
    requires outs != [] && outs[0] in h && !(from < |n.children| && n.children[from].tx.inMsg == outs[0])
    ensures var cs := n.children[from..];
            var r := ConvertOuts(h, outs, n.tx.inMsg, path, txs);
            !Aligned(root, outs, cs) && (r.Some? ==> r.value.0 != ToShorts(cs))
  {
    var key, cs := n.tx.inMsg, n.children[from..];
    var x :| Within(x, root) && x.tx.inMsg == outs[0];
    assert h[outs[0]] == Record(x);
    ConvertedHead(h, outs, key, path, txs);
    var r := ConvertOuts(h, outs, key, path, txs);
    if r.Some? && cs != [] {
      assert ToShorts(cs)[0] == ToShort(cs[0]);
    }
  }

  lemma ConvertedHead(h: map<Hash, Stored>, outs: seq<Hash>, key: Hash, path: set<Hash>, txs: TxMap)
    requires key in h && key !in path && outs != [] && outs[0] in h
    ensures var r := ConvertOuts(h, outs, key, path, txs);
            r.Some? ==> r.value.0 != [] && r.value.0[0].inMsgHash == h[outs[0]].tx.inMsg
  {
    if outs[0] !in path + {key} {
      var first := ConvertNode(h, outs[0], path + {key}, txs);
      assert first.Some? ==> first.value.0.inMsgHash == h[outs[0]].tx.inMsg;
    }
  }

  /** Round trip: a trace with distinct in-message hashes comes back from the result map as the
      same tree, children in order, with every transaction in the map, exactly when in every
      node each out-message is answered by the next child or has no node at all. */
  lemma RoundTrip(root: TraceNode)
    requires DistinctKeys(root)
    ensures var r := Rebuild(Hset(root.tx.inMsg, Entries(Bfs([root]))));
            if AllAligned(root, root) then r == Some((ToShort(root), AddTxs(root, map[])))
            else r.Some? ==> r.value.0 != ToShort(root)
  {
    EntriesReflect(root);
    assert Within(root, root);
    hide Entries, Bfs, Reflects, DistinctKeys;
    NodeIff(Entries(Bfs([root])), root, root, {}, map[]);
  }

  // ---- The transactions in the map ----

  // Equal transaction hashes mean equal transactions.
  ghost predicate HashesIdentify(all: iset<Tx>) {
    forall a, b :: a in all && b in all && a.hash == b.hash ==> a == b
  }

  ghost predicate Holds(txs: TxMap, all: iset<Tx>) {
    forall k :: k in txs ==> txs[k] in all && txs[k].hash == k
  }

  lemma {:induction false} AddTxsHolds(n: TraceNode, txs: TxMap, all: iset<Tx>)
    requires HashesIdentify(all) && Holds(txs, all) && forall x :: Within(x, n) ==> x.tx in all
    ensures var r := AddTxs(n, txs);
            && Holds(r, all) && txs.Keys <= r.Keys
            && (forall k :: k in r <==> k in txs || exists x :: Within(x, n) && x.tx.hash == k)
    decreases n, 1
  {
    assert Within(n, n);
    AddAllHolds(n, 0, txs[n.tx.hash := n.tx], all);
    assert n.children[0..] == n.children;
    var r := AddTxs(n, txs);
    forall k ensures k in r <==> k in txs || exists x :: Within(x, n) && x.tx.hash == k {
      if exists x :: Within(x, n) && x.tx.hash == k {
        var x :| Within(x, n) && x.tx.hash == k;
        if x != n {
          var i :| 0 <= i < |n.children| && Within(x, n.children[i]);
          assert BelowFrom(n, 0, k);
        }
      }
      if BelowFrom(n, 0, k) {
        var i, x :| 0 <= i < |n.children| && Within(x, n.children[i]) && x.tx.hash == k;
        assert Within(x, n);
      }
    }
  }

  ghost predicate BelowFrom(n: TraceNode, from: nat, k: Hash) {
    exists i, x :: from <= i < |n.children| && Within(x, n.children[i]) && x.tx.hash == k
  }

  lemma {:induction false} AddAllHolds(n: TraceNode, from: nat, txs: TxMap, all: iset<Tx>)
    requires HashesIdentify(all) && Holds(txs, all) && from <= |n.children| && forall x :: Within(x, n) ==> x.tx in all
    ensures var r := AddAllTxs(n.children[from..], txs);
            && Holds(r, all) && txs.Keys <= r.Keys
            && (forall k :: k in r <==> k in txs || BelowFrom(n, from, k))
    decreases n, 0, |n.children| - from
  {
    if from < |n.children| {
      var c := n.children[from];
      assert n.children[from..][0] == c && n.children[from..][1..] == n.children[from + 1..];
      forall x | Within(x, c) ensures x.tx in all {
        assert Within(x, n);
      }
      AddTxsHolds(c, txs, all);
      AddAllHolds(n, from + 1, AddTxs(c, txs), all);
      forall k ensures BelowFrom(n, from, k) <==> BelowFrom(n, from + 1, k) || exists x :: Within(x, c) && x.tx.hash == k {
        if BelowFrom(n, from, k) {
          var i, x :| from <= i < |n.children| && Within(x, n.children[i]) && x.tx.hash == k;
          assert i > from ==> BelowFrom(n, from + 1, k);
        }
      }
    }
  }

  /** The transaction map of a rebuilt trace holds every transaction of the trace and no other. */
  lemma AllTransactionsKept(root: TraceNode, all: iset<Tx>)
    requires HashesIdentify(all) && forall x :: Within(x, root) ==> x.tx in all
    ensures var r := AddTxs(root, map[]);
            && (forall x :: Within(x, root) ==> x.tx.hash in r && r[x.tx.hash] == x.tx)
            && (forall k :: k in r ==> exists x :: Within(x, root) && x.tx == r[k])
  {
    AddTxsHolds(root, map[], all);
    var r := AddTxs(root, map[]);
    hide AddTxs, Within;
    forall k | k in r ensures exists x :: Within(x, root) && x.tx == r[k] {
      var x :| Within(x, root) && x.tx.hash == k;
    }
  }

  /** Of several nodes with one key the last one written stays. */
  lemma {:induction false} LastEntryStays(nodes: seq<Stored>, k: Hash)
    requires k in Entries(nodes)
    ensures exists i :: 0 <= i < |nodes| && nodes[i] == Entries(nodes)[k] && nodes[i].tx.inMsg == k &&
              forall j :: i < j < |nodes| ==> nodes[j].tx.inMsg != k
  {
    var n := |nodes| - 1;
    if nodes[n].tx.inMsg != k {
      LastEntryStays(nodes[..n], k);
      var i :| 0 <= i < n && nodes[..n][i] == Entries(nodes[..n])[k] && nodes[..n][i].tx.inMsg == k &&
               forall j :: i < j < n ==> nodes[..n][j].tx.inMsg != k;
      assert forall j :: i < j < n ==> nodes[j] == nodes[..n][j];
      assert nodes[i] == Entries(nodes)[k];
    } else {
      assert nodes[n] == Entries(nodes)[k];
    }
  }

  // The short tree has the transactions and in-messages of the trace, node by node.
  predicate SameShape(s: Short, n: TraceNode)
    decreases n
  {
    && s.txHash == n.tx.hash && s.inMsgHash == n.tx.inMsg && |s.children| == |n.children|
    && forall i :: 0 <= i < |n.children| ==> SameShape(s.children[i], n.children[i])
  }

  lemma {:induction false} ToShortsAt(ns: seq<TraceNode>, i: nat)
    requires i < |ns|
    ensures |ToShorts(ns)| == |ns| && ToShorts(ns)[i] == ToShort(ns[i])
  {
    if |ns| > 1 {
      ToShortsAt(ns[1..], if i > 0 then i - 1 else 0);
    }
  }

  /** What comes back has the shape of the trace, with the hashes of each transaction and in-message
      in their places. */
  lemma {:induction false} ShortHasShape(n: TraceNode)
    ensures SameShape(ToShort(n), n)
    decreases n
  {
    forall i | 0 <= i < |n.children|
      ensures |ToShort(n).children| == |n.children| && SameShape(ToShort(n).children[i], n.children[i])
    {
      ToShortsAt(n.children, i);
      ShortHasShape(n.children[i]);
    }
  }
}
