/** The stored nodes of one trace and the per-address index of them, replaced when a newer
    version of the trace arrives (ton-trace-emulator/src/TraceInserter.cpp). */
module TraceStore {
  import opened TraceFlattening
  import opened TraceRoundTrip

  // Nodes under their in-message hash; an index member names an address and a key.
  type Nodes = map<Hash, Stored>
  type Index = set<(Address, Hash)>

  predicate KeyedByMessage(nodes: Nodes) {
    forall k :: k in nodes ==> nodes[k].tx.inMsg == k
  }

  // Following out-messages ends: some rank decreases along them.
  ghost predicate Ranked(nodes: Nodes, rank: Hash -> nat) {
    forall k, m :: k in nodes && m in nodes[k].tx.outMsgs ==> rank(m) < rank(k)
  }

  // A chain of stored nodes, each named by an out-message of the one before.
  ghost predicate Chain(nodes: Nodes, path: seq<Hash>) {
    && path != [] && (forall i :: 0 <= i < |path| ==> path[i] in nodes)
    && (forall i :: 0 <= i < |path| - 1 ==> path[i + 1] in nodes[path[i]].tx.outMsgs)
  }

  ghost predicate Reaches(nodes: Nodes, from: Hash, to: Hash) {
    exists path :: Chain(nodes, path) && path[0] == from && path[|path| - 1] == to
  }

  lemma ReachesStep(nodes: Nodes, from: Hash, to: Hash)
    requires from in nodes
    ensures Reaches(nodes, from, to) <==>
            to == from || exists i :: 0 <= i < |nodes[from].tx.outMsgs| && Reaches(nodes, nodes[from].tx.outMsgs[i], to)
  {
    var outs := nodes[from].tx.outMsgs;
    if Reaches(nodes, from, to) && to != from {
      var path :| Chain(nodes, path) && path[0] == from && path[|path| - 1] == to;
      assert path[0 + 1] in nodes[path[0]].tx.outMsgs;
      var i :| 0 <= i < |outs| && outs[i] == path[1];
      var rest := path[1..];
      forall j | 0 <= j < |rest| - 1 ensures rest[j + 1] in nodes[rest[j]].tx.outMsgs {
        assert path[(j + 1) + 1] in nodes[path[j + 1]].tx.outMsgs;
      }
      assert Chain(nodes, rest) && rest[0] == outs[i] && rest[|rest| - 1] == to;
      assert Reaches(nodes, outs[i], to);
    }
    if to == from {
      assert Chain(nodes, [from]);
    }
    if exists i :: 0 <= i < |outs| && Reaches(nodes, outs[i], to) {
      var i :| 0 <= i < |outs| && Reaches(nodes, outs[i], to);
      var rest :| Chain(nodes, rest) && rest[0] == outs[i] && rest[|rest| - 1] == to;
      var path := [from] + rest;
      forall j | 0 <= j < |path| - 1 ensures path[j + 1] in nodes[path[j]].tx.outMsgs {
        assert j > 0 ==> rest[(j - 1) + 1] in nodes[rest[j - 1]].tx.outMsgs;
      }
      assert Chain(nodes, path) && path[0] == from && path[|path| - 1] == to;
    }
  }

  // `keys` lists what is reached from `from` or from its first `n` out-messages.
  ghost predicate Listed(nodes: Nodes, from: Hash, n: nat, k: Hash)
    requires from in nodes && n <= |nodes[from].tx.outMsgs|
  {
    exists i :: 0 <= i < n && Reaches(nodes, nodes[from].tx.outMsgs[i], k)
  }

  // Each collected node key comes with the index member of that stored node.
  ghost predicate Paired(nodes: Nodes, txKeys: seq<Hash>, addrKeys: seq<(Address, Hash)>) {
    && |txKeys| == |addrKeys|
    && forall i :: 0 <= i < |txKeys| ==>
         txKeys[i] in nodes && addrKeys[i] == (nodes[txKeys[i]].tx.account, nodes[txKeys[i]].tx.inMsg)
  }

  /** Collect the stored keys below `key`, following out-messages. */
  method DeleteDbSubtree(nodes: Nodes, key: Hash, ghost rank: Hash -> nat,
                         txKeys: seq<Hash>, addrKeys: seq<(Address, Hash)>)
    returns (r: seq<Hash>, addrs: seq<(Address, Hash)>)
    requires Ranked(nodes, rank) && Paired(nodes, txKeys, addrKeys)
    ensures forall k :: k in r <==> k in txKeys || Reaches(nodes, key, k)
    ensures Paired(nodes, r, addrs)
    decreases rank(key)
  {
    r, addrs := txKeys, addrKeys;
    if key in nodes {
      var outs := nodes[key].tx.outMsgs;
      for i := 0 to |outs|
        invariant forall k :: k in r <==> k in txKeys || Listed(nodes, key, i, k)
        invariant Paired(nodes, r, addrs)
      {
        r, addrs := DeleteDbSubtree(nodes, outs[i], rank, r, addrs);
      }
      r := r + [key];
      addrs := addrs + [(nodes[key].tx.account, nodes[key].tx.inMsg)];
      forall k ensures k in r <==> k in txKeys || Reaches(nodes, key, k) {
        ReachesStep(nodes, key, k);
      }
    } else {
      forall k ensures !Reaches(nodes, key, k) {}
    }
  }

  // A stored key below a confirmed (not emulated) node of the new version.
  ghost predicate Outdated(nodes: Nodes, root: TraceNode, k: Hash) {
    exists n :: Within(n, root) && !n.emulated && Reaches(nodes, n.tx.inMsg, k)
  }

  ghost predicate OutdatedBy(nodes: Nodes, visited: seq<Stored>, k: Hash) {
    exists i :: 0 <= i < |visited| && !visited[i].emulated && Reaches(nodes, visited[i].tx.inMsg, k)
  }

  lemma OutdatedByAll(nodes: Nodes, root: TraceNode, k: Hash)
    ensures OutdatedBy(nodes, Bfs([root]), k) <==> Outdated(nodes, root, k)
  {
    hide Bfs, Within, Reaches;
    var all := Bfs([root]);
    if OutdatedBy(nodes, all, k) {
      var i :| 0 <= i < |all| && !all[i].emulated && Reaches(nodes, all[i].tx.inMsg, k);
      BfsContains([root], all[i]);
      var n :| WithinAny(n, [root]) && Record(n) == all[i];
      WithinOnly(n, root);
      assert Within(n, root) && !n.emulated && Reaches(nodes, n.tx.inMsg, k);
    }
    if Outdated(nodes, root, k) {
      var n :| Within(n, root) && !n.emulated && Reaches(nodes, n.tx.inMsg, k);
      WithinOnly(n, root);
      BfsContains([root], Record(n));
      var i :| 0 <= i < |all| && all[i] == Record(n);
    }
  }

  // ---- The new contents ----

  ghost function Survivors(nodes: Nodes, root: TraceNode): Nodes {
    map k | k in nodes && !Outdated(nodes, root, k) :: nodes[k]
  }

  ghost function NodesAfter(nodes: Nodes, root: TraceNode): Nodes {
    Survivors(nodes, root) + Entries(Bfs([root]))
  }

  ghost predicate IndexedAfter(nodes: Nodes, index: Index, root: TraceNode, a: Address, k: Hash) {
    || ((a, k) in index && !(k in nodes && nodes[k].tx.account == a && Outdated(nodes, root, k)))
    || exists n :: Within(n, root) && n.tx.inMsg == k && n.tx.account == a
  }

  class TraceTable {
    var nodes: Nodes
    var index: Index

    constructor ()
      ensures nodes == map[] && index == {}
    {
      nodes, index := map[], {};
    }

    // First pass: flatten the new version and collect what it makes outdated.
    method Plan(root: TraceNode, ghost rank: Hash -> nat) 
      returns (flat: seq<Stored>, txKeys: seq<Hash>, addrKeys: seq<(Address, Hash)>)
      requires Ranked(nodes, rank)
      ensures flat == Bfs([root]) && Paired(nodes, txKeys, addrKeys)
      ensures forall k :: k in txKeys <==> OutdatedBy(nodes, flat, k)
    {
      var queue := [root];
      flat, txKeys, addrKeys := [], [], [];
      while queue != []
        invariant flat + Bfs(queue) == Bfs([root])
        invariant forall k :: k in txKeys <==> OutdatedBy(nodes, flat, k)
        invariant Paired(nodes, txKeys, addrKeys)
        decreases TotalSize(queue)
      {
        var current := queue[0];
        Expanding(queue);
        ghost var before := txKeys;
        if !current.emulated {
          txKeys, addrKeys := DeleteDbSubtree(nodes, current.tx.inMsg, rank, txKeys, addrKeys);
        }
        ghost var was := flat;
        assert flat + ([Record(current)] + Bfs(queue[1..] + current.children)) ==
               (flat + [Record(current)]) + Bfs(queue[1..] + current.children);
        flat := flat + [Record(current)];
        forall k ensures k in txKeys <==> OutdatedBy(nodes, flat, k) {
          OutdatedSnoc(nodes, was, Record(current), k);
        }
        queue := queue[1..] + current.children;
      }
      assert flat + [] == flat;
    }

    // Delete the outdated nodes and their index members.
    method Remove(txKeys: seq<Hash>, addrKeys: seq<(Address, Hash)>)
      requires KeyedByMessage(nodes) && Paired(nodes, txKeys, addrKeys)
      modifies this
      ensures forall k :: k in nodes <==> k in old(nodes) && k !in txKeys
      ensures forall k :: k in nodes ==> nodes[k] == old(nodes)[k]
      ensures forall a: Address, k: Hash :: (a, k) in index <==>
                (a, k) in old(index) && !(k in txKeys && old(nodes)[k].tx.account == a)
    {
      ghost var was, had := nodes, index;
      for i := 0 to |txKeys|
        invariant index == had
        invariant forall k :: k in nodes <==> k in was && k !in txKeys[..i]
        invariant forall k :: k in nodes ==> nodes[k] == was[k]
      {
        assert txKeys[..i + 1] == txKeys[..i] + [txKeys[i]];
        nodes := nodes - {txKeys[i]};
      }
      assert txKeys[..|txKeys|] == txKeys;
      ghost var left := nodes;
      for i := 0 to |addrKeys|
        invariant nodes == left
        invariant forall a: Address, k: Hash :: (a, k) in index <==>
                    (a, k) in had && !(k in txKeys[..i] && was[k].tx.account == a)
      {
        assert txKeys[..i + 1] == txKeys[..i] + [txKeys[i]];
        index := index - {addrKeys[i]};
      }
    }

    // Write the new nodes and their index members.
    method Write(flat: seq<Stored>)
      modifies this
      ensures nodes == old(nodes) + Entries(flat)
      ensures forall a: Address, k: Hash :: (a, k) in index <==> (a, k) in old(index) || Mentions(flat, a, k)
    {
      ghost var was, had := nodes, index;
      for i := 0 to |flat|
        invariant nodes == was + Entries(flat[..i])
        invariant forall a: Address, k: Hash :: (a, k) in index <==> (a, k) in had || Mentions(flat[..i], a, k)
      {
        assert flat[..i + 1] == flat[..i] + [flat[i]];
        MentionsSnoc(flat[..i], flat[i]);
        assert flat[..i + 1][..i] == flat[..i];
        var tx := flat[i].tx;
        nodes := nodes[tx.inMsg := flat[i]];
        index := index + {(tx.account, tx.inMsg)};
      }
      assert flat[..|flat|] == flat;
    }

    /** A new version of the trace replaces what it makes outdated, in the nodes and in the index. */
    method Insert(root: TraceNode, ghost rank: Hash -> nat)
      requires KeyedByMessage(nodes) && Ranked(nodes, rank)
      modifies this
      ensures nodes == NodesAfter(old(nodes), root)
      ensures forall a: Address, k: Hash :: (a, k) in index <==> IndexedAfter(old(nodes), old(index), root, a, k)
    {
      hide Bfs, Within, Reaches, Ranked;
      ghost var was := nodes;
      var flat, txKeys, addrKeys := Plan(root, rank);
      forall k ensures k in txKeys <==> Outdated(was, root, k) {
        OutdatedByAll(was, root, k);
      }
      Remove(txKeys, addrKeys);
      assert nodes == Survivors(was, root);
      Write(flat);
      forall a: Address, k: Hash ensures Mentions(flat, a, k) <==> exists n :: Within(n, root) && n.tx.inMsg == k && n.tx.account == a {
        MentionsTree(root, a, k);
      }
    }
  }

  predicate Mentions(flat: seq<Stored>, a: Address, k: Hash) {
    exists i :: 0 <= i < |flat| && flat[i].tx.account == a && flat[i].tx.inMsg == k
  }

  lemma MentionsSnoc(flat: seq<Stored>, s: Stored)
    ensures forall a: Address, k: Hash :: Mentions(flat + [s], a, k) <==> Mentions(flat, a, k) || (s.tx.account == a && s.tx.inMsg == k)
  {
    var all := flat + [s];
    forall a: Address, k: Hash ensures Mentions(all, a, k) <==> Mentions(flat, a, k) || (s.tx.account == a && s.tx.inMsg == k) {
      if Mentions(flat, a, k) {
        var i :| 0 <= i < |flat| && flat[i].tx.account == a && flat[i].tx.inMsg == k;
        assert all[i] == flat[i];
      }
      assert all[|flat|] == s;
    }
  }

  lemma MentionsTree(root: TraceNode, a: Address, k: Hash)
    ensures Mentions(Bfs([root]), a, k) <==> exists n :: Within(n, root) && n.tx.inMsg == k && n.tx.account == a
  {
    hide Bfs, Within;
    var flat := Bfs([root]);
    if Mentions(flat, a, k) {
      var i :| 0 <= i < |flat| && flat[i].tx.account == a && flat[i].tx.inMsg == k;
      BfsContains([root], flat[i]);
      var n :| WithinAny(n, [root]) && Record(n) == flat[i];
      WithinOnly(n, root);
    }
    if exists n :: Within(n, root) && n.tx.inMsg == k && n.tx.account == a {
      var n :| Within(n, root) && n.tx.inMsg == k && n.tx.account == a;
      WithinOnly(n, root);
      BfsContains([root], Record(n));
      var i :| 0 <= i < |flat| && flat[i] == Record(n);
    }
  }

  // ---- Index and nodes in step ----

  // An address lists a key exactly when the key is stored with that account.
  ghost predicate InStep(nodes: Nodes, index: Index) {
    forall a: Address, k: Hash :: (a, k) in index <==> k in nodes && nodes[k].tx.account == a
  }

  // Nodes of the new version agree about the account of a key, with each other and with what
  // is stored and stays.
  ghost predicate AccountsAgree(nodes: Nodes, root: TraceNode) {
    && (forall n, m :: Within(n, root) && Within(m, root) && n.tx.inMsg == m.tx.inMsg ==> n.tx.account == m.tx.account)
    && (forall n :: Within(n, root) && n.tx.inMsg in nodes && !Outdated(nodes, root, n.tx.inMsg) ==>
          nodes[n.tx.inMsg].tx.account == n.tx.account)
  }

  lemma AfterAt(nodes: Nodes, root: TraceNode, k: Hash)
    ensures k in NodesAfter(nodes, root) <==> KeyBelow(root, k) || (k in nodes && !Outdated(nodes, root, k))
    ensures KeyBelow(root, k) ==>
              exists n :: Within(n, root) && n.tx.inMsg == k && NodesAfter(nodes, root)[k] == Record(n)
    ensures !KeyBelow(root, k) && k in NodesAfter(nodes, root) ==> NodesAfter(nodes, root)[k] == nodes[k]
  {
    hide Bfs, Within, Outdated;
    var flat := Bfs([root]);
    EntriesFromList(flat, k);
    if k in Entries(flat) {
      BfsContains([root], Entries(flat)[k]);
      var n :| WithinAny(n, [root]) && Record(n) == Entries(flat)[k];
      WithinOnly(n, root);
      assert Within(n, root) && n.tx.inMsg == k;
    }
    if KeyBelow(root, k) {
      var n :| Within(n, root) && n.tx.inMsg == k;
      WithinOnly(n, root);
      BfsContains([root], Record(n));
      var i :| 0 <= i < |flat| && flat[i] == Record(n);
    }
  }

  /** Inserting keeps the index in step with the nodes exactly when the accounts agree. */
  lemma InStepIffAgree(nodes: Nodes, index: Index, root: TraceNode, index': Index)
    requires InStep(nodes, index)
    requires forall a: Address, k: Hash :: (a, k) in index' <==> IndexedAfter(nodes, index, root, a, k)
    ensures InStep(NodesAfter(nodes, root), index') <==> AccountsAgree(nodes, root)
  {
    hide NodesAfter, Within, Outdated;
    var after := NodesAfter(nodes, root);
    if AccountsAgree(nodes, root) {
      forall a: Address, k: Hash ensures (a, k) in index' <==> k in after && after[k].tx.account == a {
        AfterAt(nodes, root, k);
      }
    }
    if InStep(after, index') {
      forall n, m | Within(n, root) && Within(m, root) && n.tx.inMsg == m.tx.inMsg
        ensures n.tx.account == m.tx.account
      {
        assert (n.tx.account, n.tx.inMsg) in index' && (m.tx.account, m.tx.inMsg) in index';
      }
      forall n | Within(n, root) && n.tx.inMsg in nodes && !Outdated(nodes, root, n.tx.inMsg)
        ensures nodes[n.tx.inMsg].tx.account == n.tx.account
      {
        var k := n.tx.inMsg;
        assert (nodes[k].tx.account, k) in index';
        assert (n.tx.account, k) in index';
      }
    }
  }

  // ---- Any number of versions ----

  ghost predicate Fits(n: TraceNode, account: Hash -> Address, rank: Hash -> nat) {
    forall x :: Within(x, n) ==>
      x.tx.account == account(x.tx.inMsg) && forall m :: m in x.tx.outMsgs ==> rank(m) < rank(x.tx.inMsg)
  }

  ghost predicate StoreRight(nodes: Nodes, index: Index, account: Hash -> Address, rank: Hash -> nat) {
    && InStep(nodes, index) && KeyedByMessage(nodes) && Ranked(nodes, rank)
    && forall k :: k in nodes ==> nodes[k].tx.account == account(k)
  }

  /** If an account is determined by the in-message hash, every insert keeps the store right, so
      it is right after any number of versions of the trace. */
  lemma InsertKeepsRight(nodes: Nodes, index: Index, root: TraceNode, index': Index,
                         account: Hash -> Address, rank: Hash -> nat)
    requires StoreRight(nodes, index, account, rank) && Fits(root, account, rank)
    requires forall a: Address, k: Hash :: (a, k) in index' <==> IndexedAfter(nodes, index, root, a, k)
    ensures StoreRight(NodesAfter(nodes, root), index', account, rank)
  {
    InStepIffAgree(nodes, index, root, index');
    hide NodesAfter, Within, Outdated;
    var after := NodesAfter(nodes, root);
    forall k | k in after
      ensures after[k].tx.inMsg == k && after[k].tx.account == account(k)
      ensures forall m :: m in after[k].tx.outMsgs ==> rank(m) < rank(k)
    {
      AfterAt(nodes, root, k);
    }
  }

  lemma OutdatedSnoc(nodes: Nodes, visited: seq<Stored>, s: Stored, k: Hash)
    ensures OutdatedBy(nodes, visited + [s], k) <==>
            OutdatedBy(nodes, visited, k) || (!s.emulated && Reaches(nodes, s.tx.inMsg, k))
  {
    hide Reaches;
    var all := visited + [s];
    if OutdatedBy(nodes, visited, k) {
      var i :| 0 <= i < |visited| && !visited[i].emulated && Reaches(nodes, visited[i].tx.inMsg, k);
      assert all[i] == visited[i];
    }
    if !s.emulated && Reaches(nodes, s.tx.inMsg, k) {
      assert all[|visited|] == s;
    }
  }
}
