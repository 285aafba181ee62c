/** A trace tree written out as a keyed collection of its transactions, breadth first
    (ton-trace-task-emulator/src/TaskResultInserter.cpp, ton-trace-emulator/src/TraceInserter.cpp). */
module TraceFlattening {

  type Hash = nat
  type Address = nat

  datatype Tx = Tx(hash: Hash, account: Address, inMsg: Hash, outMsgs: seq<Hash>)

  datatype TraceNode = TraceNode(tx: Tx, emulated: bool, children: seq<TraceNode>)

  // What is stored for one node, under the hash of its in-message.
  datatype Stored = Stored(tx: Tx, emulated: bool)

  function Record(n: TraceNode): Stored {
    Stored(n.tx, n.emulated)
  }

  function Size(n: TraceNode): nat {
    1 + TotalSize(n.children)
  }

  function TotalSize(ns: seq<TraceNode>): nat {
    if ns == [] then 0 else Size(ns[0]) + TotalSize(ns[1..])
  }

  lemma {:induction false} TotalSizeAppend(a: seq<TraceNode>, b: seq<TraceNode>)
    ensures TotalSize(a + b) == TotalSize(a) + TotalSize(b)
    decreases |a|
  {
    if a == [] {
      assert a + b == b;
    } else {
      assert (a + b)[1..] == a[1..] + b;
      TotalSizeAppend(a[1..], b);
    }
  }

  lemma Expanding(queue: seq<TraceNode>)
    requires queue != []
    ensures TotalSize(queue[1..] + queue[0].children) < TotalSize(queue)
  {
    TotalSizeAppend(queue[1..], queue[0].children);
    assert Size(queue[0]) == 1 + TotalSize(queue[0].children);
  }

  // Breadth-first order of the nodes below a queue.
  function Bfs(queue: seq<TraceNode>): seq<Stored>
    decreases TotalSize(queue)
  {
    if queue == [] then []
    else
      Expanding(queue);
      [Record(queue[0])] + Bfs(queue[1..] + queue[0].children)
  }

  /** The work queue visits the nodes in breadth-first order. */
  method Flatten(root: TraceNode) returns (nodes: seq<Stored>)
    ensures nodes == Bfs([root])
  {
    var queue := [root];
    nodes := [];
    while queue != []
      invariant nodes + Bfs(queue) == Bfs([root])
      decreases TotalSize(queue)
    {
      var current := queue[0];
      Expanding(queue);
      assert nodes + ([Record(current)] + Bfs(queue[1..] + current.children)) ==
             (nodes + [Record(current)]) + Bfs(queue[1..] + current.children);
      nodes := nodes + [Record(current)];
      queue := queue[1..] + current.children;
    }
    assert nodes + [] == nodes;
  }

  // The node itself or one below it.
  predicate Within(x: TraceNode, n: TraceNode)
    decreases n
  {
    x == n || exists i :: 0 <= i < |n.children| && Within(x, n.children[i])
  }

  predicate WithinAny(x: TraceNode, ns: seq<TraceNode>) {
    exists i :: 0 <= i < |ns| && Within(x, ns[i])
  }

  lemma WithinStep(x: TraceNode, queue: seq<TraceNode>)
    requires queue != []
    ensures WithinAny(x, queue) <==> x == queue[0] || WithinAny(x, queue[1..] + queue[0].children)
  {
    var q, rest := queue[0], queue[1..];
    var next := rest + q.children;
    if WithinAny(x, queue) && x != q {
      var i :| 0 <= i < |queue| && Within(x, queue[i]);
      if i > 0 {
        assert next[i - 1] == queue[i];
      } else {
        var j :| 0 <= j < |q.children| && Within(x, q.children[j]);
        assert next[|rest| + j] == q.children[j];
      }
    }
    if WithinAny(x, next) {
      var i :| 0 <= i < |next| && Within(x, next[i]);
      if i < |rest| {
        assert queue[i + 1] == next[i];
      } else {
        assert q.children[i - |rest|] == next[i];
        assert Within(x, queue[0]);
      }
    }
  }

  /** Exactly the nodes of the tree are written out. */
  lemma {:induction false} BfsContains(queue: seq<TraceNode>, s: Stored)
    ensures s in Bfs(queue) <==> exists x :: WithinAny(x, queue) && Record(x) == s
    decreases TotalSize(queue)
  {
    if queue != [] {
      var next := queue[1..] + queue[0].children;
      Expanding(queue);
      BfsContains(next, s);
      if exists x :: WithinAny(x, queue) && Record(x) == s {
        var x :| WithinAny(x, queue) && Record(x) == s;
        WithinStep(x, queue);
      }
      if s in Bfs(queue) {
        if s == Record(queue[0]) {
          assert Within(queue[0], queue[0]);
          assert WithinAny(queue[0], queue);
        } else {
          var x :| WithinAny(x, next) && Record(x) == s;
          WithinStep(x, queue);
        }
      }
    }
  }

  // ---- Distinct keys ----

  ghost predicate KeyBelow(n: TraceNode, k: Hash) {
    exists x :: Within(x, n) && x.tx.inMsg == k
  }

  // No two nodes have the same in-message hash.
  ghost predicate DistinctKeys(n: TraceNode) {
    && (forall i :: 0 <= i < |n.children| ==> DistinctKeys(n.children[i]) && !KeyBelow(n.children[i], n.tx.inMsg))
    && (forall i, j, k :: 0 <= i < j < |n.children| && KeyBelow(n.children[i], k) ==> !KeyBelow(n.children[j], k))
  }

  lemma RootKeyIsUnique(n: TraceNode, y: TraceNode)
    requires DistinctKeys(n) && Within(y, n) && y.tx.inMsg == n.tx.inMsg
    ensures y == n
  {
    forall j | 0 <= j < |n.children| ensures !Within(y, n.children[j]) {
      assert !KeyBelow(n.children[j], n.tx.inMsg);
    }
  }

  lemma {:induction false} KeyIdentifies(n: TraceNode, x: TraceNode, y: TraceNode)
    requires DistinctKeys(n) && Within(x, n) && Within(y, n) && x.tx.inMsg == y.tx.inMsg
    ensures x == y
    decreases n
  {
    if x == n {
      RootKeyIsUnique(n, y);
    } else if y == n {
      RootKeyIsUnique(n, x);
    } else {
      var i :| 0 <= i < |n.children| && Within(x, n.children[i]);
      var j :| 0 <= j < |n.children| && Within(y, n.children[j]);
      assert KeyBelow(n.children[i], x.tx.inMsg) && KeyBelow(n.children[j], x.tx.inMsg);
      assert i == j;
      KeyIdentifies(n.children[i], x, y);
    }
  }

  // ---- Level by level ----

  function Records(ns: seq<TraceNode>): seq<Stored> {
    seq(|ns|, i requires 0 <= i < |ns| => Record(ns[i]))
  }

  function AllChildren(ns: seq<TraceNode>): seq<TraceNode> {
    if ns == [] then [] else ns[0].children + AllChildren(ns[1..])
  }

  lemma {:induction false} BfsOfFront(a: seq<TraceNode>, b: seq<TraceNode>)
    ensures Bfs(a + b) == Records(a) + Bfs(b + AllChildren(a))
    decreases |a|
  {
    if a == [] {
      assert a + b == b && b + AllChildren(a) == b;
      assert Records(a) == [];
    } else {
      var rest := a[1..];
      assert (a + b)[0] == a[0] && (a + b)[1..] == rest + b;
      assert (rest + b) + a[0].children == rest + (b + a[0].children);
      BfsOfFront(rest, b + a[0].children);
      assert (b + a[0].children) + AllChildren(rest) == b + AllChildren(a);
      assert Records(a) == [Record(a[0])] + Records(rest);
    }
  }

  /** Breadth first: the nodes of one level in order, then those of the levels below. */
  lemma BfsByLevels(level: seq<TraceNode>)
    ensures Bfs(level) == Records(level) + Bfs(AllChildren(level))
  {
    BfsOfFront(level, []);
    assert level + [] == level && [] + AllChildren(level) == AllChildren(level);
  }
}
